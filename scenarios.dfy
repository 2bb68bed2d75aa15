/** The repository's own test scenario replayed on the abstract operations:
    the keys 7, 5, 9, 3, 6, 8, 10, 1, 2 inserted in that order into an empty
    tree (node objects numbered 1 to 9 in order of creation), then 6 and 7
    deleted, as `test_tree_insert_color_2` and `test_tree_delete_color_2`
    do. */
module Scenarios {
  import opened Trees
  import opened Zipper
  import opened Search
  import opened Insertion
  import opened Deletion

  /** The tree the nine insertions build. */
  const Nine: Tree :=
    Node(Black,
      Node(Red, Node(Black, Node(Red, Leaf, 8, 1, Leaf), 9, 2, Node(Red, Leaf, 4, 3, Leaf)), 2, 5, Node(Black, Leaf, 5, 6, Leaf)),
      1, 7,
      Node(Black, Node(Red, Leaf, 6, 8, Leaf), 3, 9, Node(Red, Leaf, 7, 10, Leaf)))

  /** The tree left once 6 is deleted from `Nine`. */
  const WithoutSix: Tree :=
    Node(Black,
      Node(Red, Node(Black, Leaf, 8, 1, Leaf), 9, 2, Node(Black, Node(Red, Leaf, 4, 3, Leaf), 2, 5, Leaf)),
      1, 7,
      Node(Black, Node(Red, Leaf, 6, 8, Leaf), 3, 9, Node(Red, Leaf, 7, 10, Leaf)))

  /** The tree left once 7 is deleted from `WithoutSix`. */
  const Pruned: Tree :=
    Node(Black,
      Node(Red, Node(Black, Leaf, 8, 1, Leaf), 9, 2, Node(Black, Node(Red, Leaf, 4, 3, Leaf), 2, 5, Leaf)),
      6, 8,
      Node(Black, Leaf, 3, 9, Node(Red, Leaf, 7, 10, Leaf)))

  /** Inserting the nine keys one after the other builds `Nine`. */
  lemma InsertScenario()
    ensures var t := Insertion.Insert(Insertion.Insert(Insertion.Insert(Leaf, 7, 1), 5, 2), 9, 3);
      var u := Insertion.Insert(Insertion.Insert(Insertion.Insert(t, 3, 4), 6, 5), 8, 6);
      Insertion.Insert(Insertion.Insert(Insertion.Insert(u, 10, 7), 1, 8), 2, 9) == Nine
  {
    var t1 := Insertion.Insert(Leaf, 7, 1);
    assert t1 == Node(Black, Leaf, 1, 7, Leaf);
    var t2 := Insertion.Insert(t1, 5, 2);
    assert t2 == Node(Black, Node(Red, Leaf, 2, 5, Leaf), 1, 7, Leaf);
    var t3 := Insertion.Insert(t2, 9, 3);
    assert t3 == Node(Black, Node(Red, Leaf, 2, 5, Leaf), 1, 7, Node(Red, Leaf, 3, 9, Leaf));
    var t4 := Insertion.Insert(t3, 3, 4);
    assert t4 == Node(Black, Node(Black, Node(Red, Leaf, 4, 3, Leaf), 2, 5, Leaf), 1, 7, Node(Black, Leaf, 3, 9, Leaf));
    var t5 := Insertion.Insert(t4, 6, 5);
    assert t5 == Node(Black, Node(Black, Node(Red, Leaf, 4, 3, Leaf), 2, 5, Node(Red, Leaf, 5, 6, Leaf)), 1, 7, Node(Black, Leaf, 3, 9, Leaf));
    var t6 := Insertion.Insert(t5, 8, 6);
    assert t6 == Node(Black, Node(Black, Node(Red, Leaf, 4, 3, Leaf), 2, 5, Node(Red, Leaf, 5, 6, Leaf)), 1, 7, Node(Black, Node(Red, Leaf, 6, 8, Leaf), 3, 9, Leaf));
    var t7 := Insertion.Insert(t6, 10, 7);
    assert t7 == Node(Black, Node(Black, Node(Red, Leaf, 4, 3, Leaf), 2, 5, Node(Red, Leaf, 5, 6, Leaf)), 1, 7, Node(Black, Node(Red, Leaf, 6, 8, Leaf), 3, 9, Node(Red, Leaf, 7, 10, Leaf)));
    var t8 := Insertion.Insert(t7, 1, 8);
    assert t8 == Node(Black, Node(Red, Node(Black, Node(Red, Leaf, 8, 1, Leaf), 4, 3, Leaf), 2, 5, Node(Black, Leaf, 5, 6, Leaf)), 1, 7, Node(Black, Node(Red, Leaf, 6, 8, Leaf), 3, 9, Node(Red, Leaf, 7, 10, Leaf)));
    assert PutPath(t8, 2) ==
             [Frame(Right, Red, 8, 1, Leaf), Frame(Left, Black, 4, 3, Leaf), Frame(Left, Red, 2, 5, Node(Black, Leaf, 5, 6, Leaf)),
              Frame(Left, Black, 1, 7, Node(Black, Node(Red, Leaf, 6, 8, Leaf), 3, 9, Node(Red, Leaf, 7, 10, Leaf)))];
    assert InsertFix(PutPath(t8, 2), Node(Red, Leaf, 9, 2, Leaf)) ==
      InsertFix(
             [Frame(Left, Black, 9, 2, Node(Red, Leaf, 4, 3, Leaf)), Frame(Left, Red, 2, 5, Node(Black, Leaf, 5, 6, Leaf)),
              Frame(Left, Black, 1, 7, Node(Black, Node(Red, Leaf, 6, 8, Leaf), 3, 9, Node(Red, Leaf, 7, 10, Leaf)))], Node(Red, Leaf, 8, 1, Leaf));
    var t9 := Insertion.Insert(t8, 2, 9);
    assert t9 == Nine;
  }

  /** `preorder` on `Nine` reports the keys 7, 5, 2, 1, 3, 6, 9, 8, 10 with
      their colours. */
  lemma InsertedPreorder()
    ensures TraverseKeys(Nine, PreOrder) == [7, 5, 2, 1, 3, 6, 9, 8, 10]
    ensures TraverseColors(Nine, PreOrder) == [Black, Red, Black, Red, Red, Black, Black, Red, Red]
  {
    var l, r := Nine.left, Nine.right;
    assert TraverseKeys(l.left, PreOrder) == [2, 1, 3];
    assert TraverseKeys(l, PreOrder) == [5, 2, 1, 3, 6];
    assert TraverseKeys(r, PreOrder) == [9, 8, 10];
    assert TraverseColors(l.left, PreOrder) == [Black, Red, Red];
    assert TraverseColors(l, PreOrder) == [Red, Black, Red, Red, Black];
    assert TraverseColors(r, PreOrder) == [Black, Red, Red];
  }

  /** Deleting 6 from `Nine` leaves `WithoutSix`; deleting 7 from that
      leaves `Pruned`. */
  lemma DeleteScenario()
    ensures Deletion.Delete(Nine, 6) == WithoutSix
    ensures Deletion.Delete(WithoutSix, 7) == Pruned
  {
  }

  /** `preorder` once 6 is deleted: the keys 7, 2, 1, 5, 3, 9, 8, 10 with
      their colours. */
  lemma WithoutSixPreorder()
    ensures TraverseKeys(WithoutSix, PreOrder) == [7, 2, 1, 5, 3, 9, 8, 10]
    ensures TraverseColors(WithoutSix, PreOrder) == [Black, Red, Black, Black, Red, Black, Red, Red]
  {
    var l := WithoutSix.left;
    assert TraverseKeys(l, PreOrder) == [2, 1, 5, 3];
    assert TraverseColors(l, PreOrder) == [Red, Black, Black, Red];
    assert TraverseKeys(WithoutSix.right, PreOrder) == [9, 8, 10];
    assert TraverseColors(WithoutSix.right, PreOrder) == [Black, Red, Red];
  }

  /** `preorder` once 7 is deleted too: the keys 8, 2, 1, 5, 3, 9, 10 with
      their colours. */
  lemma PrunedPreorder()
    ensures TraverseKeys(Pruned, PreOrder) == [8, 2, 1, 5, 3, 9, 10]
    ensures TraverseColors(Pruned, PreOrder) == [Black, Red, Black, Black, Red, Black, Red]
  {
    var l := Pruned.left;
    assert TraverseKeys(l, PreOrder) == [2, 1, 5, 3];
    assert TraverseColors(l, PreOrder) == [Red, Black, Black, Red];
    assert TraverseKeys(Pruned.right, PreOrder) == [9, 10];
    assert TraverseColors(Pruned.right, PreOrder) == [Black, Red];
  }
}
