/** Walks down the tree: the lookup of `__get`, the leftmost-node walk of
    `find_min`, and the leaf position `__put` hangs a new node on. Each walk
    also yields the path it took, as a zipper context. */
module Search {
  import opened Trees
  import opened Zipper

  /** The subtree rooted at the first node on the search path whose key is
      `k`, or `Leaf` when the walk reaches the sentinel. */
  function Find(t: Tree, k: int): Tree
  {
    match t
    case Leaf => Leaf
    case Node(_, l, _, key, r) =>
      if key == k then t else if k < key then Find(l, k) else Find(r, k)
  }

  /** The ancestors of `Find(t, k)`. */
  function FindPath(t: Tree, k: int): seq<Frame>
  {
    match t
    case Leaf => []
    case Node(c, l, id, key, r) =>
      if key == k then []
      else if k < key then FindPath(l, k) + [Frame(Left, c, id, key, r)]
      else FindPath(r, k) + [Frame(Right, c, id, key, l)]
  }

  lemma {:induction false} FindPlug(t: Tree, k: int)
    ensures Plug(FindPath(t, k), Find(t, k)) == t
  {
    match t
    case Leaf =>
    case Node(c, l, id, key, r) =>
      if key == k {
      } else if k < key {
        FindPlug(l, k);
        PlugAppend(FindPath(l, k), [Frame(Left, c, id, key, r)], Find(l, k));
      } else {
        FindPlug(r, k);
        PlugAppend(FindPath(r, k), [Frame(Right, c, id, key, l)], Find(r, k));
      }
  }

  /** In an ordered tree the search finds a node exactly when the key is
      present, and the node it finds holds that key. */
  lemma {:induction false} FindCorrect(t: Tree, k: int)
    requires Ordered(t)
    ensures Find(t, k).Node? <==> k in Inorder(t)
    ensures Find(t, k).Node? ==> Find(t, k).key == k
    ensures Find(t, k).Node? ==> Find(t, k).id in Ids(t)
  {
    match t
    case Leaf =>
    case Node(c, l, id, key, r) =>
      OrderedNode(c, l, id, key, r);
      FindCorrect(l, k);
      FindCorrect(r, k);
      FindSubtree(l, k);
      FindSubtree(r, k);
      assert Inorder(t) == Inorder(l) + [key] + Inorder(r);
  }

  lemma {:induction false} FindSubtree(t: Tree, k: int)
    ensures Find(t, k).Node? ==> Find(t, k).id in Ids(t)
  {
    match t
    case Leaf =>
    case Node(c, l, id, key, r) =>
      FindSubtree(l, k);
      FindSubtree(r, k);
  }

  /** The leftmost node's subtree (`Leaf` for an empty tree). */
  function MinNode(t: Tree): (r: Tree)
    ensures t.Node? ==> r.Node? && r.left == Leaf
  {
    match t
    case Leaf => Leaf
    case Node(_, l, _, _, _) => if l.Leaf? then t else MinNode(l)
  }

  /** The ancestors of the leftmost node: all of them are left turns. */
  function MinPath(t: Tree): seq<Frame>
  {
    match t
    case Leaf => []
    case Node(c, l, id, k, r) => if l.Leaf? then [] else MinPath(l) + [Frame(Left, c, id, k, r)]
  }

  /** Handle of the leftmost node; the sentinel for an empty tree. */
  function MinId(t: Tree): nat
  {
    Id(MinNode(t))
  }

  /** The leftmost node has no left child, its path turns left only, and its
      key comes first in in-order, so it is the minimum of an ordered tree. */
  lemma {:induction false} MinNodeFacts(t: Tree)
    ensures Plug(MinPath(t), MinNode(t)) == t
    ensures t.Node? ==> MinNode(t).Node? && MinNode(t).left == Leaf && MinNode(t).id in Ids(t)
    ensures forall i :: 0 <= i < |MinPath(t)| ==> MinPath(t)[i].side == Left
    ensures Before(MinPath(t)) == [] && BeforeIds(MinPath(t)) == []
    ensures t.Node? ==> Inorder(t)[0] == MinNode(t).key
  {
    match t
    case Leaf =>
    case Node(c, l, id, k, r) =>
      if l.Node? {
        MinNodeFacts(l);
        var p := MinPath(l);
        var f := Frame(Left, c, id, k, r);
        PlugAppend(p, [f], MinNode(l));
        assert MinPath(t) == p + [f];
        forall i | 0 <= i < |p + [f]| ensures (p + [f])[i].side == Left {
          if i < |p| { assert (p + [f])[i] == p[i]; }
        }
        BeforeLeftTurns(p + [f]);
      }
  }

  /** The leftmost node plugged back into its path is the tree, and nothing
      stands before it in in-order. */
  lemma MinPathFacts(t: Tree)
    ensures Plug(MinPath(t), MinNode(t)) == t
    ensures Before(MinPath(t)) == [] && BeforeIds(MinPath(t)) == []
  {
    MinNodeFacts(t);
  }

  lemma {:induction false} BeforeLeftTurns(ctx: seq<Frame>)
    requires forall i :: 0 <= i < |ctx| ==> ctx[i].side == Left
    ensures Before(ctx) == [] && BeforeIds(ctx) == []
    decreases |ctx|
  {
    if ctx != [] {
      BeforeLeftTurns(ctx[1..]);
    }
  }

  /** An ordered tree's leftmost key is its smallest. */
  lemma MinIsMinimum(t: Tree)
    requires Ordered(t) && t.Node?
    ensures MinNode(t).Node?
    ensures forall k :: k in Inorder(t) ==> MinNode(t).key <= k
  {
    MinNodeFacts(t);
    forall k | k in Inorder(t) ensures MinNode(t).key <= k {
      var i :| 0 <= i < |Inorder(t)| && Inorder(t)[i] == k;
      if i > 0 {
        assert Sorted(Inorder(t));
      }
    }
  }

  /** The tree with its leftmost node spliced out (replaced by its right
      subtree). */
  function RemoveMin(t: Tree): Tree
  {
    Plug(MinPath(t), Child(MinNode(t), Right))
  }

  /** Around the leftmost node stand only the handles after it. */
  lemma MinSplitIds(t: Tree)
    requires t.Node?
    ensures Traverse(t, InOrder) == Traverse(MinNode(t), InOrder) + AfterIds(MinPath(t))
  {
    var mp, m := MinPath(t), MinNode(t);
    MinPathFacts(t);
    PlugTraverse(mp, m);
  }

  /** Removing the leftmost node leaves its right subtree before the same
      handles. */
  lemma RemoveMinSplitIds(t: Tree)
    requires t.Node?
    ensures Traverse(RemoveMin(t), InOrder) == Traverse(Child(MinNode(t), Right), InOrder) + AfterIds(MinPath(t))
  {
    var mp, m := MinPath(t), MinNode(t);
    MinPathFacts(t);
    PlugTraverse(mp, Child(m, Right));
  }

  lemma ConsAssoc<T>(x: T, b: seq<T>, c: seq<T>)
    ensures ([x] + b) + c == [x] + (b + c)
  {
  }

  /** Around the leftmost node stand only the keys after it. */
  lemma MinSplitKeys(t: Tree)
    requires t.Node?
    ensures Inorder(t) == Inorder(MinNode(t)) + After(MinPath(t))
  {
    var mp, m := MinPath(t), MinNode(t);
    MinPathFacts(t);
    PlugInorder(mp, m);
  }

  /** Removing the leftmost node leaves its right subtree before the same
      keys. */
  lemma RemoveMinSplitKeys(t: Tree)
    requires t.Node?
    ensures Inorder(RemoveMin(t)) == Inorder(Child(MinNode(t), Right)) + After(MinPath(t))
  {
    var mp, m := MinPath(t), MinNode(t);
    MinPathFacts(t);
    PlugInorder(mp, Child(m, Right));
  }

  /** The leftmost node's key comes first in in-order. */
  lemma RemoveMinInorder(t: Tree)
    requires t.Node?
    ensures Inorder(t) == [MinNode(t).key] + Inorder(RemoveMin(t))
  {
    var m := MinNode(t);
    MinSplitKeys(t);
    RemoveMinSplitKeys(t);
    var r := Child(m, Right);
    assert m == Node(m.color, Leaf, m.id, m.key, r);
    assert Inorder(m) == [m.key] + Inorder(r);
    ConsAssoc(m.key, Inorder(r), After(MinPath(t)));
  }

  /** The leftmost node's handle comes first in in-order. */
  lemma RemoveMinIds(t: Tree)
    requires t.Node?
    ensures Traverse(t, InOrder) == [MinNode(t).id] + Traverse(RemoveMin(t), InOrder)
  {
    var m := MinNode(t);
    MinSplitIds(t);
    RemoveMinSplitIds(t);
    var R, A := Traverse(Child(m, Right), InOrder), AfterIds(MinPath(t));
    InOrderNode(m.color, Leaf, m.id, m.key, Child(m, Right));
    assert m == Node(m.color, Leaf, m.id, m.key, Child(m, Right));
    assert Traverse(m, InOrder) == [m.id] + R;
    ConsAssoc(m.id, R, A);
  }

  /** `__put`: a new red node with handle `n` hung at the sentinel the search
      for `k` ends on; keys smaller than a node's go left, the others right. */
  function Put(t: Tree, k: int, n: nat): Tree
  {
    match t
    case Leaf => Node(Red, Leaf, n, k, Leaf)
    case Node(c, l, id, key, r) =>
      if k < key then Node(c, Put(l, k, n), id, key, r)
      else Node(c, l, id, key, Put(r, k, n))
  }

  /** The ancestors of the position `Put` fills. */
  function PutPath(t: Tree, k: int): seq<Frame>
  {
    match t
    case Leaf => []
    case Node(c, l, id, key, r) =>
      if k < key then PutPath(l, k) + [Frame(Left, c, id, key, r)]
      else PutPath(r, k) + [Frame(Right, c, id, key, l)]
  }

  /** `Put` hangs exactly one new red node, with sentinel children, in place
      of a sentinel link; the search path turns left exactly where `k` is
      smaller than the node's key. */
  lemma {:induction false} PutPlug(t: Tree, k: int, n: nat)
    ensures Plug(PutPath(t, k), Leaf) == t
    ensures Plug(PutPath(t, k), Node(Red, Leaf, n, k, Leaf)) == Put(t, k, n)
    ensures forall i :: 0 <= i < |PutPath(t, k)| ==>
      (PutPath(t, k)[i].side == Left <==> k < PutPath(t, k)[i].key)
  {
    match t
    case Leaf =>
    case Node(c, l, id, key, r) =>
      var f := if k < key then Frame(Left, c, id, key, r) else Frame(Right, c, id, key, l);
      var s := if k < key then l else r;
      PutPlug(s, k, n);
      PlugAppend(PutPath(s, k), [f], Leaf);
      PlugAppend(PutPath(s, k), [f], Node(Red, Leaf, n, k, Leaf));
      var p := PutPath(s, k);
      assert PutPath(t, k) == p + [f];
      forall i | 0 <= i < |p + [f]|
        ensures (p + [f])[i].side == Left <==> k < (p + [f])[i].key
      {
        if i < |p| { assert (p + [f])[i] == p[i]; }
      }
  }

  /** `Put` adds exactly the key `k`; `PutEntries` adds that it comes as one
      new red node with handle `n` and that every existing node keeps its key
      and colour. */
  lemma PutAdds(t: Tree, k: int, n: nat)
    ensures multiset(Inorder(Put(t, k, n))) == multiset(Inorder(t)) + multiset{k}
  {
    var ctx := PutPath(t, k);
    PutPlug(t, k, n);
    PlugInorder(ctx, Leaf);
    PlugInorder(ctx, Node(Red, Leaf, n, k, Leaf));
    var b, a := Before(ctx), After(ctx);
    assert Inorder(t) == b + a;
    assert Inorder(Put(t, k, n)) == b + [k] + a;
    MultisetInsert(b, k, a);
  }

  /** Putting a key between two parts of a sequence adds it to the
      sequence's multiset. */
  lemma MultisetInsert(a: seq<int>, k: int, b: seq<int>)
    ensures multiset(a + [k] + b) == multiset(a + b) + multiset{k}
  {
  }

  lemma {:induction false} PutEntries(t: Tree, k: int, n: nat)
    ensures Entries(Put(t, k, n)) == Entries(t) + {(n, k, Red)}
  {
    match t
    case Leaf =>
    case Node(c, l, id, key, r) =>
      if k < key {
        PutEntries(l, k, n);
        assert Entries(Put(t, k, n)) == Entries(Put(l, k, n)) + {(id, key, c)} + Entries(r);
      } else {
        PutEntries(r, k, n);
        assert Entries(Put(t, k, n)) == Entries(l) + {(id, key, c)} + Entries(Put(r, k, n));
      }
  }

  /** `Put` adds exactly the handle `n`, and keeps the links a tree when `n`
      is a fresh handle. */
  lemma {:induction false} PutIds(t: Tree, k: int, n: nat)
    ensures Ids(Put(t, k, n)) == Ids(t) + {n}
    ensures Distinct(t) && n !in Ids(t) ==> Distinct(Put(t, k, n))
  {
    match t
    case Leaf =>
    case Node(c, l, id, key, r) =>
      if k < key {
        PutIds(l, k, n);
      } else {
        PutIds(r, k, n);
      }
  }

  /** `Put` keeps an ordered tree ordered. */
  lemma {:induction false} PutOrdered(t: Tree, k: int, n: nat)
    requires Ordered(t)
    ensures Ordered(Put(t, k, n))
  {
    match t
    case Leaf =>
    case Node(c, l, id, key, r) =>
      OrderedNode(c, l, id, key, r);
      if k < key {
        PutOrdered(l, k, n);
        PutAdds(l, k, n);
        var l' := Put(l, k, n);
        forall x | x in Inorder(l') ensures x <= key {
          assert x in multiset(Inorder(l'));
          if x != k {
            assert x in multiset(Inorder(l));
            assert x in Inorder(l);
          }
        }
        OrderedNode(c, l', id, key, r);
      } else {
        PutOrdered(r, k, n);
        PutAdds(r, k, n);
        var r' := Put(r, k, n);
        forall x | x in Inorder(r') ensures key <= x {
          assert x in multiset(Inorder(r'));
          if x != k {
            assert x in multiset(Inorder(r));
            assert x in Inorder(r);
          }
        }
        OrderedNode(c, l, id, key, r');
      }
  }
}
