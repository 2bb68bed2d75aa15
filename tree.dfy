/** The abstract shape of a red-black tree: the value the pointer structure in
    `rb_tree.py` stands for. Every real node carries the handle (`id`) of the
    node object it models; handle 0 is reserved for the shared sentinel, which
    is never a `Node` here but the `Leaf` in every empty position. */
module Trees {

  datatype Color = Red | Black

  datatype Side = Left | Right

  /** The other side. */
  function Opp(s: Side): Side
  {
    if s == Left then Right else Left
  }

  datatype Tree = Leaf | Node(color: Color, left: Tree, id: nat, key: int, right: Tree)

  /** The handle a parent stores for this subtree: the sentinel (0) for a leaf. */
  function Id(t: Tree): nat
  {
    if t.Leaf? then 0 else t.id
  }

  /** The colour read through a link; the sentinel is black. */
  function ColorOf(t: Tree): Color
  {
    if t.Leaf? then Black else t.color
  }

  /** The subtree hanging on the given side of a node (the sentinel's links
      lead back to the sentinel). */
  function Child(t: Tree, s: Side): Tree
  {
    if t.Leaf? then Leaf else if s == Left then t.left else t.right
  }

  function Ids(t: Tree): set<nat>
  {
    match t
    case Leaf => {}
    case Node(_, l, id, _, r) => Ids(l) + {id} + Ids(r)
  }

  /** No node object occurs twice: the links form a tree, not a DAG. */
  predicate Distinct(t: Tree)
  {
    match t
    case Leaf => true
    case Node(_, l, id, _, r) =>
      Distinct(l) && Distinct(r) && id !in Ids(l) && id !in Ids(r) && Ids(l) !! Ids(r)
  }

  /** Keys in in-order (left subtree, node, right subtree). */
  function Inorder(t: Tree): seq<int>
  {
    match t
    case Leaf => []
    case Node(_, l, _, k, r) => Inorder(l) + [k] + Inorder(r)
  }

  /** The three orders `__traverse` yields nodes in (as handles). */
  datatype Order = PreOrder | InOrder | PostOrder

  function Traverse(t: Tree, order: Order): seq<nat>
  {
    match t
    case Leaf => []
    case Node(_, l, id, _, r) => Join(Traverse(l, order), id, Traverse(r, order), order)
  }

  /** The keys `__traverse` reports, in the given order. */
  function TraverseKeys(t: Tree, order: Order): seq<int>
  {
    match t
    case Leaf => []
    case Node(_, l, _, k, r) =>
      (if order == PreOrder then [k] else [])
      + TraverseKeys(l, order)
      + (if order == InOrder then [k] else [])
      + TraverseKeys(r, order)
      + (if order == PostOrder then [k] else [])
  }

  /** The colours `__traverse` reports, in the given order. */
  function TraverseColors(t: Tree, order: Order): seq<Color>
  {
    match t
    case Leaf => []
    case Node(c, l, _, _, r) =>
      (if order == PreOrder then [c] else [])
      + TraverseColors(l, order)
      + (if order == InOrder then [c] else [])
      + TraverseColors(r, order)
      + (if order == PostOrder then [c] else [])
  }

  /** Everything a node holds apart from its links. */
  function Entries(t: Tree): set<(nat, int, Color)>
  {
    match t
    case Leaf => {}
    case Node(c, l, id, k, r) => Entries(l) + {(id, k, c)} + Entries(r)
  }

  predicate Sorted(s: seq<int>)
  {
    forall i, j :: 0 <= i < j < |s| ==> s[i] <= s[j]
  }

  /** Binary-search-tree order. Equal keys may sit on either side of a node:
      insertion sends them right, but a later rotation can lift a right child
      with an equal key above its parent. */
  predicate Ordered(t: Tree)
  {
    Sorted(Inorder(t))
  }

  predicate NoDup(s: seq<nat>)
  {
    forall i, j :: 0 <= i < j < |s| ==> s[i] != s[j]
  }

  lemma {:induction false} NoDupConcat(a: seq<nat>, b: seq<nat>)
    requires NoDup(a) && NoDup(b)
    requires forall x :: x in a ==> x !in b
    ensures NoDup(a + b)
  {
    forall i, j | 0 <= i < j < |a + b|
      ensures (a + b)[i] != (a + b)[j]
    {
      if j < |a| {
        assert (a + b)[i] == a[i] && (a + b)[j] == a[j];
      } else if i >= |a| {
        assert (a + b)[i] == b[i - |a|] && (a + b)[j] == b[j - |a|];
      } else {
        assert (a + b)[i] == a[i] && (a + b)[j] == b[j - |a|];
        assert a[i] in a;
      }
    }
  }

  /** Every traversal order yields every real node exactly once and nothing
      else (in particular never the sentinel, which is not a node of `t`). */
  lemma {:induction false} TraverseVisitsEachNodeOnce(t: Tree, order: Order)
    requires Distinct(t)
    ensures NoDup(Traverse(t, order))
    ensures forall x :: x in Traverse(t, order) <==> x in Ids(t)
  {
    match t
    case Leaf =>
    case Node(_, l, id, _, r) =>
      TraverseVisitsEachNodeOnce(l, order);
      TraverseVisitsEachNodeOnce(r, order);
      NoDupJoin(Traverse(l, order), id, Traverse(r, order), order);
  }

  /** Dropping one element keeps a sequence sorted. */
  lemma SortedRemove(a: seq<int>, k: int, b: seq<int>)
    requires Sorted(a + [k] + b)
    ensures Sorted(a + b)
  {
    var s, s' := a + [k] + b, a + b;
    forall i, j | 0 <= i < j < |s'| ensures s'[i] <= s'[j] {
      var i' := if i < |a| then i else i + 1;
      var j' := if j < |a| then j else j + 1;
      assert s'[i] == s[i'] && s'[j] == s[j'];
    }
  }

  /** Dropping one handle from a sequence without repeats loses exactly that
      handle. */
  lemma NoDupRemove(a: seq<nat>, x: nat, b: seq<nat>)
    requires NoDup(a + [x] + b)
    ensures NoDup(a + b)
    ensures forall y :: y in a + b <==> y in a + [x] + b && y != x
  {
    var s, s' := a + [x] + b, a + b;
    forall i, j | 0 <= i < j < |s'| ensures s'[i] != s'[j] {
      var i' := if i < |a| then i else i + 1;
      var j' := if j < |a| then j else j + 1;
      assert s'[i] == s[i'] && s'[j] == s[j'];
    }
    forall y | y in s' ensures y != x {
      var i :| 0 <= i < |s'| && s'[i] == y;
      var i' := if i < |a| then i else i + 1;
      assert s[i'] == y && s[|a|] == x;
    }
  }

  /** Every order visits exactly the handles of the tree. */
  lemma {:induction false} TraverseIds(t: Tree, order: Order)
    ensures forall x :: x in Traverse(t, order) <==> x in Ids(t)
  {
    match t
    case Leaf =>
    case Node(_, l, id, _, r) =>
      TraverseIds(l, order);
      TraverseIds(r, order);
  }

  /** A sequence without repetition around a middle handle. */
  lemma NoDupSplit(sl: seq<nat>, id: nat, sr: seq<nat>)
    requires NoDup(sl + [id] + sr)
    ensures NoDup(sl) && NoDup(sr) && id !in sl && id !in sr
    ensures forall x :: x in sl ==> x !in sr
  {
    var s := sl + [id] + sr;
    forall i, j | 0 <= i < j < |sl| ensures sl[i] != sl[j] {
      assert s[i] == sl[i] && s[j] == sl[j];
    }
    forall i, j | 0 <= i < j < |sr| ensures sr[i] != sr[j] {
      assert s[|sl| + 1 + i] == sr[i] && s[|sl| + 1 + j] == sr[j];
    }
    forall x | x in sl ensures x != id && x !in sr {
      var i :| 0 <= i < |sl| && sl[i] == x;
      assert s[i] == x && s[|sl|] == id;
      forall j | 0 <= j < |sr| ensures sr[j] != x {
        assert s[|sl| + 1 + j] == sr[j];
      }
    }
    forall x | x in sr ensures x != id {
      var j :| 0 <= j < |sr| && sr[j] == x;
      assert s[|sl| + 1 + j] == x && s[|sl|] == id;
    }
  }

  /** The handles of a tree are distinct exactly when the in-order walk
      meets no handle twice. */
  lemma {:induction false} DistinctIffNoDup(t: Tree)
    ensures Distinct(t) <==> NoDup(Traverse(t, InOrder))
  {
    match t
    case Leaf =>
    case Node(_, l, id, _, r) =>
      var sl, sr := Traverse(l, InOrder), Traverse(r, InOrder);
      DistinctIffNoDup(l);
      DistinctIffNoDup(r);
      TraverseIds(l, InOrder);
      TraverseIds(r, InOrder);
      assert Traverse(t, InOrder) == sl + [id] + sr;
      if Distinct(t) {
        NoDupJoin(sl, id, sr, InOrder);
      }
      if NoDup(sl + [id] + sr) {
        NoDupSplit(sl, id, sr);
      }
  }


  /** Two trees whose in-order walks meet the same handles have the same
      handles, and one forms a tree exactly when the other does. */
  lemma SameNodes(t: Tree, t': Tree)
    requires Traverse(t, InOrder) == Traverse(t', InOrder)
    ensures Ids(t) == Ids(t') && Distinct(t) == Distinct(t')
  {
    TraverseIds(t, InOrder);
    TraverseIds(t', InOrder);
    DistinctIffNoDup(t);
    DistinctIffNoDup(t');
  }

  /** The in-order walk of a node. */
  lemma InOrderNode(c: Color, l: Tree, id: nat, k: int, r: Tree)
    ensures Traverse(Node(c, l, id, k, r), InOrder) == Traverse(l, InOrder) + [id] + Traverse(r, InOrder)
  {
  }

  /** The two shapes a rotation switches between meet the same keys and
      handles in the same order, whatever the colours. */
  lemma Regroup(c1: Color, c2: Color, c3: Color, c4: Color, a: Tree, x: nat, kx: int,
                b: Tree, y: nat, ky: int, c: Tree)
    ensures Inorder(Node(c1, Node(c2, a, x, kx, b), y, ky, c)) == Inorder(Node(c3, a, x, kx, Node(c4, b, y, ky, c)))
    ensures Traverse(Node(c1, Node(c2, a, x, kx, b), y, ky, c), InOrder)
         == Traverse(Node(c3, a, x, kx, Node(c4, b, y, ky, c)), InOrder)
  {
  }

  /** The three ways `__traverse` places a node between its two subtrees. */
  function Join(sl: seq<nat>, id: nat, sr: seq<nat>, order: Order): seq<nat>
  {
    (if order == PreOrder then [id] else []) + sl
    + (if order == InOrder then [id] else []) + sr
    + (if order == PostOrder then [id] else [])
  }

  lemma NoDupJoin(sl: seq<nat>, id: nat, sr: seq<nat>, order: Order)
    requires NoDup(sl) && NoDup(sr) && id !in sl && id !in sr
    requires forall x :: x in sl ==> x !in sr
    ensures NoDup(Join(sl, id, sr, order))
    ensures forall x :: x in Join(sl, id, sr, order) <==> x in sl || x == id || x in sr
  {
    NoDupConcat(sl, sr);
    if order == PreOrder {
      NoDupConcat([id], sl + sr);
      assert Join(sl, id, sr, order) == [id] + (sl + sr);
    } else if order == InOrder {
      NoDupConcat(sl, [id]);
      NoDupConcat(sl + [id], sr);
      assert Join(sl, id, sr, order) == sl + [id] + sr;
    } else {
      NoDupConcat(sl + sr, [id]);
      assert Join(sl, id, sr, order) == sl + sr + [id];
    }
  }

  /** The in-order traversal reports the keys in `Inorder`, hence sorted ones
      in an ordered tree. */
  lemma {:induction false} InorderTraversal(t: Tree)
    ensures TraverseKeys(t, InOrder) == Inorder(t)
    ensures |Traverse(t, InOrder)| == |Inorder(t)|
  {
    match t
    case Leaf =>
    case Node(_, l, _, _, r) =>
      InorderTraversal(l);
      InorderTraversal(r);
  }

  /** A sorted sequence around a middle key: both sides sorted, the left
      side at most the key, the right side at least the key. */
  lemma SortedSplit(sl: seq<int>, k: int, sr: seq<int>)
    requires Sorted(sl + [k] + sr)
    ensures Sorted(sl) && Sorted(sr)
    ensures (forall x :: x in sl ==> x <= k) && (forall x :: x in sr ==> k <= x)
  {
    var s := sl + [k] + sr;
    assert forall i :: 0 <= i < |sl| ==> s[i] == sl[i];
    assert forall i :: 0 <= i < |sr| ==> s[|sl| + 1 + i] == sr[i];
    assert s[|sl|] == k;
    forall x | x in sl ensures x <= k {
      var i :| 0 <= i < |sl| && sl[i] == x;
      assert s[i] == x;
    }
    forall x | x in sr ensures k <= x {
      var i :| 0 <= i < |sr| && sr[i] == x;
      assert s[|sl| + 1 + i] == x;
    }
    forall i, j | 0 <= i < j < |sr| ensures sr[i] <= sr[j] {
      assert s[|sl| + 1 + i] == sr[i] && s[|sl| + 1 + j] == sr[j];
    }
  }

  /** The converse of `SortedSplit`. */
  lemma SortedJoin(sl: seq<int>, k: int, sr: seq<int>)
    requires Sorted(sl) && Sorted(sr)
    requires (forall x :: x in sl ==> x <= k) && (forall x :: x in sr ==> k <= x)
    ensures Sorted(sl + [k] + sr)
  {
    var s := sl + [k] + sr;
    forall i, j | 0 <= i < j < |s| ensures s[i] <= s[j] {
      if j < |sl| {
      } else if j == |sl| {
        assert s[i] == sl[i];
        assert sl[i] in sl;
      } else if i < |sl| {
        assert s[i] == sl[i] && s[j] == sr[j - |sl| - 1];
        assert sl[i] in sl && sr[j - |sl| - 1] in sr;
      } else if i == |sl| {
        assert s[j] == sr[j - |sl| - 1];
        assert sr[j - |sl| - 1] in sr;
      } else {
        assert s[i] == sr[i - |sl| - 1] && s[j] == sr[j - |sl| - 1];
      }
    }
  }

  /** Binary-search-tree order at a node: both subtrees ordered, the keys on
      the left at most the node's key, those on the right at least it. */
  lemma OrderedNode(c: Color, l: Tree, id: nat, k: int, r: Tree)
    ensures Ordered(Node(c, l, id, k, r)) <==>
      Ordered(l) && Ordered(r) &&
      (forall x :: x in Inorder(l) ==> x <= k) &&
      (forall x :: x in Inorder(r) ==> k <= x)
  {
    var t := Node(c, l, id, k, r);
    assert Inorder(t) == Inorder(l) + [k] + Inorder(r);
    SortedIff(Inorder(l), k, Inorder(r));
    assert Ordered(t) == Sorted(Inorder(l) + [k] + Inorder(r));
    assert Ordered(l) == Sorted(Inorder(l));
    assert Ordered(r) == Sorted(Inorder(r));
  }

  /** `SortedSplit` and `SortedJoin` together. */
  lemma SortedIff(sl: seq<int>, k: int, sr: seq<int>)
    ensures Sorted(sl + [k] + sr) <==>
      Sorted(sl) && Sorted(sr) && (forall x :: x in sl ==> x <= k) && (forall x :: x in sr ==> k <= x)
  {
    if Sorted(sl + [k] + sr) {
      SortedSplit(sl, k, sr);
    }
    if Sorted(sl) && Sorted(sr) && (forall x :: x in sl ==> x <= k) && (forall x :: x in sr ==> k <= x) {
      SortedJoin(sl, k, sr);
    }
  }

}
