/** The in-order successor of a node: the handle that follows it when the
    tree's nodes are listed in in-order. Handle 0 (the sentinel) stands for
    "no successor"; the nodes of a held tree all have non-zero handles. */
module Successor {
  import opened Trees
  import opened Zipper
  import opened Search
  import opened Coloring

  /** The element after the first occurrence of `z` in `s`, or 0 when `z` is
      last or absent. */
  function Next(s: seq<nat>, z: nat): nat
    decreases |s|
  {
    if |s| == 0 then 0
    else if s[0] == z then (if |s| > 1 then s[1] else 0)
    else Next(s[1..], z)
  }

  /** A non-zero answer of `Next` stands right after an occurrence of `z`;
      an absent `z` has no successor. */
  lemma {:induction false} NextFollows(s: seq<nat>, z: nat)
    ensures Next(s, z) != 0 ==> exists i :: 0 <= i < |s| - 1 && s[i] == z && s[i + 1] == Next(s, z)
    ensures z !in s ==> Next(s, z) == 0
    decreases |s|
  {
    if |s| > 0 && s[0] != z {
      NextFollows(s[1..], z);
      if Next(s, z) != 0 {
        var i :| 0 <= i < |s[1..]| - 1 && s[1..][i] == z && s[1..][i + 1] == Next(s, z);
        assert s[i + 1] == z && s[i + 2] == Next(s, z);
      }
    }
  }

  /** The handle a walk up the ancestors stops at: the nearest ancestor the
      cursor's subtree hangs to the left of, or the sentinel when the cursor
      is on the rightmost spine. */
  function FirstAfter(ctx: seq<Frame>): (r: nat)
    ensures ctx != [] && ctx[0].side == Left ==> r == ctx[0].id
    ensures r != 0 ==> r in CtxIds(ctx)
    decreases |ctx|
  {
    if ctx == [] then 0
    else if ctx[0].side == Left then ctx[0].id
    else FirstAfter(ctx[1..])
  }

  /** Once `z` has been passed, the next element is the head of the rest. */
  lemma {:induction false} NextAfter(a: seq<nat>, z: nat, b: seq<nat>)
    requires z !in a
    ensures Next(a + [z] + b, z) == if b == [] then 0 else b[0]
    decreases |a|
  {
    if a != [] {
      assert (a + [z] + b)[1..] == a[1..] + [z] + b;
      NextAfter(a[1..], z, b);
    } else {
      assert a + [z] + b == [z] + b;
    }
  }

  /** The first handle after the cursor subtree in in-order is the one the
      walk up the ancestors stops at. */
  lemma {:induction false} FirstAfterIds(ctx: seq<Frame>)
    ensures FirstAfter(ctx) == if AfterIds(ctx) == [] then 0 else AfterIds(ctx)[0]
    decreases |ctx|
  {
    if ctx != [] && ctx[0].side == Right {
      FirstAfterIds(ctx[1..]);
    }
  }

  /** The leftmost node comes first in in-order. */
  lemma FirstIsMin(t: Tree)
    requires t.Node?
    ensures Traverse(t, InOrder) != [] && Traverse(t, InOrder)[0] == MinId(t)
  {
    var m := MinNode(t);
    MinSplitIds(t);
    MinNodeFacts(t);
    InOrderNode(m.color, Leaf, m.id, m.key, m.right);
    assert m == Node(m.color, Leaf, m.id, m.key, m.right);
  }

  /** The in-order handles of a plugged tree around its cursor node. */
  lemma AroundCursor(ctx: seq<Frame>, zt: Tree)
    requires zt.Node?
    ensures Traverse(Plug(ctx, zt), InOrder) ==
      (BeforeIds(ctx) + Traverse(zt.left, InOrder)) + [zt.id] + (Traverse(zt.right, InOrder) + AfterIds(ctx))
  {
    PlugTraverse(ctx, zt);
    InOrderNode(zt.color, zt.left, zt.id, zt.key, zt.right);
  }

  /** In in-order, a node is followed by its right subtree and then by the
      handles after its own subtree. */
  lemma NextSplit(ctx: seq<Frame>, zt: Tree)
    requires Distinct(Plug(ctx, zt)) && zt.Node?
    ensures var b := Traverse(zt.right, InOrder) + AfterIds(ctx);
      Next(Traverse(Plug(ctx, zt), InOrder), zt.id) == if b == [] then 0 else b[0]
  {
    var a := BeforeIds(ctx) + Traverse(zt.left, InOrder);
    var b := Traverse(zt.right, InOrder) + AfterIds(ctx);
    AroundCursor(ctx, zt);
    DistinctIffNoDup(Plug(ctx, zt));
    NoDupSplit(a, zt.id, b);
    NextAfter(a, zt.id, b);
  }

  /** The in-order successor of a node `zt`, placed in its tree by its
      ancestors `ctx`: the leftmost node of its right subtree when it has one,
      and otherwise the ancestor the walk up stops at. */
  lemma SuccessorIsNext(ctx: seq<Frame>, zt: Tree)
    requires Distinct(Plug(ctx, zt)) && zt.Node?
    ensures Next(Traverse(Plug(ctx, zt), InOrder), zt.id) ==
      if zt.right.Node? then MinId(zt.right) else FirstAfter(ctx)
  {
    var rs := Traverse(zt.right, InOrder);
    NextSplit(ctx, zt);
    if zt.right.Node? {
      FirstIsMin(zt.right);
      assert (rs + AfterIds(ctx))[0] == rs[0];
    } else {
      assert rs + AfterIds(ctx) == AfterIds(ctx);
      FirstAfterIds(ctx);
    }
  }

  /** The tree with keys 1 and 5, the node holding 1 (handle 2) being the
      left child of the root (handle 1): a red-black search tree. */
  function Sample(): (t: Tree)
    ensures t.Node? && t.left.Node? && t.left.right == Leaf
  {
    Node(Black, Node(Red, Leaf, 2, 1, Leaf), 1, 5, Leaf)
  }

  /** `find_successor` as written answers with the leftmost node of the
      right subtree. In `Sample()` the node holding 1 has no right subtree,
      so it gets the sentinel although the root follows it in in-order; the
      root, the last node, gets the sentinel rather than `None`. */
  lemma AsWrittenSuccessorMisses()
    ensures Ordered(Sample()) && RedBlack(Sample()) && Distinct(Sample())
    ensures Find(Sample(), 1).id == 2 && MinId(Find(Sample(), 1).right) == 0
    ensures Next(Traverse(Sample(), InOrder), 2) == 1
    ensures Find(Sample(), 5).id == 1 && MinId(Find(Sample(), 5).right) == 0
  {
    var t := Sample();
    assert Traverse(t, InOrder) == [2, 1];
    assert Inorder(t) == [1, 5];
    assert BH(t.left) == 0 && BH(t.right) == 0;
  }
}
