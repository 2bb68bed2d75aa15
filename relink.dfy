/** How the field writes of painting and rotating move the arena from holding
    one abstract tree to holding the painted or rotated one. */
module Relink {
  import opened Trees
  import opened Zipper
  import opened Search
  import opened Edits
  import opened Arena

  /** The root of a plugged tree is the outermost ancestor. */
  lemma {:induction false} PlugId(ctx: seq<Frame>, t: Tree)
    ensures Id(Plug(ctx, t)) == if ctx == [] then Id(t) else ctx[|ctx| - 1].id
    ensures t.Node? ==> Plug(ctx, t).Node?
    decreases |ctx|
  {
    if ctx != [] {
      PlugId(ctx[1..], Wrap(ctx[0], t));
    }
  }

  /** The slot of the cursor node. */
  lemma RepCursor(nodes: seq<Slot>, ctx: seq<Frame>, t: Tree, top: nat)
    requires Rep(nodes, Plug(ctx, t), top) && t.Node?
    ensures 0 < t.id < |nodes|
    ensures nodes[t.id] == Slot(t.key, t.color, Id(t.left), Id(t.right), ParentOf(ctx, top))
    ensures (Id(t.left) == 0 <==> t.left == Leaf) && (Id(t.right) == 0 <==> t.right == Leaf)
  {
    RepPlug(nodes, ctx, t, top);
  }

  /** The slot of the node a search finds holds the key searched for. */
  lemma RepFind(nodes: seq<Slot>, t: Tree, k: int)
    requires Rep(nodes, t, 0)
    ensures Find(t, k).Node? ==> 0 < Find(t, k).id < |nodes| && nodes[Find(t, k).id].key == Find(t, k).key
  {
    FindPlug(t, k);
    if Find(t, k).Node? {
      RepCursor(nodes, FindPath(t, k), Find(t, k), 0);
    }
  }

  /** Writing the colour of a node of a held tree makes the arena hold the
      painted tree. */
  lemma {:induction false} RepSetColor(nodes: seq<Slot>, t: Tree, p: nat, x: nat, c: Color)
    requires Rep(nodes, t, p) && Distinct(t) && x in Ids(t)
    ensures x < |nodes|
    ensures Rep(nodes[x := nodes[x].(color := c)], SetColor(t, x, c), p)
    ensures Id(SetColor(t, x, c)) == Id(t)
  {
    RepIds(nodes, t, p);
    var nodes' := nodes[x := nodes[x].(color := c)];
    match t
    case Node(c0, l, id, k, r) =>
      if id == x {
        RepFrame(nodes, nodes', l, id);
        RepFrame(nodes, nodes', r, id);
      } else if x in Ids(l) {
        RepSetColor(nodes, l, id, x, c);
        SetColorAbsent(r, x, c);
        RepFrame(nodes, nodes', r, id);
      } else {
        RepSetColor(nodes, r, id, x, c);
        SetColorAbsent(l, x, c);
        RepFrame(nodes, nodes', l, id);
      }
  }

  /** What a rotation at the cursor node `t` reads: its parent `p`, its child
      `y` on the side opposite `d`, and `y`'s inner child `b`, all distinct,
      and which link of `p` holds `t`. */
  lemma RotateSlots(nodes: seq<Slot>, d: Side, ctx: seq<Frame>, t: Tree)
    requires Rep(nodes, Plug(ctx, t), 0) && Distinct(Plug(ctx, t))
    requires t.Node? && Child(t, Opp(d)).Node?
    ensures var x, y, b, p := t.id, Child(t, Opp(d)).id, Id(Child(Child(t, Opp(d)), d)), ParentOf(ctx, 0);
      0 < x < |nodes| && 0 < y < |nodes| && b < |nodes| && p < |nodes| &&
      x != y && b != x && b != y && p != x && p != y && (b != 0 ==> b != p) &&
      (b != 0 <==> Child(Child(t, Opp(d)), d).Node?) &&
      Link(nodes[x], Opp(d)) == y && Link(nodes[y], d) == b && nodes[x].parent == p &&
      (ctx == [] <==> p == 0) &&
      (ctx != [] ==> (nodes[p].left == x <==> ctx[0].side == Left))
  {
    var x, yt := t.id, Child(t, Opp(d));
    var b := Child(yt, d);
    RepPlug(nodes, ctx, t, 0);
    PlugDistinct(ctx, t);
    RepIds(nodes, t, ParentOf(ctx, 0));
    RepCtxIds(nodes, ctx, x, 0);
    assert Rep(nodes, yt, x) && Rep(nodes, b, yt.id);
    assert Ids(yt) <= Ids(t) && Ids(b) <= Ids(yt);
    if ctx != [] {
      ParentFresh(ctx, t);
      ParentLink(nodes, ctx, t, 0);
    }
  }

  /** The five parts a rotation at `t` regroups, and how their handles
      are laid out. */
  lemma RotateShape(d: Side, t: Tree)
    requires Distinct(t) && t.Node? && Child(t, Opp(d)).Node?
    ensures var x, a, yt := t.id, Child(t, d), Child(t, Opp(d));
      var y, b, g := yt.id, Child(yt, d), Child(yt, Opp(d));
      t == Wrap(Frame(d, t.color, x, t.key, yt), a) &&
      yt == Wrap(Frame(d, yt.color, y, yt.key, g), b) &&
      Rotate(d, t) == Wrap(Frame(d, yt.color, y, yt.key, g), Wrap(Frame(d, t.color, x, t.key, b), a)) &&
      Ids(t) == Ids(a) + {x} + Ids(b) + {y} + Ids(g) && x != y &&
      x !in Ids(a) && x !in Ids(b) && x !in Ids(g) && y !in Ids(a) && y !in Ids(b) && y !in Ids(g) &&
      Ids(a) !! Ids(b) && Ids(a) !! Ids(g) && Ids(b) !! Ids(g) &&
      Distinct(a) && Distinct(b) && Distinct(g)
  {
    var x, a, yt := t.id, Child(t, d), Child(t, Opp(d));
    var y, b, g := yt.id, Child(yt, d), Child(yt, Opp(d));
    assert t == Wrap(Frame(d, t.color, x, t.key, yt), a);
    assert yt == Wrap(Frame(d, yt.color, y, yt.key, g), b);
    assert Ids(t) == Ids(a) + {x} + Ids(yt) && Ids(yt) == Ids(b) + {y} + Ids(g);
    RotateWrap(d, t.color, a, x, t.key, yt.color, b, y, yt.key, g);
  }

  /** The lowered node `x` of a rotation, with `a` on side `d` and `b` on the
      other, hanging below `y`. */
  lemma RotateLowerRep(n0: seq<Slot>, n1: seq<Slot>, d: Side, t: Tree, p: nat)
    requires Rep(n0, t, p) && Distinct(t)
    requires t.Node? && Child(t, Opp(d)).Node?
    requires var x, y, b := t.id, Child(t, Opp(d)).id, Child(Child(t, Opp(d)), d);
      |n1| == |n0| && x < |n0| && Id(b) < |n0| &&
      n1[x] == SetLink(n0[x], Opp(d), Id(b)).(parent := y) &&
      (b.Node? ==> n1[b.id] == n0[b.id].(parent := x)) &&
      forall i :: i in Ids(t) && i < |n0| && i != x && i != y && i != Id(b) ==> n1[i] == n0[i]
    ensures Rep(n1, Wrap(Frame(d, t.color, t.id, t.key, Child(Child(t, Opp(d)), d)), Child(t, d)), Child(t, Opp(d)).id)
  {
    var x, a, yt := t.id, Child(t, d), Child(t, Opp(d));
    var y, b := yt.id, Child(yt, d);
    RotateShape(d, t);
    RepIds(n0, t, p);
    assert Rep(n0, a, x) && Rep(n0, b, y);
    RepFrame(n0, n1, a, x);
    if b.Node? {
      RepReparent(n0, n1, b, y, x);
    }
  }

  /** The writes of a rotation inside the rotated subtree: `x` adopts `y`'s
      inner subtree `b` and hangs below `y`, which takes `x`'s parent. */
  lemma RotateSubtreeRep(n0: seq<Slot>, n1: seq<Slot>, d: Side, t: Tree, p: nat)
    requires Rep(n0, t, p) && Distinct(t)
    requires t.Node? && Child(t, Opp(d)).Node?
    requires var x, y, b := t.id, Child(t, Opp(d)).id, Child(Child(t, Opp(d)), d);
      |n1| == |n0| && x < |n0| && y < |n0| && Id(b) < |n0| &&
      n1[x] == SetLink(n0[x], Opp(d), Id(b)).(parent := y) &&
      n1[y] == SetLink(n0[y], d, x).(parent := p) &&
      (b.Node? ==> n1[b.id] == n0[b.id].(parent := x)) &&
      forall i :: i in Ids(t) && i < |n0| && i != x && i != y && i != Id(b) ==> n1[i] == n0[i]
    ensures Rep(n1, Rotate(d, t), p)
  {
    var yt := Child(t, Opp(d));
    var y, g := yt.id, Child(yt, Opp(d));
    RotateShape(d, t);
    RepIds(n0, t, p);
    assert Rep(n0, yt, t.id) && Rep(n0, g, y);
    RotateLowerRep(n0, n1, d, t, p);
    RepFrame(n0, n1, g, y);
  }

  /** The slot writes of `left_rotate` (`d == Left`) and `right_rotate`
      (`d == Right`) at `x`, in the order the pointer code makes them: `y` is
      `x`'s child on the side opposite `d`, `b` the inner child of `y`, and
      `p` the parent of `x`. */
  function RotateWrites(n: seq<Slot>, d: Side, x: nat, y: nat, b: nat, p: nat): (r: seq<Slot>)
    requires x < |n| && y < |n| && b < |n| && p < |n|
    ensures |r| == |n|
  {
    var n1 := n[x := SetLink(n[x], Opp(d), b)];
    var n2 := if b != 0 then n1[b := n1[b].(parent := x)] else n1;
    var n3 := n2[y := n2[y].(parent := p)];
    var n4 := if p == 0 then n3 else n3[p := SetLink(n3[p], if n3[p].left == x then Left else Right, y)];
    var n5 := n4[y := SetLink(n4[y], d, x)];
    n5[x := n5[x].(parent := y)]
  }

  /** After the writes of a rotation at the cursor node `t`, the arena holds
      the rotated tree. */
  lemma RotateWritesRep(n0: seq<Slot>, d: Side, ctx: seq<Frame>, t: Tree)
    requires Rep(n0, Plug(ctx, t), 0) && Distinct(Plug(ctx, t))
    requires t.Node? && Child(t, Opp(d)).Node?
    ensures var x, y, b, p := t.id, Child(t, Opp(d)).id, Id(Child(Child(t, Opp(d)), d)), ParentOf(ctx, 0);
      x < |n0| && y < |n0| && b < |n0| && p < |n0| &&
      Rep(RotateWrites(n0, d, x, y, b, p), Plug(ctx, Rotate(d, t)), 0)
  {
    var x, y, b, p := t.id, Child(t, Opp(d)).id, Id(Child(Child(t, Opp(d)), d)), ParentOf(ctx, 0);
    RotateSlots(n0, d, ctx, t);
    var n1 := RotateWrites(n0, d, x, y, b, p);
    assert n1[x] == SetLink(n0[x], Opp(d), b).(parent := y);
    assert n1[y] == SetLink(n0[y], d, x).(parent := p);
    assert p != 0 ==> n1[p] == SetLink(n0[p], ctx[0].side, y);
    assert b != 0 ==> n1[b] == n0[b].(parent := x);
    RotateRep(n0, n1, d, ctx, t);
  }

  /** A rotation at the cursor node `s`: the handles the pointer code reads
      are in range and distinct from the sentinel, and after its writes the
      arena holds the rotated tree, whose root is `y` when `s` was the root. */
  lemma RotateCursorRep(n0: seq<Slot>, d: Side, ctx: seq<Frame>, s: Tree)
    requires Rep(n0, Plug(ctx, s), 0) && Distinct(Plug(ctx, s)) && s.Node? && Child(s, Opp(d)).Node?
    ensures 0 < s.id < |n0| && 0 < Link(n0[s.id], Opp(d)) < |n0|
    ensures var x, y := s.id, Link(n0[s.id], Opp(d)); var b, p := Link(n0[y], d), n0[x].parent;
      b < |n0| && p < |n0| && x != y &&
      b != x && b != y && p != x && p != y && (b != 0 ==> b != p) &&
      Rep(RotateWrites(n0, d, x, y, b, p), Plug(ctx, Rotate(d, s)), 0) &&
      RotateWrites(n0, d, x, y, b, p)[0] == n0[0] &&
      Distinct(Plug(ctx, Rotate(d, s))) && Inorder(Plug(ctx, Rotate(d, s))) == Inorder(Plug(ctx, s)) &&
      Id(Plug(ctx, Rotate(d, s))) == (if p == 0 then y else Id(Plug(ctx, s)))
  {
    var t := Plug(ctx, s);
    RotateSlots(n0, d, ctx, s);
    RotateWritesRep(n0, d, ctx, s);
    RotateCursor(d, ctx, s);
    PlugId(ctx, s);
    PlugId(ctx, Rotate(d, s));
    if d == Left {
      RotateLeftAtKeeps(t, s.id);
    } else {
      RotateRightAtKeeps(t, s.id);
    }
  }

  /** The handles `s` name real slots holding the keys `ks`, position by
      position. */
  ghost predicate SlotKeys(nodes: seq<Slot>, s: seq<nat>, ks: seq<int>)
  {
    |s| == |ks| && forall i :: 0 <= i < |s| ==> 0 < s[i] < |nodes| && nodes[s[i]].key == ks[i]
  }

  lemma SlotKeysConcat(nodes: seq<Slot>, a: seq<nat>, ka: seq<int>, b: seq<nat>, kb: seq<int>)
    requires SlotKeys(nodes, a, ka) && SlotKeys(nodes, b, kb)
    ensures SlotKeys(nodes, a + b, ka + kb)
  {
    forall i | 0 <= i < |a + b| ensures 0 < (a + b)[i] < |nodes| && nodes[(a + b)[i]].key == (ka + kb)[i] {
      if i >= |a| {
        assert (a + b)[i] == b[i - |a|] && (ka + kb)[i] == kb[i - |a|];
      }
    }
  }

  /** Each node a traversal visits is a real slot holding the key the
      traversal reports for it. */
  lemma {:induction false} RepTraverseKeys(nodes: seq<Slot>, t: Tree, p: nat, order: Order)
    requires Rep(nodes, t, p)
    ensures SlotKeys(nodes, Traverse(t, order), TraverseKeys(t, order))
  {
    match t
    case Leaf =>
    case Node(_, l, id, k, r) =>
      RepTraverseKeys(nodes, l, id, order);
      RepTraverseKeys(nodes, r, id, order);
      var none: seq<nat>, noKey: seq<int> := [], [];
      var pre, preK := if order == PreOrder then [id] else none, if order == PreOrder then [k] else noKey;
      var mid, midK := if order == InOrder then [id] else none, if order == InOrder then [k] else noKey;
      var post, postK := if order == PostOrder then [id] else none, if order == PostOrder then [k] else noKey;
      var sl, kl := Traverse(l, order), TraverseKeys(l, order);
      var sr, kr := Traverse(r, order), TraverseKeys(r, order);
      SlotKeysConcat(nodes, pre, preK, sl, kl);
      SlotKeysConcat(nodes, pre + sl, preK + kl, mid, midK);
      SlotKeysConcat(nodes, pre + sl + mid, preK + kl + midK, sr, kr);
      SlotKeysConcat(nodes, pre + sl + mid + sr, preK + kl + midK + kr, post, postK);
  }

  /** The parent of the cursor node, as its `parent` field gives it, and the
      colour stored for it. */
  lemma RepParent(nodes: seq<Slot>, ctx: seq<Frame>, t: Tree)
    requires Rep(nodes, Plug(ctx, t), 0) && t.Node?
    ensures t.id < |nodes| && nodes[t.id].parent == ParentOf(ctx, 0) < |nodes|
    ensures ctx != [] ==> nodes[ctx[0].id].color == ctx[0].color
  {
    RepPlug(nodes, ctx, t, 0);
  }

  /** The colour stored for the root of a held subtree (the sentinel's for a
      leaf). */
  lemma RepColor(nodes: seq<Slot>, t: Tree, p: nat)
    requires Rep(nodes, t, p) && |nodes| > 0 && nodes[0].color == Black
    ensures Id(t) < |nodes| && nodes[Id(t)].color == ColorOf(t)
  {
  }

  /** `__put`'s writes at the cursor `t`, whose link on side `d` is the
      sentinel: a new slot holding `k`, red, with sentinel children and `t` as
      parent, is appended, and that link of `t` is redirected to it. */
  lemma PutRep(n0: seq<Slot>, ctx: seq<Frame>, t: Tree, d: Side, k: int)
    requires Rep(n0, Plug(ctx, t), 0) && Distinct(Plug(ctx, t)) && t.Node? && Child(t, d) == Leaf
    ensures var n, f := |n0|, Frame(d, t.color, t.id, t.key, Child(t, Opp(d)));
      var n1 := n0 + [Slot(k, Red, 0, 0, t.id)];
      t.id < |n0| && t == Wrap(f, Leaf) &&
      Rep(n1[t.id := SetLink(n1[t.id], d, n)], Plug(ctx, Wrap(f, Node(Red, Leaf, n, k, Leaf))), 0)
  {
    var n, f := |n0|, Frame(d, t.color, t.id, t.key, Child(t, Opp(d)));
    var n1 := n0 + [Slot(k, Red, 0, 0, t.id)];
    RepPlug(n0, ctx, t, 0);
    var n2 := n1[t.id := SetLink(n1[t.id], d, n)];
    var t' := Wrap(f, Node(Red, Leaf, n, k, Leaf));
    PlugDistinct(ctx, t);
    RepIds(n0, t, ParentOf(ctx, 0));
    RepCtxIds(n0, ctx, t.id, 0);
    var o := Child(t, Opp(d));
    assert Rep(n0, o, t.id) && Ids(o) <= Ids(t) && t.id !in Ids(o);
    RepFrame(n0, n2, o, t.id);
    RepCtxFrame(n0, n2, ctx, t.id, 0);
    assert Rep(n2, Node(Red, Leaf, n, k, Leaf), t.id);
    assert Rep(n2, t', ParentOf(ctx, 0));
    RepPlug(n2, ctx, t', 0);
  }

  /** `PutRep`, with what else the hung node keeps: distinct handles, the
      same root, and the sentinel slot. */
  lemma PutLinked(n0: seq<Slot>, ctx: seq<Frame>, t: Tree, d: Side, k: int)
    requires Rep(n0, Plug(ctx, t), 0) && Distinct(Plug(ctx, t)) && t.Node? && Child(t, d) == Leaf
    ensures var n, f := |n0|, Frame(d, t.color, t.id, t.key, Child(t, Opp(d)));
      var n1 := n0 + [Slot(k, Red, 0, 0, t.id)];
      var t' := Wrap(f, Node(Red, Leaf, n, k, Leaf));
      0 < t.id < |n0| && t == Wrap(f, Leaf) &&
      n1[t.id := SetLink(n1[t.id], d, n)][0] == n0[0] &&
      Rep(n1[t.id := SetLink(n1[t.id], d, n)], Plug(ctx, t'), 0) &&
      Distinct(Plug(ctx, t')) && Id(Plug(ctx, t')) == Id(Plug(ctx, t))
  {
    var n, f := |n0|, Frame(d, t.color, t.id, t.key, Child(t, Opp(d)));
    var t' := Wrap(f, Node(Red, Leaf, n, k, Leaf));
    PutRep(n0, ctx, t, d, k);
    RepCursor(n0, ctx, t, 0);
    PlugDistinct(ctx, t);
    RepIds(n0, Plug(ctx, t), 0);
    PlugIds(ctx, t);
    PlugDistinctFresh(ctx, t, t');
    PlugId(ctx, t);
    PlugId(ctx, t');
  }

  /** The writes of a rotation at the cursor node `t`, which lifts its child
      `y` on the side opposite `d`: `t` adopts `y`'s inner subtree `b` and
      hangs below `y`, `b`'s root and `y` get new parents, and the cursor's
      parent (or the root pointer) points to `y`. Every other slot is left
      alone. The arena then holds the rotated tree. */
  lemma RotateRep(n0: seq<Slot>, n1: seq<Slot>, d: Side, ctx: seq<Frame>, t: Tree)
    requires Rep(n0, Plug(ctx, t), 0) && Distinct(Plug(ctx, t))
    requires t.Node? && Child(t, Opp(d)).Node?
    requires var x, y, b, p := t.id, Child(t, Opp(d)).id, Child(Child(t, Opp(d)), d), ParentOf(ctx, 0);
      |n1| == |n0| && x < |n0| && y < |n0| && p < |n0| && Id(b) < |n0| &&
      n1[x] == SetLink(n0[x], Opp(d), Id(b)).(parent := y) &&
      n1[y] == SetLink(n0[y], d, x).(parent := p) &&
      (b.Node? ==> n1[b.id] == n0[b.id].(parent := x)) &&
      (ctx != [] ==> n1[p] == SetLink(n0[p], ctx[0].side, y)) &&
      forall i :: 0 < i < |n0| && i != x && i != y && i != Id(b) && i != p ==> n1[i] == n0[i]
    ensures Rep(n1, Plug(ctx, Rotate(d, t)), 0)
  {
    var x, p := t.id, ParentOf(ctx, 0);
    var y, b := Child(t, Opp(d)).id, Child(Child(t, Opp(d)), d);
    RepPlug(n0, ctx, t, 0);
    PlugDistinct(ctx, t);
    RepIds(n0, t, p);
    RepCtxIds(n0, ctx, x, 0);
    assert Ids(Child(t, Opp(d))) <= Ids(t);
    assert y in Ids(t) && (b.Node? ==> b.id in Ids(t));
    if ctx != [] {
      ParentFresh(ctx, t);
      assert p !in Ids(t);
    }
    RotateSubtreeRep(n0, n1, d, t, p);
    if ctx != [] {
      RepCtxRelink(n0, n1, ctx, x, y, 0);
    }
    RepPlug(n1, ctx, Rotate(d, t), 0);
  }
}
