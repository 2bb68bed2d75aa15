/** The field writes `delete` makes before its fixup: `replace`, which hangs
    one node in another's place, and the hand-over by which the successor of
    a node with two children takes that node's place, children and colour. */
module Splicing {
  import opened Trees
  import opened Zipper
  import opened Search
  import opened Arena
  import opened Relink

  /** The writes of `replace(o, r)`: the link of `o`'s parent `p` that held
      `o` (the left one exactly when it held `o`) now holds `r`, and `r`'s
      parent is `p`. When `p` is the sentinel no link changes (the root
      pointer does), but `r`'s parent is still written, even when `r` is the
      sentinel itself. */
  function ReplaceWrites(n: seq<Slot>, o: nat, r: nat): (m: seq<Slot>)
    requires o < |n| && r < |n| && n[o].parent < |n|
    ensures |m| == |n|
    ensures forall i :: 0 <= i < |n| ==> m[i].key == n[i].key && m[i].color == n[i].color
  {
    var p := n[o].parent;
    var n1 := if p == 0 then n else n[p := SetLink(n[p], if n[p].left == o then Left else Right, r)];
    n1[r := n1[r].(parent := p)]
  }

  /** The writes of the last four statements of `delete`'s two-children
      branch: `replace(z, y)`, then `y` takes `z`'s left child (whose parent
      becomes `y`) and `z`'s colour. */
  function AdoptWrites(n: seq<Slot>, z: nat, y: nat): (m: seq<Slot>)
    requires z < |n| && y < |n| && n[z].parent < |n| && n[z].left < |n|
    ensures |m| == |n|
  {
    var n1 := ReplaceWrites(n, z, y);
    var n2 := n1[y := n1[y].(left := n1[z].left)];
    var n3 := n2[n2[y].left := n2[n2[y].left].(parent := y)];
    n3[y := n3[y].(color := n3[z].color)]
  }

  /** The slots `replace(o, r)` writes, when `o`'s parent `p` (unless it
      is the sentinel) holds `o` on side `d`: `r`'s parent becomes `p`, `p`'s
      link on side `d` becomes `r`, and every other slot is unchanged. */
  lemma ReplaceWritesAt(n: seq<Slot>, o: nat, r: nat, d: Side)
    requires o < |n| && r < |n| && n[o].parent < |n| && (r != n[o].parent || r == 0)
    requires n[o].parent != 0 ==> Link(n[n[o].parent], d) == o && Link(n[n[o].parent], Opp(d)) != o
    ensures var p, m := n[o].parent, ReplaceWrites(n, o, r);
      m[r] == n[r].(parent := p) && (p != 0 ==> m[p] == SetLink(n[p], d, r)) &&
      forall i :: 0 <= i < |n| && i != r && (p != 0 ==> i != p) ==> m[i] == n[i]
  {
  }

  /** The slots the hand-over writes, when `z`'s parent `p` (unless it is
      the sentinel) holds `z` on side `d` and `l` is `z`'s left child. */
  lemma AdoptWritesAt(n: seq<Slot>, z: nat, y: nat, l: nat, d: Side)
    requires z < |n| && y < |n| && l < |n| && n[z].parent < |n| && n[z].left == l
    requires z != y && z != l && y != l && y != n[z].parent && l != n[z].parent && z != n[z].parent
    requires n[z].parent != 0 ==> Link(n[n[z].parent], d) == z && Link(n[n[z].parent], Opp(d)) != z
    ensures var p, f := n[z].parent, AdoptWrites(n, z, y);
      f[y] == n[y].(parent := p, left := l, color := n[z].color) && f[l] == n[l].(parent := y) &&
      (p != 0 ==> f[p] == SetLink(n[p], d, y)) &&
      forall i :: 0 <= i < |n| && i != y && i != l && (p != 0 ==> i != p) ==> f[i] == n[i]
  {
    ReplaceWritesAt(n, z, y, d);
  }

  /** `replace(s, c)` for the cursor node `s` and its child `c` on side `d`:
      the arena `m` it leaves holds the tree with `c` in the place of `s`,
      `c`'s parent field (the sentinel's, when `c` is the sentinel) holds the
      cursor's parent, and only that slot and the parent's change. */
  lemma ReplaceRep(n: seq<Slot>, m: seq<Slot>, ctx: seq<Frame>, s: Tree, c: Tree)
    requires Rep(n, Plug(ctx, s), 0) && Distinct(Plug(ctx, s)) && s.Node? && (c == s.left || c == s.right)
    requires s.id < |n| && Id(c) < |n| && n[s.id].parent < |n| && m == ReplaceWrites(n, s.id, Id(c))
    ensures n[s.id].parent == ParentOf(ctx, 0) && (ParentOf(ctx, 0) == 0 <==> ctx == [])
    ensures Rep(m, Plug(ctx, c), 0) && Distinct(Plug(ctx, c)) && m[Id(c)].parent == ParentOf(ctx, 0)
    ensures forall i :: 0 <= i < |n| && i != Id(c) && (ctx != [] ==> i != ctx[0].id) ==> m[i] == n[i]
    ensures m[0].left == n[0].left && m[0].right == n[0].right && m[0].color == n[0].color
    ensures Id(Plug(ctx, c)) == if ctx == [] then Id(c) else Id(Plug(ctx, s))
  {
    var p := ParentOf(ctx, 0);
    RepPlug(n, ctx, s, 0);
    ParentLink(n, ctx, s, 0);
    PlugDistinct(ctx, s);
    assert Rep(n, c, s.id) && Ids(c) <= Ids(s) && Distinct(c);
    RepIds(n, c, s.id);
    RepCtxIds(n, ctx, s.id, 0);
    if ctx != [] {
      ParentFresh(ctx, s);
      assert p in CtxIds(ctx);
      assert Id(c) == 0 || Id(c) in Ids(s);
      ReplaceWritesAt(n, s.id, Id(c), ctx[0].side);
      RelinkRep(n, m, ctx, s.id, c);
    } else {
      ReplaceWritesAt(n, s.id, Id(c), Left);
      RootRep(n, m, s.id, c);
    }
    PlugDistinctReplace(ctx, s, c);
    PlugId(ctx, s);
    PlugId(ctx, c);
  }

  /** An arena that differs from one holding the ancestors `ctx` of a
      cursor node `z` and a tree `c` below `z` only in that `c`'s root
      names the cursor's parent as its parent and that parent's link names
      `c`: it holds `c` in `z`'s place. */
  lemma RelinkRep(n: seq<Slot>, m: seq<Slot>, ctx: seq<Frame>, z: nat, c: Tree)
    requires ctx != [] && Rep(n, c, z) && RepCtx(n, ctx, z, 0) && Distinct(c) && |m| == |n|
    requires ctx[0].id !in Ids(ctx[0].sib) && ctx[0].id !in CtxIds(ctx[1..]) && Ids(c) !! CtxIds(ctx)
    requires 0 < ctx[0].id < |n| && m[ctx[0].id] == SetLink(n[ctx[0].id], ctx[0].side, Id(c))
    requires c.Node? ==> m[c.id] == n[c.id].(parent := ctx[0].id)
    requires forall i :: 0 < i < |n| && i != Id(c) && i != ctx[0].id ==> m[i] == n[i]
    ensures Rep(m, Plug(ctx, c), 0)
  {
    RepIds(n, c, z);
    RepCtxIds(n, ctx, z, 0);
    RepReparent(n, m, c, z, ctx[0].id);
    RepCtxRelink(n, m, ctx, z, Id(c), 0);
    RepPlug(m, ctx, c, 0);
  }

  /** An arena that differs from one holding a tree `c` below `z` only in
      that `c`'s root names the sentinel as its parent holds `c` as a whole
      tree. */
  lemma RootRep(n: seq<Slot>, m: seq<Slot>, z: nat, c: Tree)
    requires Rep(n, c, z) && Distinct(c) && |m| == |n|
    requires c.Node? ==> m[c.id] == n[c.id].(parent := 0)
    requires forall i :: 0 < i < |n| && i != Id(c) ==> m[i] == n[i]
    ensures Rep(m, c, 0)
  {
    RepIds(n, c, z);
    RepReparent(n, m, c, z, 0);
  }

  /** What the hand-over reads and where it leaves things: `z` (the node
      `zt`, below the ancestors `ctx`) keeps its left subtree and colour, and
      `y` (the node `yt`, without a left child) holds the right subtree it is
      to keep. The writes then leave `y` in `z`'s place with `z`'s left
      subtree and colour, in the tree `s`; only `y`'s slot, the slot of the
      root of `z`'s left subtree and that of `z`'s parent change. */
  lemma AdoptRep(m: seq<Slot>, f: seq<Slot>, ctx: seq<Frame>, zt: Tree, yt: Tree, s: Tree)
    requires zt.Node? && zt.left.Node? && yt.Node? && yt.left == Leaf
    requires Distinct(Plug(ctx, Node(zt.color, zt.left, zt.id, zt.key, yt)))
    requires RepCtx(m, ctx, zt.id, 0) && Rep(m, zt.left, zt.id) && Rep(m, yt.right, yt.id)
    requires 0 < zt.id < |m| && 0 < yt.id < |m| && ParentOf(ctx, 0) < |m|
    requires m[zt.id].left == zt.left.id && m[zt.id].color == zt.color && m[zt.id].parent == ParentOf(ctx, 0)
    requires m[yt.id].right == Id(yt.right) && m[yt.id].key == yt.key
    requires f == AdoptWrites(m, zt.id, yt.id) && s == Node(zt.color, zt.left, yt.id, yt.key, yt.right)
    ensures ParentOf(ctx, 0) == 0 <==> ctx == []
    ensures Rep(f, Plug(ctx, s), 0) && Distinct(Plug(ctx, s))
    ensures forall i :: 0 <= i < |m| && i != yt.id && i != zt.left.id && (ctx != [] ==> i != ctx[0].id) ==> f[i] == m[i]
    ensures Id(Plug(ctx, s)) == if ctx == [] then yt.id else Id(Plug(ctx, zt))
  {
    var w := Node(zt.color, zt.left, zt.id, zt.key, yt);
    AdoptIds(ctx, w);
    RepIds(m, zt.left, zt.id);
    RepCtxIds(m, ctx, zt.id, 0);
    if ctx != [] {
      ParentFresh(ctx, w);
      RepCtxParent(m, ctx, zt.id);
      AdoptWritesAt(m, zt.id, yt.id, zt.left.id, ctx[0].side);
      AdoptRepAbove(m, f, ctx, zt, yt, s);
    } else {
      AdoptWritesAt(m, zt.id, yt.id, zt.left.id, Left);
      AdoptRepBelow(m, f, s, zt.id, 0);
    }
    PlugDistinctReplace(ctx, w, s);
    PlugId(ctx, s);
    PlugId(ctx, zt);
  }

  /** `AdoptRep` below a parent, whose link is the one rewritten. */
  lemma AdoptRepAbove(m: seq<Slot>, f: seq<Slot>, ctx: seq<Frame>, zt: Tree, yt: Tree, s: Tree)
    requires ctx != [] && zt.Node? && zt.left.Node? && yt.Node? && s == Node(zt.color, zt.left, yt.id, yt.key, yt.right)
    requires RepCtx(m, ctx, zt.id, 0) && Rep(m, zt.left, zt.id) && Rep(m, yt.right, yt.id) && Distinct(s)
    requires ctx[0].id !in Ids(ctx[0].sib) && ctx[0].id !in CtxIds(ctx[1..]) && 0 < ctx[0].id < |m| == |f|
    requires Ids(s) !! CtxIds(ctx) && zt.id !in Ids(s) && zt.id !in CtxIds(ctx) && 0 < yt.id < |m| && 0 < zt.id < |m|
    requires f[yt.id] == m[yt.id].(parent := ctx[0].id, left := zt.left.id, color := m[zt.id].color)
    requires m[yt.id].right == Id(yt.right) && m[yt.id].key == yt.key && m[zt.id].color == zt.color
    requires f[zt.left.id] == m[zt.left.id].(parent := yt.id)
    requires f[ctx[0].id] == SetLink(m[ctx[0].id], ctx[0].side, yt.id)
    requires forall i :: 0 <= i < |m| && i != yt.id && i != zt.left.id && i != ctx[0].id ==> f[i] == m[i]
    ensures Rep(f, Plug(ctx, s), 0)
  {
    assert f[yt.id] == Slot(yt.key, zt.color, zt.left.id, Id(yt.right), ctx[0].id);
    AdoptRepBelow(m, f, s, zt.id, ctx[0].id);
    RepCtxIds(m, ctx, zt.id, 0);
    assert zt.left.id in Ids(s);
    RepCtxRelink(m, f, ctx, zt.id, yt.id, 0);
    RepPlug(f, ctx, s, 0);
  }

  /** The handles of the tree the hand-over reads: `z`, its left subtree,
      `y` and `y`'s right subtree are pairwise apart and apart from the
      ancestors. */
  lemma AdoptIds(ctx: seq<Frame>, w: Tree)
    requires Distinct(Plug(ctx, w)) && w.Node? && w.left.Node? && w.right.Node? && w.right.left == Leaf
    ensures var z, l, y, r := w.id, w.left, w.right.id, w.right.right;
      Distinct(l) && Distinct(r) && l.id in Ids(l) &&
      z !in Ids(l) && z != y && z !in Ids(r) && y !in Ids(l) && y !in Ids(r) && Ids(l) !! Ids(r) &&
      z !in CtxIds(ctx) && y !in CtxIds(ctx) && Ids(l) !! CtxIds(ctx) && Ids(r) !! CtxIds(ctx) &&
      Distinct(Node(w.color, l, y, w.right.key, r)) &&
      Ids(Node(w.color, l, y, w.right.key, r)) <= Ids(w)
  {
    PlugDistinct(ctx, w);
    assert Ids(w) == Ids(w.left) + {w.id} + ({w.right.id} + Ids(w.right.right));
  }

  /** The link of the cursor's parent: it holds the cursor on the cursor's
      side and something else on the other. */
  lemma RepCtxParent(m: seq<Slot>, ctx: seq<Frame>, z: nat)
    requires RepCtx(m, ctx, z, 0) && ctx != [] && 0 < z && z !in Ids(ctx[0].sib)
    ensures ctx[0].id < |m| && Link(m[ctx[0].id], ctx[0].side) == z && Link(m[ctx[0].id], Opp(ctx[0].side)) != z
  {
    assert Id(ctx[0].sib) == 0 || Id(ctx[0].sib) in Ids(ctx[0].sib);
  }

  /** The hand-over's new subtree `s` is held below `p`, in an arena that
      differs from one holding `z`'s left subtree and `s`'s right subtree
      only in `s`'s root slot and in the parent of the left subtree's root. */
  lemma AdoptRepBelow(m: seq<Slot>, f: seq<Slot>, s: Tree, z: nat, p: nat)
    requires s.Node? && s.left.Node? && 0 < s.id < |m| == |f|
    requires Rep(m, s.left, z) && Rep(m, s.right, s.id) && Distinct(s)
    requires f[s.id] == Slot(s.key, s.color, s.left.id, Id(s.right), p)
    requires f[s.left.id] == m[s.left.id].(parent := s.id)
    requires forall i :: 0 <= i < |m| && i != s.id && i != s.left.id && (p != 0 ==> i != p) ==> f[i] == m[i]
    requires p == 0 || p !in Ids(s)
    ensures Rep(f, s, p)
  {
    RepIds(m, s.left, z);
    RepIds(m, s.right, s.id);
    RepReparent(m, f, s.left, z, s.id);
    RepFrame(m, f, s.right, s.id);
  }

  /** The tree with the successor `y` of `zt` (the leftmost node of its
      right subtree) lifted to the top of that subtree has the same handles,
      so they stay distinct. */
  lemma SuccessorLift(ctx: seq<Frame>, zt: Tree)
    requires Distinct(Plug(ctx, zt)) && zt.Node? && zt.right.Node?
    ensures var y := MinNode(zt.right);
      Distinct(Plug(ctx, Node(zt.color, zt.left, zt.id, zt.key, Node(y.color, Leaf, y.id, y.key, RemoveMin(zt.right)))))
  {
    var r, y := zt.right, MinNode(zt.right);
    var yt := Node(y.color, Leaf, y.id, y.key, RemoveMin(r));
    RemoveMinInorder(r);
    RemoveMinIds(r);
    assert Inorder(yt) == [y.key] + Inorder(RemoveMin(r));
    InOrderNode(y.color, Leaf, y.id, y.key, RemoveMin(r));
    var f := Frame(Right, zt.color, zt.id, zt.key, zt.left);
    assert Wrap(f, r) == zt;
    assert ([f] + ctx)[1..] == ctx;
    PlugRearrange([f] + ctx, r, yt);
  }

  /** An arena that agrees with one holding `t` on every slot but the
      sentinel's holds `t` as well. */
  lemma RepAbove(n: seq<Slot>, m: seq<Slot>, t: Tree, p: nat)
    requires Rep(n, t, p) && |m| == |n| && forall i :: 0 < i < |n| ==> m[i] == n[i]
    ensures Rep(m, t, p)
  {
    RepIds(n, t, p);
    RepFrame(n, m, t, p);
  }

  /** The slots of a cursor node and what hangs around it. */
  lemma CursorReads(n: seq<Slot>, ctx: seq<Frame>, t: Tree)
    requires Rep(n, Plug(ctx, t), 0) && t.Node?
    ensures 0 < t.id < |n| && n[t.id] == Slot(t.key, t.color, Id(t.left), Id(t.right), ParentOf(ctx, 0))
    ensures RepCtx(n, ctx, t.id, 0) && Rep(n, t.left, t.id) && Rep(n, t.right, t.id)
  {
    RepPlug(n, ctx, t, 0);
  }

  /** The first case of the hand-over: the successor is `z`'s right child
      `zt.right`. Writing it as the parent of its own right child `x` (a
      write to the sentinel when that child is the sentinel) changes no slot
      the tree depends on. */
  lemma LiftSetup(n: seq<Slot>, m: seq<Slot>, ctx: seq<Frame>, zt: Tree, x: nat)
    requires Rep(n, Plug(ctx, zt), 0) && zt.Node? && zt.right.Node?
    requires x == Id(zt.right.right) && x < |n| && m == n[x := n[x].(parent := zt.right.id)]
    ensures Rep(m, Plug(ctx, zt), 0) && m[x].parent == zt.right.id
    ensures m[0].left == n[0].left && m[0].right == n[0].right && m[0].color == n[0].color
  {
    CursorReads(n, ctx, zt);
    var yt := zt.right;
    assert Rep(n, yt.right, yt.id);
    if x != 0 {
      assert n[x].parent == yt.id;
    }
    assert forall i :: 0 < i < |n| ==> m[i] == n[i];
    RepAbove(n, m, Plug(ctx, zt), 0);
  }

  /** The hand-over's reads, when the arena holds the tree with the
      successor `zt.right` still below `z`. */
  lemma LiftReads(m: seq<Slot>, ctx: seq<Frame>, zt: Tree)
    requires Rep(m, Plug(ctx, zt), 0) && zt.Node? && zt.right.Node?
    ensures 0 < zt.id < |m| && 0 < zt.right.id < |m| && ParentOf(ctx, 0) < |m|
    ensures RepCtx(m, ctx, zt.id, 0) && Rep(m, zt.left, zt.id) && Rep(m, zt.right.right, zt.right.id)
    ensures m[zt.id].left == Id(zt.left) && m[zt.id].color == zt.color && m[zt.id].parent == ParentOf(ctx, 0)
    ensures m[zt.right.id].right == Id(zt.right.right) && m[zt.right.id].key == zt.right.key
  {
    CursorReads(m, ctx, zt);
    RepCtxIds(m, ctx, zt.id, 0);
    assert ctx != [] ==> ctx[0].id in CtxIds(ctx);
  }

  /** The handles the second case of the hand-over must keep apart: the
      successor `y` is none of `z`, the ancestors and `z`'s subtrees. */
  lemma HandOverIds(ctx: seq<Frame>, zt: Tree, yt: Tree)
    requires zt.Node? && yt.Node? && yt.left == Leaf && yt.right == zt.right
    requires Distinct(Plug(ctx, Node(zt.color, zt.left, zt.id, zt.key, yt)))
    ensures yt.id != zt.id && yt.id !in Ids(zt.left) && yt.id !in Ids(zt.right) && yt.id !in CtxIds(ctx)
    ensures Distinct(zt) && Ids(zt) !! CtxIds(ctx)
  {
    var w := Node(zt.color, zt.left, zt.id, zt.key, yt);
    PlugDistinct(ctx, w);
    SpliceIds(w, zt);
  }

  /** `z` with the successor `y` dropped from the top of its right subtree. */
  lemma SpliceIds(w: Tree, zt: Tree)
    requires w.Node? && zt.Node? && w.right.Node? && w.right.left == Leaf && Distinct(w)
    requires zt == Node(w.color, w.left, w.id, w.key, w.right.right)
    ensures w.right.id != zt.id && w.right.id !in Ids(zt.left) && w.right.id !in Ids(zt.right)
    ensures Distinct(zt) && Ids(zt) <= Ids(w)
  {
    var l, r, y := zt.left, zt.right, w.right.id;
    assert Ids(w.right) == {y} + Ids(r);
    assert Distinct(w.right) && Ids(l) !! Ids(w.right) && zt.id !in Ids(w.right);
  }

  /** The second case of the hand-over, after `replace(y, x)` has spliced
      the successor `y` out: the arena holds `Plug(ctx, zt)`, where `zt` is
      `z` with the spliced right subtree. `y` takes that subtree as its right
      one and becomes its root's parent, which leaves what the hand-over
      reads. */
  lemma HandOverSetup(n: seq<Slot>, m: seq<Slot>, ctx: seq<Frame>, zt: Tree, yt: Tree)
    requires Rep(n, Plug(ctx, zt), 0) && zt.Node? && zt.right.Node?
    requires yt.Node? && yt.left == Leaf && yt.right == zt.right && 0 < yt.id < |n| && zt.right.id < |n|
    requires Distinct(Plug(ctx, Node(zt.color, zt.left, zt.id, zt.key, yt)))
    requires m == n[yt.id := n[yt.id].(right := zt.right.id)][zt.right.id := n[zt.right.id].(parent := yt.id)]
    ensures RepCtx(m, ctx, zt.id, 0) && Rep(m, zt.left, zt.id) && Rep(m, yt.right, yt.id)
  {
    CursorReads(n, ctx, zt);
    HandOverIds(ctx, zt, yt);
    HandOverAbove(n, m, ctx, zt, yt.id);
    HandOverBelow(n, m, zt, yt.id);
  }

  /** The slots the second case of the hand-over writes: `y`'s right link
      and the parent of the root `r` of the subtree it takes; `z`'s slot is
      neither. */
  lemma HandOverSlots(n: seq<Slot>, m: seq<Slot>, ctx: seq<Frame>, zt: Tree, yt: Tree)
    requires Rep(n, Plug(ctx, zt), 0) && zt.Node? && zt.right.Node?
    requires yt.Node? && yt.left == Leaf && yt.right == zt.right && 0 < yt.id < |n| && zt.right.id < |n|
    requires Distinct(Plug(ctx, Node(zt.color, zt.left, zt.id, zt.key, yt)))
    requires m == n[yt.id := n[yt.id].(right := zt.right.id)][zt.right.id := n[zt.right.id].(parent := yt.id)]
    ensures 0 < zt.id < |n| && ParentOf(ctx, 0) < |n|
    ensures m[zt.id].left == Id(zt.left) && m[zt.id].color == zt.color && m[zt.id].parent == ParentOf(ctx, 0)
    ensures m[yt.id].right == zt.right.id && m[yt.id].key == n[yt.id].key
    ensures forall i :: 0 <= i < |n| && i != yt.id && i != zt.right.id ==> m[i] == n[i]
  {
    CursorReads(n, ctx, zt);
    HandOverIds(ctx, zt, yt);
    assert zt.right.id in Ids(zt.right);
    TwoWrites(n, m, yt.id, zt.right.id, zt.id);
  }

  /** Two field writes leave a third slot alone. */
  lemma TwoWrites(n: seq<Slot>, m: seq<Slot>, y: nat, r: nat, z: nat)
    requires y < |n| && r < |n| && z < |n| && z != y && z != r && y != r
    requires m == n[y := n[y].(right := r)][r := n[r].(parent := y)]
    ensures m[z] == n[z] && m[y] == n[y].(right := r)
    ensures forall i :: 0 <= i < |n| && i != y && i != r ==> m[i] == n[i]
  {
  }

  /** The ancestors in the second case of the hand-over. */
  lemma HandOverAbove(n: seq<Slot>, m: seq<Slot>, ctx: seq<Frame>, zt: Tree, y: nat)
    requires zt.Node? && zt.right.Node? && RepCtx(n, ctx, zt.id, 0) && Ids(zt) !! CtxIds(ctx) && y !in CtxIds(ctx)
    requires y < |n| && zt.right.id < |n|
    requires m == n[y := n[y].(right := zt.right.id)][zt.right.id := n[zt.right.id].(parent := y)]
    ensures RepCtx(m, ctx, zt.id, 0)
  {
    RepCtxIds(n, ctx, zt.id, 0);
    assert zt.right.id in Ids(zt);
    RepCtxFrame(n, m, ctx, zt.id, 0);
  }

  /** The subtrees below `z` in the second case of the hand-over. */
  lemma HandOverBelow(n: seq<Slot>, m: seq<Slot>, zt: Tree, y: nat)
    requires zt.Node? && zt.right.Node? && Rep(n, zt.left, zt.id) && Rep(n, zt.right, zt.id) && Distinct(zt)
    requires y !in Ids(zt.left) && y !in Ids(zt.right) && y < |n| && zt.right.id < |n|
    requires m == n[y := n[y].(right := zt.right.id)][zt.right.id := n[zt.right.id].(parent := y)]
    ensures Rep(m, zt.left, zt.id) && Rep(m, zt.right, y)
  {
    RepIds(n, zt.left, zt.id);
    RepIds(n, zt.right, zt.id);
    assert zt.right.id in Ids(zt.right);
    RepFrame(n, m, zt.left, zt.id);
    RepReparent(n, m, zt.right, zt.id, y);
  }
}
