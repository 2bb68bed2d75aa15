/** What the pointer code of `delete` reads from the arena: the slot of the
    successor it splices out, and, in `__rb_delete_fixup`, the cursor `x`
    (possibly the sentinel), its parent and its sibling `w` with `w`'s two
    children. Each read is tied to the abstract tree the arena holds. */
module FixupReads {
  import opened Trees
  import opened Zipper
  import opened Search
  import opened Arena
  import opened Relink
  import opened Coloring
  import opened Deletion

  /** Every ancestor's handle is among the ancestors' handles. */
  lemma {:induction false} CtxIdsHas(ctx: seq<Frame>, i: nat)
    requires i < |ctx|
    ensures ctx[i].id in CtxIds(ctx)
    decreases i
  {
    if i > 0 {
      CtxIdsHas(ctx[1..], i - 1);
    }
  }

  /** The cursor's colour is stored in its slot (the sentinel's is black),
      and the cursor is the root exactly when it has no ancestors. */
  lemma CursorTop(n: seq<Slot>, ctx: seq<Frame>, xt: Tree)
    requires Rep(n, Plug(ctx, xt), 0) && Distinct(Plug(ctx, xt)) && |n| > 0 && n[0].color == Black
    ensures Id(xt) < |n| && n[Id(xt)].color == ColorOf(xt)
    ensures Id(Plug(ctx, xt)) == Id(xt) <==> ctx == []
    ensures xt.Node? ==> xt.id in Ids(Plug(ctx, xt))
    ensures xt.Leaf? ==> 0 !in Ids(Plug(ctx, xt))
  {
    RepPlug(n, ctx, xt, 0);
    RepColor(n, xt, ParentOf(ctx, 0));
    PlugIds(ctx, xt);
    RepIds(n, Plug(ctx, xt), 0);
    if ctx != [] {
      PlugId(ctx, xt);
      CtxIdsHas(ctx, |ctx| - 1);
      PlugDistinct(ctx, xt);
      RepCtxIds(n, ctx, Id(xt), 0);
      assert xt.Node? ==> xt.id in Ids(xt);
    }
  }

  /** The parent `p` of the cursor, its sibling `w` and `w`'s children, as
      the fixup reads them: `x` hangs on side `d` of `p`, and `w` on the
      other side. */
  lemma SiblingReads(n: seq<Slot>, c: seq<Frame>, xt: Tree)
    requires Rep(n, Plug(c, xt), 0) && Distinct(Plug(c, xt)) && |n| > 0 && n[0].color == Black
    requires c != [] && c[0].sib.Node?
    ensures var p, w, d := c[0].id, c[0].sib, c[0].side;
      0 < p < |n| && Link(n[p], d) == Id(xt) && Link(n[p], Opp(d)) == w.id && w.id != Id(xt) &&
      n[p].color == c[0].color && 0 < w.id < |n| && n[w.id] == Slot(w.key, w.color, Id(w.left), Id(w.right), p) &&
      Id(w.left) < |n| && Id(w.right) < |n| &&
      n[Id(w.left)].color == ColorOf(w.left) && n[Id(w.right)].color == ColorOf(w.right) &&
      p in Ids(Plug(c, xt)) && w.id in Ids(Plug(c, xt))
  {
    var w := c[0].sib;
    RepPlug(n, c, xt, 0);
    assert Rep(n, w, c[0].id);
    RepColor(n, w.left, w.id);
    RepColor(n, w.right, w.id);
    PlugIds(c, xt);
    assert w.id in Ids(w);
    PlugDistinct(c, xt);
    RepIds(n, xt, c[0].id);
    assert xt.Node? ==> xt.id in Ids(xt);
  }

  /** The sibling of a black cursor with a black-height deficit of one is a
      real node. */
  lemma SiblingIsNode(c: seq<Frame>, xt: Tree)
    requires DeleteInv(c, xt) && c != []
    ensures c[0].sib.Node?
  {
    assert BH(c[0].sib) == BH(xt) + 1;
  }

  /** The successor `y` of a node `zt` with two children, as `delete` reads
      it: the leftmost node of the right subtree, with no left child. */
  lemma SuccessorSlot(n: seq<Slot>, ctx: seq<Frame>, zt: Tree)
    requires Rep(n, Plug(ctx, zt), 0) && zt.Node? && zt.right.Node?
    ensures var y, mp := MinNode(zt.right), MinPath(zt.right);
      var cur := mp + [Frame(Right, zt.color, zt.id, zt.key, zt.left)] + ctx;
      Plug(cur, y) == Plug(ctx, zt) && y.Node? && y.left == Leaf &&
      0 < y.id < |n| && n[y.id] == Slot(y.key, y.color, 0, Id(y.right), ParentOf(cur, 0)) &&
      Id(y.right) < |n| && (Id(y.right) == 0 <==> y.right == Leaf)
  {
    var r, y, mp := zt.right, MinNode(zt.right), MinPath(zt.right);
    var f := Frame(Right, zt.color, zt.id, zt.key, zt.left);
    var cur := mp + [f] + ctx;
    MinNodeFacts(r);
    assert cur == mp + ([f] + ctx);
    PlugAppend(mp, [f] + ctx, y);
    assert ([f] + ctx)[0] == f && ([f] + ctx)[1..] == ctx;
    assert Wrap(f, r) == zt;
    RepCursor(n, cur, y, 0);
    RepPlug(n, cur, y, 0);
    RepIds(n, y, ParentOf(cur, 0));
    assert y.right.Node? ==> y.right.id in Ids(y);
  }

  /** The successor's parent is `zt` exactly when the successor is `zt`'s
      right child; otherwise it is the successor's parent after the
      unlinking too. */
  lemma SuccessorParent(ctx: seq<Frame>, zt: Tree)
    requires Distinct(Plug(ctx, zt)) && zt.Node? && zt.left.Node? && zt.right.Node?
    ensures var y, mp := MinNode(zt.right), MinPath(zt.right);
      var cur := mp + [Frame(Right, zt.color, zt.id, zt.key, zt.left)] + ctx;
      (ParentOf(cur, 0) == zt.id <==> mp == []) &&
      (mp == [] ==> y == zt.right && ParentOf(Unlink(ctx, zt).ctx, 0) == y.id) &&
      (mp != [] ==> ParentOf(Unlink(ctx, zt).ctx, 0) == ParentOf(cur, 0) == mp[0].id)
  {
    var r, y, mp := zt.right, MinNode(zt.right), MinPath(zt.right);
    var f := Frame(Right, zt.color, zt.id, zt.key, zt.left);
    var cur := mp + [f] + ctx;
    var u := Unlink(ctx, zt).ctx;
    MinNodeFacts(r);
    if mp == [] {
      assert cur[0] == f;
      assert u == [Frame(Right, zt.color, y.id, y.key, zt.left)] + ctx;
    } else {
      assert cur[0] == mp[0] && u[0] == mp[0];
      PlugDistinct(ctx, zt);
      PlugIds(mp, y);
      CtxIdsHas(mp, 0);
      assert zt.id !in Ids(r);
    }
  }

  /** Once the successor's right subtree takes the successor's place, `zt`'s
      right subtree is `RemoveMin(zt.right)`, a real node when the successor
      was not `zt`'s right child. */
  lemma SuccessorRemoved(ctx: seq<Frame>, zt: Tree)
    requires zt.Node? && zt.right.Node?
    ensures var y, mp := MinNode(zt.right), MinPath(zt.right);
      var cur := mp + [Frame(Right, zt.color, zt.id, zt.key, zt.left)] + ctx;
      Plug(cur, y.right) == Plug(ctx, Node(zt.color, zt.left, zt.id, zt.key, RemoveMin(zt.right))) &&
      (mp != [] ==> RemoveMin(zt.right).Node?)
  {
    var y, mp := MinNode(zt.right), MinPath(zt.right);
    var f := Frame(Right, zt.color, zt.id, zt.key, zt.left);
    assert mp + [f] + ctx == mp + ([f] + ctx) && ([f] + ctx)[0] == f && ([f] + ctx)[1..] == ctx;
    PlugAppend(mp, [f] + ctx, y.right);
    if mp != [] {
      PlugId(mp[1..], Wrap(mp[0], y.right));
    }
  }
}
