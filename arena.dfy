/** The node objects as the pointer code sees them: an arena of slots indexed
    by handle, slot 0 being the shared black sentinel. `Rep` says when an
    arena holds an abstract tree: each node of the tree is a slot carrying the
    node's data and colour, the handles of its two children (0 for the
    sentinel) and the handle of its parent. Slots that are not in the tree
    (unlinked nodes) are unconstrained. */
module Arena {
  import opened Trees
  import opened Zipper

  /** A `Node` object: `data`, `color` and the `left`, `right` and `parent`
      links. */
  datatype Slot = Slot(key: int, color: Color, left: nat, right: nat, parent: nat)

  /** The link on side `d`. */
  function Link(s: Slot, d: Side): nat
  {
    if d == Left then s.left else s.right
  }

  /** The slot with its link on side `d` redirected to `c`. */
  function SetLink(s: Slot, d: Side, c: nat): (r: Slot)
    ensures Link(r, d) == c && Link(r, Opp(d)) == Link(s, Opp(d))
    ensures r.key == s.key && r.color == s.color && r.parent == s.parent
  {
    if d == Left then s.(left := c) else s.(right := c)
  }

  /** The arena holds `t`, whose root's `parent` link is `parent`. */
  ghost predicate Rep(nodes: seq<Slot>, t: Tree, parent: nat)
  {
    match t
    case Leaf => true
    case Node(c, l, id, k, r) =>
      0 < id < |nodes| && nodes[id] == Slot(k, c, Id(l), Id(r), parent) &&
      Rep(nodes, l, id) && Rep(nodes, r, id)
  }

  /** The slot of a frame's node, with the handle `c` on the frame's side. */
  function FrameSlot(f: Frame, c: nat, parent: nat): Slot
  {
    if f.side == Left then Slot(f.key, f.color, c, Id(f.sib), parent)
    else Slot(f.key, f.color, Id(f.sib), c, parent)
  }

  /** The arena holds the ancestors `ctx` of a cursor subtree with handle `c`,
      the outermost of them hanging below `top`. */
  ghost predicate RepCtx(nodes: seq<Slot>, ctx: seq<Frame>, c: nat, top: nat)
    decreases |ctx|
  {
    ctx == [] ||
    (0 < ctx[0].id < |nodes| && nodes[ctx[0].id] == FrameSlot(ctx[0], c, ParentOf(ctx[1..], top)) &&
     Rep(nodes, ctx[0].sib, ctx[0].id) && RepCtx(nodes, ctx[1..], ctx[0].id, top))
  }

  /** The arena holds a plugged tree exactly when it holds the cursor subtree
      below its parent and the ancestors around it. */
  lemma {:induction false} RepPlug(nodes: seq<Slot>, ctx: seq<Frame>, t: Tree, top: nat)
    ensures Rep(nodes, Plug(ctx, t), top) <==>
      Rep(nodes, t, ParentOf(ctx, top)) && RepCtx(nodes, ctx, Id(t), top)
    decreases |ctx|
  {
    if ctx != [] {
      RepPlug(nodes, ctx[1..], Wrap(ctx[0], t), top);
    }
  }

  /** Every handle of a held tree is a slot of the arena other than the
      sentinel. */
  lemma {:induction false} RepIds(nodes: seq<Slot>, t: Tree, p: nat)
    requires Rep(nodes, t, p)
    ensures forall i :: i in Ids(t) ==> 0 < i < |nodes|
  {
    match t
    case Leaf =>
    case Node(_, l, id, _, r) =>
      RepIds(nodes, l, id);
      RepIds(nodes, r, id);
  }

  lemma {:induction false} RepCtxIds(nodes: seq<Slot>, ctx: seq<Frame>, c: nat, top: nat)
    requires RepCtx(nodes, ctx, c, top)
    ensures forall i :: i in CtxIds(ctx) ==> 0 < i < |nodes|
    decreases |ctx|
  {
    if ctx != [] {
      RepIds(nodes, ctx[0].sib, ctx[0].id);
      RepCtxIds(nodes, ctx[1..], ctx[0].id, top);
    }
  }

  /** Only the slots of a tree's nodes matter to whether the arena holds it. */
  lemma {:induction false} RepFrame(nodes: seq<Slot>, nodes': seq<Slot>, t: Tree, p: nat)
    requires Rep(nodes, t, p)
    requires forall i :: i in Ids(t) ==> i < |nodes| && i < |nodes'| && nodes'[i] == nodes[i]
    ensures Rep(nodes', t, p)
  {
    match t
    case Leaf =>
    case Node(_, l, id, _, r) =>
      RepFrame(nodes, nodes', l, id);
      RepFrame(nodes, nodes', r, id);
  }

  lemma {:induction false} RepCtxFrame(nodes: seq<Slot>, nodes': seq<Slot>, ctx: seq<Frame>, c: nat, top: nat)
    requires RepCtx(nodes, ctx, c, top)
    requires forall i :: i in CtxIds(ctx) ==> i < |nodes| && i < |nodes'| && nodes'[i] == nodes[i]
    ensures RepCtx(nodes', ctx, c, top)
    decreases |ctx|
  {
    if ctx != [] {
      RepFrame(nodes, nodes', ctx[0].sib, ctx[0].id);
      RepCtxFrame(nodes, nodes', ctx[1..], ctx[0].id, top);
    }
  }

  /** Redirecting the `parent` link of a held tree's root. */
  lemma RepReparent(nodes: seq<Slot>, nodes': seq<Slot>, t: Tree, p: nat, q: nat)
    requires Rep(nodes, t, p) && Distinct(t)
    requires forall i :: i in Ids(t) ==>
      (i < |nodes| && i < |nodes'| && nodes'[i] == if i == Id(t) then nodes[i].(parent := q) else nodes[i])
    ensures Rep(nodes', t, q)
  {
    match t
    case Leaf =>
    case Node(_, l, id, _, r) =>
      RepFrame(nodes, nodes', l, id);
      RepFrame(nodes, nodes', r, id);
  }

  /** Redirecting the link of the cursor's parent to another subtree. */
  lemma RepCtxRelink(nodes: seq<Slot>, nodes': seq<Slot>, ctx: seq<Frame>, c: nat, c': nat, top: nat)
    requires RepCtx(nodes, ctx, c, top) && ctx != []
    requires ctx[0].id !in Ids(ctx[0].sib) && ctx[0].id !in CtxIds(ctx[1..])
    requires forall i :: i in CtxIds(ctx) ==>
      (i < |nodes| && i < |nodes'| && nodes'[i] == if i == ctx[0].id then SetLink(nodes[i], ctx[0].side, c') else nodes[i])
    ensures RepCtx(nodes', ctx, c', top)
  {
    RepFrame(nodes, nodes', ctx[0].sib, ctx[0].id);
    RepCtxFrame(nodes, nodes', ctx[1..], ctx[0].id, top);
  }

  /** In a tree whose handles are distinct, the parent of the cursor is
      neither the cursor's other relatives nor inside the cursor subtree. */
  lemma ParentFresh(ctx: seq<Frame>, t: Tree)
    requires Distinct(Plug(ctx, t)) && ctx != []
    ensures ctx[0].id !in Ids(ctx[0].sib) && ctx[0].id !in CtxIds(ctx[1..]) && ctx[0].id !in Ids(t)
    ensures Ids(t) !! CtxIds(ctx) && Distinct(t)
  {
    PlugDistinct(ctx[1..], Wrap(ctx[0], t));
    PlugDistinct(ctx, t);
  }

  /** The cursor's parent link, read from the arena. */
  lemma ParentLink(nodes: seq<Slot>, ctx: seq<Frame>, t: Tree, top: nat)
    requires Rep(nodes, Plug(ctx, t), top) && Distinct(Plug(ctx, t)) && t.Node?
    ensures t.id < |nodes| && nodes[t.id].parent == ParentOf(ctx, top)
    ensures ctx != [] ==>
      (ctx[0].id < |nodes| && Link(nodes[ctx[0].id], ctx[0].side) == t.id &&
       Link(nodes[ctx[0].id], Opp(ctx[0].side)) == Id(ctx[0].sib) != t.id &&
       nodes[ctx[0].id].parent == ParentOf(ctx[1..], top))
  {
    RepPlug(nodes, ctx, t, top);
    if ctx != [] {
      ParentFresh(ctx, t);
    }
  }
}
