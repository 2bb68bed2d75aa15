/** A position inside a tree, as the fixup loops see it: the cursor node (`z`
    in insert-fixup, `x` in delete-fixup) together with the path of ancestors
    above it, innermost (the parent) first. Each frame remembers an ancestor,
    which side of it the path came from, and the ancestor's other subtree. */
module Zipper {
  import opened Trees

  datatype Frame = Frame(side: Side, color: Color, id: nat, key: int, sib: Tree)

  /** Hang `t` on the frame's side of the frame's node. */
  function Wrap(f: Frame, t: Tree): Tree
  {
    if f.side == Left then Node(f.color, t, f.id, f.key, f.sib)
    else Node(f.color, f.sib, f.id, f.key, t)
  }

  /** Rebuild the whole tree from a cursor subtree and its ancestors. */
  function Plug(ctx: seq<Frame>, t: Tree): Tree
    decreases |ctx|
  {
    if ctx == [] then t else Plug(ctx[1..], Wrap(ctx[0], t))
  }

  /** The handle the cursor's `parent` field holds: the nearest ancestor, or
      `top` (the sentinel, for a whole tree) when the cursor is the root. */
  function ParentOf(ctx: seq<Frame>, top: nat): nat
  {
    if ctx == [] then top else ctx[0].id
  }

  /** Colour of the root of `Plug(ctx, t)`. */
  function RootColor(ctx: seq<Frame>, t: Tree): Color
  {
    if ctx == [] then ColorOf(t) else ctx[|ctx| - 1].color
  }

  /** Handles of the ancestors and of their other subtrees. */
  function CtxIds(ctx: seq<Frame>): set<nat>
    decreases |ctx|
  {
    if ctx == [] then {} else {ctx[0].id} + Ids(ctx[0].sib) + CtxIds(ctx[1..])
  }

  /** In-order keys to the left of the cursor subtree. */
  function Before(ctx: seq<Frame>): seq<int>
    decreases |ctx|
  {
    if ctx == [] then []
    else Before(ctx[1..]) + (if ctx[0].side == Right then Inorder(ctx[0].sib) + [ctx[0].key] else [])
  }

  /** In-order keys to the right of the cursor subtree. */
  function After(ctx: seq<Frame>): seq<int>
    decreases |ctx|
  {
    if ctx == [] then []
    else (if ctx[0].side == Left then [ctx[0].key] + Inorder(ctx[0].sib) else []) + After(ctx[1..])
  }

  /** Handles met in in-order before the cursor subtree. */
  function BeforeIds(ctx: seq<Frame>): seq<nat>
    decreases |ctx|
  {
    if ctx == [] then []
    else BeforeIds(ctx[1..]) + (if ctx[0].side == Right then Traverse(ctx[0].sib, InOrder) + [ctx[0].id] else [])
  }

  /** Handles met in in-order after the cursor subtree. */
  function AfterIds(ctx: seq<Frame>): seq<nat>
    decreases |ctx|
  {
    if ctx == [] then []
    else (if ctx[0].side == Left then [ctx[0].id] + Traverse(ctx[0].sib, InOrder) else []) + AfterIds(ctx[1..])
  }

  /** The in-order handles of one wrapped subtree. */
  lemma WrapTraverse(f: Frame, t: Tree)
    ensures Traverse(Wrap(f, t), InOrder) ==
      (if f.side == Right then Traverse(f.sib, InOrder) + [f.id] else []) + Traverse(t, InOrder) +
      (if f.side == Left then [f.id] + Traverse(f.sib, InOrder) else [])
  {
  }

  /** Regrouping a concatenation around its middle part. */
  lemma Regroup5<T>(w: seq<T>, x: seq<T>, m: seq<T>, y: seq<T>, z: seq<T>)
    ensures w + (x + m + y) + z == (w + x) + m + (y + z)
    ensures w + (x + y) + z == (w + x) + (y + z)
  {
  }

  lemma {:induction false} PlugTraverse(ctx: seq<Frame>, t: Tree)
    ensures Traverse(Plug(ctx, t), InOrder) == BeforeIds(ctx) + Traverse(t, InOrder) + AfterIds(ctx)
    decreases |ctx|
  {
    if ctx != [] {
      var f := ctx[0];
      PlugTraverse(ctx[1..], Wrap(f, t));
      WrapTraverse(f, t);
      Regroup5(BeforeIds(ctx[1..]), (if f.side == Right then Traverse(f.sib, InOrder) + [f.id] else []),
        Traverse(t, InOrder), (if f.side == Left then [f.id] + Traverse(f.sib, InOrder) else []), AfterIds(ctx[1..]));
    }
  }

  lemma {:induction false} PlugRootColor(ctx: seq<Frame>, t: Tree)
    ensures ColorOf(Plug(ctx, t)) == RootColor(ctx, t)
    decreases |ctx|
  {
    if ctx != [] {
      PlugRootColor(ctx[1..], Wrap(ctx[0], t));
    }
  }

  /** The in-order sequence of a plugged tree is the cursor's, framed by its
      ancestors' keys. */
  lemma {:induction false} PlugInorder(ctx: seq<Frame>, t: Tree)
    ensures Inorder(Plug(ctx, t)) == Before(ctx) + Inorder(t) + After(ctx)
    decreases |ctx|
  {
    if ctx != [] {
      var f := ctx[0];
      PlugInorder(ctx[1..], Wrap(f, t));
      assert Inorder(Wrap(f, t)) ==
        (if f.side == Right then Inorder(f.sib) + [f.key] else []) + Inorder(t) +
        (if f.side == Left then [f.key] + Inorder(f.sib) else []);
      Regroup5(Before(ctx[1..]), (if f.side == Right then Inorder(f.sib) + [f.key] else []),
        Inorder(t), (if f.side == Left then [f.key] + Inorder(f.sib) else []), After(ctx[1..]));
    }
  }

  lemma {:induction false} PlugIds(ctx: seq<Frame>, t: Tree)
    ensures Ids(Plug(ctx, t)) == Ids(t) + CtxIds(ctx)
    decreases |ctx|
  {
    if ctx != [] {
      PlugIds(ctx[1..], Wrap(ctx[0], t));
    }
  }

  /** A distinct tree has a distinct cursor subtree that shares no handle with
      the ancestors. */
  lemma {:induction false} PlugDistinct(ctx: seq<Frame>, t: Tree)
    requires Distinct(Plug(ctx, t))
    ensures Distinct(t) && Ids(t) !! CtxIds(ctx)
    decreases |ctx|
  {
    if ctx != [] {
      PlugDistinct(ctx[1..], Wrap(ctx[0], t));
    }
  }

  /** Replacing the cursor subtree by one over the same handles keeps the
      whole tree distinct. */
  lemma {:induction false} PlugDistinctReplace(ctx: seq<Frame>, t: Tree, t': Tree)
    requires Distinct(Plug(ctx, t)) && Distinct(t') && Ids(t') <= Ids(t)
    ensures Distinct(Plug(ctx, t'))
    decreases |ctx|
  {
    if ctx != [] {
      PlugDistinct(ctx[1..], Wrap(ctx[0], t));
      PlugDistinctReplace(ctx[1..], Wrap(ctx[0], t), Wrap(ctx[0], t'));
    }
  }

  /** Replacing the cursor subtree by a distinct subtree that shares no
      handle with the ancestors keeps the whole tree distinct. */
  lemma {:induction false} PlugDistinctFresh(ctx: seq<Frame>, t: Tree, t': Tree)
    requires Distinct(Plug(ctx, t)) && Distinct(t') && Ids(t') !! CtxIds(ctx)
    ensures Distinct(Plug(ctx, t'))
    decreases |ctx|
  {
    if ctx != [] {
      PlugDistinct(ctx[1..], Wrap(ctx[0], t));
      PlugDistinctFresh(ctx[1..], Wrap(ctx[0], t), Wrap(ctx[0], t'));
    }
  }

  /** Plugging into a longer path is plugging in two stages. */
  lemma {:induction false} PlugAppend(a: seq<Frame>, b: seq<Frame>, t: Tree)
    ensures Plug(a + b, t) == Plug(b, Plug(a, t))
    decreases |a|
  {
    if a != [] {
      assert (a + b)[1..] == a[1..] + b;
      PlugAppend(a[1..], b, Wrap(a[0], t));
    } else {
      assert a + b == b;
    }
  }

  /** Replacing the cursor subtree by a rearrangement of the same nodes (same
      in-order keys and handles) rearranges the whole tree the same way. */
  lemma {:induction false} PlugRearrange(ctx: seq<Frame>, t: Tree, t': Tree)
    requires Inorder(t') == Inorder(t) && Traverse(t', InOrder) == Traverse(t, InOrder)
    ensures Inorder(Plug(ctx, t')) == Inorder(Plug(ctx, t))
    ensures Traverse(Plug(ctx, t'), InOrder) == Traverse(Plug(ctx, t), InOrder)
    ensures Ids(Plug(ctx, t')) == Ids(Plug(ctx, t))
    ensures Distinct(Plug(ctx, t')) == Distinct(Plug(ctx, t))
    decreases |ctx|
  {
    if ctx != [] {
      PlugRearrange(ctx[1..], Wrap(ctx[0], t), Wrap(ctx[0], t'));
    } else {
      SameNodes(t, t');
    }
  }
}
