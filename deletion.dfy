/** `delete`: the unlinking of the node found for the key (`replace` and the
    successor relink) followed by `__rb_delete_fixup`, stated on the abstract
    tree. As for insertion, `DeleteFix` takes one pass of the fixup loop per
    call, with the cursor `x` and its ancestors as a zipper context, and the
    two mirror-image halves of the loop body are one case parametrised by the
    side `d` that `x` hangs on below its parent. */
module Deletion {
  import opened Trees
  import opened Zipper
  import opened Coloring
  import opened Search

  /** Where the unlinking leaves the cursor `x` of the fixup: the subtree now
      in the place of the removed node, its ancestors, and the colour of the
      node that left its position (`original_color`). */
  datatype Splice = Splice(ctx: seq<Frame>, x: Tree, removed: Color)

  /** Unlink the node `z` found below the ancestors `ctx`:
      - no left child: the right subtree takes `z`'s place;
      - no right child: the left subtree takes `z`'s place;
      - two children: `z`'s successor `y`, the leftmost node of the right
        subtree, is spliced out of its place (its right subtree takes it)
        and then takes `z`'s place, links and colour; the cursor is `y`'s
        old right subtree and the colour removed is `y`'s. */
  function Unlink(ctx: seq<Frame>, z: Tree): Splice
    requires z.Node?
  {
    if z.left == Leaf then Splice(ctx, z.right, z.color)
    else if z.right == Leaf then Splice(ctx, z.left, z.color)
    else
      var y := MinNode(z.right);
      Splice(MinPath(z.right) + [Frame(Right, z.color, y.id, y.key, z.left)] + ctx, y.right, y.color)
  }

  /** The subtree that takes the place of the removed node `z`. */
  function Unlinked(z: Tree): Tree
    requires z.Node?
  {
    if z.left == Leaf then z.right
    else if z.right == Leaf then z.left
    else
      var y := MinNode(z.right);
      Node(z.color, z.left, y.id, y.key, RemoveMin(z.right))
  }

  /** The cursor and its ancestors rebuild the tree with `z` replaced by
      `Unlinked(z)`. */
  lemma UnlinkPlug(ctx: seq<Frame>, z: Tree)
    requires z.Node?
    ensures Plug(Unlink(ctx, z).ctx, Unlink(ctx, z).x) == Plug(ctx, Unlinked(z))
  {
    if z.left != Leaf && z.right != Leaf {
      var y := MinNode(z.right);
      var f := Frame(Right, z.color, y.id, y.key, z.left);
      var mp := MinPath(z.right);
      assert mp + [f] + ctx == mp + ([f] + ctx);
      PlugAppend(mp, [f] + ctx, y.right);
      assert ([f] + ctx)[1..] == ctx;
    }
  }

  /** Case 3 of the loop: the sibling `w` is black, its child on the far side
      (away from `d`) is black and the near one red. The near child turns
      black, `w` red, and the rotation at `w` lifts the near child, which
      becomes the new sibling. */
  function Case3(d: Side, w: Tree): Tree
    requires Child(w, d).Node?
  {
    var n := Child(w, d);
    Wrap(Frame(d, Black, n.id, n.key, Wrap(Frame(d, Red, w.id, w.key, Child(w, Opp(d))), Child(n, Opp(d)))),
         Child(n, d))
  }

  /** Case 4 of the loop: the sibling `w` is black with a red far child. `w`
      takes the parent's colour, the parent and the far child turn black, and
      the rotation at the parent lifts `w`. */
  function Case4(d: Side, p: Frame, x: Tree, w: Tree): Tree
    requires w.Node?
  {
    Wrap(Frame(d, p.color, w.id, w.key, Blacken(Child(w, Opp(d)))),
         Wrap(Frame(d, Black, p.id, p.key, Child(w, d)), x))
  }

  /** Case 1 of the loop: a red sibling turns black, the parent red, and the
      rotation at the parent lifts the sibling; `x` keeps its parent, which
      now has the sibling's near child as its other child. The ancestors of
      `x` after this step (unchanged when the sibling is black). */
  function Case1(ctx: seq<Frame>): (c: seq<Frame>)
    requires ctx != []
    ensures |c| == |ctx| || (|c| == |ctx| + 1 && c[0].color == Red)
    ensures c[0].side == ctx[0].side
  {
    var p, w := ctx[0], ctx[0].sib;
    if ColorOf(w) == Red then
      [Frame(p.side, Red, p.id, p.key, Child(w, p.side)), Frame(p.side, Black, w.id, w.key, Child(w, Opp(p.side)))]
      + ctx[1..]
    else ctx
  }

  /** The tree `__rb_delete_fixup` leaves behind when it starts with the
      cursor `x` below the ancestors `ctx`:
      - `x` is the root or red: the loop stops and `x` is painted black;
      - otherwise, after case 1, if both children of the sibling are black
        (case 2) the sibling turns red and the cursor moves to the parent;
      - else cases 3 and 4 rebalance at the parent, and the cursor jumps to
        the root, where the next pass stops. */
  function DeleteFix(ctx: seq<Frame>, x: Tree): Tree
    decreases 2 * |ctx| + (if ColorOf(x) == Black then 1 else 0)
  {
    if ctx == [] || ColorOf(x) == Red then Plug(ctx, Blacken(x))
    else
      var d := ctx[0].side;
      var c := Case1(ctx);
      var p := c[0];
      var w := p.sib;
      if ColorOf(Child(w, d)) == Black && ColorOf(Child(w, Opp(d))) == Black then
        DeleteFix(c[1..], Wrap(p.(sib := Redden(w)), x))
      else
        var w' := if ColorOf(Child(w, Opp(d))) == Black then Case3(d, w) else w;
        DeleteFix([], Plug(c[1..], Case4(d, p, x, w')))
  }

  /** `delete(k)` on the abstract tree: the first node on the search path for
      `k` is unlinked and, when the colour removed is black, the fixup runs.
      A missing key leaves the tree as it is. */
  function Delete(t: Tree, k: int): Tree
  {
    var z := Find(t, k);
    if z.Leaf? then t
    else
      var s := Unlink(FindPath(t, k), z);
      if s.removed == Black then DeleteFix(s.ctx, s.x) else Plug(s.ctx, s.x)
  }

  /** Recolouring a root changes neither keys nor links. */
  lemma RecolorKeeps(t: Tree)
    ensures Inorder(Blacken(t)) == Inorder(t) && Traverse(Blacken(t), InOrder) == Traverse(t, InOrder)
    ensures Inorder(Redden(t)) == Inorder(t) && Traverse(Redden(t), InOrder) == Traverse(t, InOrder)
  {
    match t
    case Leaf =>
    case Node(_, l, id, k, r) =>
      assert Blacken(t) == Node(Black, l, id, k, r) && Redden(t) == Node(Red, l, id, k, r);
  }

  /** Case 1 only rotates: the keys and handles keep their order. */
  lemma Case1Keeps(ctx: seq<Frame>, x: Tree)
    requires ctx != []
    ensures Inorder(Plug(Case1(ctx), x)) == Inorder(Plug(ctx, x))
    ensures Traverse(Plug(Case1(ctx), x), InOrder) == Traverse(Plug(ctx, x), InOrder)
  {
    var p, w := ctx[0], ctx[0].sib;
    if ColorOf(w) == Red {
      var d, rest := p.side, ctx[1..];
      var Node(_, wl, wid, wk, wr) := w;
      var c := Case1(ctx);
      assert c[1..][1..] == rest;
      var s' := Wrap(c[1], Wrap(c[0], x));
      assert Plug(c, x) == Plug(rest, s');
      if d == Left {
        Regroup(Black, Red, p.color, Red, x, p.id, p.key, wl, wid, wk, wr);
      } else {
        Regroup(p.color, Red, Black, Red, wl, wid, wk, wr, p.id, p.key, x);
      }
      PlugRearrange(rest, Wrap(p, x), s');
    }
  }

  /** Case 3 only recolours and rotates inside the sibling. */
  lemma Case3Keeps(d: Side, w: Tree)
    requires Child(w, d).Node?
    ensures Inorder(Case3(d, w)) == Inorder(w) && Traverse(Case3(d, w), InOrder) == Traverse(w, InOrder)
  {
    var Node(wc, wl, wid, wk, wr) := w;
    if d == Left {
      var Node(nc, a, nid, nk, b) := wl;
      Regroup(wc, nc, Black, Red, a, nid, nk, b, wid, wk, wr);
    } else {
      var Node(nc, a, nid, nk, b) := wr;
      Regroup(Red, Black, wc, nc, wl, wid, wk, a, nid, nk, b);
    }
  }

  /** Case 4 only recolours and rotates at the parent. */
  lemma Case4Keeps(d: Side, p: Frame, x: Tree, w: Tree)
    requires w.Node?
    ensures Inorder(Case4(d, p, x, w)) == Inorder(Wrap(Frame(d, p.color, p.id, p.key, w), x))
    ensures Traverse(Case4(d, p, x, w), InOrder) == Traverse(Wrap(Frame(d, p.color, p.id, p.key, w), x), InOrder)
  {
    var Node(wc, wl, wid, wk, wr) := w;
    if d == Left {
      RecolorKeeps(wr);
      Regroup(p.color, Black, p.color, wc, x, p.id, p.key, wl, wid, wk, Blacken(wr));
    } else {
      RecolorKeeps(wl);
      Regroup(p.color, wc, p.color, Black, Blacken(wl), wid, wk, wr, p.id, p.key, x);
    }
  }

  /** The fixup only recolours and rotates: the in-order keys and handles
      stay the same. */
  lemma {:induction false} DeleteFixKeeps(ctx: seq<Frame>, x: Tree)
    ensures Inorder(DeleteFix(ctx, x)) == Inorder(Plug(ctx, x))
    ensures Traverse(DeleteFix(ctx, x), InOrder) == Traverse(Plug(ctx, x), InOrder)
    decreases 2 * |ctx| + (if ColorOf(x) == Black then 1 else 0)
  {
    if ctx == [] || ColorOf(x) == Red {
      RecolorKeeps(x);
      PlugRearrange(ctx, x, Blacken(x));
    } else {
      var d := ctx[0].side;
      var c := Case1(ctx);
      var p := c[0];
      var w := p.sib;
      Case1Keeps(ctx, x);
      assert Plug(c, x) == Plug(c[1..], Wrap(p, x));
      if ColorOf(Child(w, d)) == Black && ColorOf(Child(w, Opp(d))) == Black {
        var x' := Wrap(p.(sib := Redden(w)), x);
        RecolorKeeps(w);
        PlugRearrange(c[1..], Wrap(p, x), x');
        DeleteFixKeeps(c[1..], x');
      } else {
        var w' := if ColorOf(Child(w, Opp(d))) == Black then Case3(d, w) else w;
        if ColorOf(Child(w, Opp(d))) == Black {
          Case3Keeps(d, w);
        }
        Case4Keeps(d, p, x, w');
        var t := Plug(c[1..], Case4(d, p, x, w'));
        PlugRearrange(c[1..], Wrap(p, x), Case4(d, p, x, w'));
        DeleteFixKeeps([], t);
      }
    }
  }

  /** What holds at the head of every pass of the fixup loop: the cursor's
      subtree is balanced and, painted black, free of red-red edges; the
      ancestors accept it as a black subtree one black node higher than it is
      (the black node the unlinking removed); and the root is black unless the
      cursor is the root. */
  predicate DeleteInv(ctx: seq<Frame>, x: Tree)
  {
    Balanced(x) && NoRedRed(Blacken(x)) && CtxValid(ctx, BH(x) + 1, Black) &&
    (ctx != [] ==> RootColor(ctx, x) == Black)
  }

  /** A balanced node's two subtrees have the node's black height, less one
      when the node is black. */
  lemma ChildBH(t: Tree, s: Side)
    requires t.Node? && Balanced(t)
    ensures Balanced(Child(t, s))
    ensures BH(Child(t, s)) + (if t.color == Black then 1 else 0) == BH(t)
    ensures NoRedRed(t) ==> NoRedRed(Child(t, s)) && (t.color == Red ==> ColorOf(Child(t, s)) == Black)
  {
  }

  /** After case 1 the sibling of the cursor is a black node one black node
      higher than the cursor, and the invariant still holds. */
  lemma Case1Valid(ctx: seq<Frame>, x: Tree)
    requires DeleteInv(ctx, x) && ctx != [] && ColorOf(x) == Black
    ensures DeleteInv(Case1(ctx), x)
    ensures var w := Case1(ctx)[0].sib;
      w.Node? && w.color == Black && Balanced(w) && NoRedRed(w) && BH(w) == BH(x) + 1
  {
    var p, w, rest := ctx[0], ctx[0].sib, ctx[1..];
    assert CtxValid(rest, BH(x) + 1 + (if p.color == Black then 1 else 0), p.color);
    if ColorOf(w) == Red {
      var d := p.side;
      ChildBH(w, d);
      ChildBH(w, Opp(d));
      var c := Case1(ctx);
      assert c[1..][1..] == rest;
      assert CtxValid(c[1..], BH(x) + 1, Red);
      if rest != [] {
        assert c[|c| - 1] == ctx[|ctx| - 1];
      }
    }
  }

  /** Case 2 moves the deficit up to the parent. */
  lemma Case2Valid(c: seq<Frame>, x: Tree)
    requires DeleteInv(c, x) && c != [] && ColorOf(x) == Black
    requires var w := c[0].sib; w.Node? && w.color == Black && Balanced(w) && NoRedRed(w) && BH(w) == BH(x) + 1
    requires ColorOf(Child(c[0].sib, Left)) == Black && ColorOf(Child(c[0].sib, Right)) == Black
    ensures DeleteInv(c[1..], Wrap(c[0].(sib := Redden(c[0].sib)), x))
  {
    var p, w := c[0], c[0].sib;
    var f := p.(sib := Redden(w));
    var x' := Wrap(f, x);
    ChildBH(w, Left);
    assert CtxValid(c[1..], BH(x) + 1 + (if p.color == Black then 1 else 0), p.color);
    WrapValid(f, x);
    WrapValid(f.(color := Black), x);
    assert Blacken(x') == Wrap(f.(color := Black), x);
    if p.color == Red {
      CtxValidRedToBlack(c[1..], BH(x) + 1);
    }
    if c[1..] != [] {
      assert c[|c| - 1] == c[1..][|c[1..]| - 1];
    }
  }

  /** Case 3 turns the sibling into one with a red far child. */
  lemma Case3Valid(d: Side, w: Tree)
    requires w.Node? && w.color == Black && Balanced(w) && NoRedRed(w)
    requires ColorOf(Child(w, d)) == Red && ColorOf(Child(w, Opp(d))) == Black
    ensures var w' := Case3(d, w);
      w'.Node? && w'.color == Black && Balanced(w') && NoRedRed(w') && BH(w') == BH(w) &&
      ColorOf(Child(w', Opp(d))) == Red
  {
    var n := Child(w, d);
    ChildBH(w, d);
    ChildBH(w, Opp(d));
    ChildBH(n, d);
    ChildBH(n, Opp(d));
    var inner := Frame(d, Red, w.id, w.key, Child(w, Opp(d)));
    WrapValid(inner, Child(n, Opp(d)));
    var outer := Frame(d, Black, n.id, n.key, Wrap(inner, Child(n, Opp(d))));
    WrapValid(outer, Child(n, d));
  }

  /** Case 4 leaves a balanced subtree of the parent's colour whose black
      height makes up for the black node removed. */
  lemma Case4Valid(d: Side, p: Frame, x: Tree, w: Tree)
    requires Balanced(x) && NoRedRed(x) && ColorOf(x) == Black
    requires w.Node? && w.color == Black && Balanced(w) && NoRedRed(w) && BH(w) == BH(x) + 1
    requires ColorOf(Child(w, Opp(d))) == Red
    ensures var s := Case4(d, p, x, w);
      Balanced(s) && NoRedRed(s) && ColorOf(s) == p.color &&
      BH(s) == BH(x) + 1 + (if p.color == Black then 1 else 0)
  {
    ChildBH(w, d);
    ChildBH(w, Opp(d));
    var far := Child(w, Opp(d));
    ChildBH(far, Left);
    BlackenFacts(far);
    var inner := Frame(d, Black, p.id, p.key, Child(w, d));
    WrapValid(inner, x);
    WrapValid(Frame(d, p.color, w.id, w.key, Blacken(far)), Wrap(inner, x));
  }

  /** The fixup turns every tree satisfying the loop invariant into a
      red-black tree. */
  lemma {:induction false} DeleteFixRedBlack(ctx: seq<Frame>, x: Tree)
    requires DeleteInv(ctx, x)
    ensures RedBlack(DeleteFix(ctx, x))
    decreases 2 * |ctx| + (if ColorOf(x) == Black then 1 else 0)
  {
    BlackenFacts(x);
    if ctx == [] {
    } else if ColorOf(x) == Red {
      RedBlackPlug(ctx, Blacken(x));
    } else {
      assert Blacken(x) == x;
      var d := ctx[0].side;
      var c := Case1(ctx);
      Case1Valid(ctx, x);
      var p := c[0];
      var w := p.sib;
      if ColorOf(Child(w, d)) == Black && ColorOf(Child(w, Opp(d))) == Black {
        assert ColorOf(Child(w, Left)) == Black && ColorOf(Child(w, Right)) == Black;
        Case2Valid(c, x);
        DeleteFixRedBlack(c[1..], Wrap(p.(sib := Redden(w)), x));
      } else {
        var w' := if ColorOf(Child(w, Opp(d))) == Black then Case3(d, w) else w;
        if ColorOf(Child(w, Opp(d))) == Black {
          Case3Valid(d, w);
        }
        Case4Valid(d, p, x, w');
        var s := Case4(d, p, x, w');
        assert CtxValid(c[1..], BH(x) + 1 + (if p.color == Black then 1 else 0), p.color);
        PlugValid(c[1..], s);
        var t := Plug(c[1..], s);
        BlackenFacts(t);
        DeleteFixRedBlack([], t);
      }
    }
  }

  /** Unlinking `z` keeps the keys and handles of both its subtrees, in order,
      and drops only `z`'s own. */
  lemma UnlinkKeeps(z: Tree)
    requires z.Node?
    ensures Inorder(Unlinked(z)) == Inorder(z.left) + Inorder(z.right)
    ensures Traverse(Unlinked(z), InOrder) == Traverse(z.left, InOrder) + Traverse(z.right, InOrder)
  {
    if z.left != Leaf && z.right != Leaf {
      var y, r' := MinNode(z.right), RemoveMin(z.right);
      RemoveMinInorder(z.right);
      RemoveMinIds(z.right);
      InOrderNode(z.color, z.left, y.id, y.key, r');
      assert Inorder(Unlinked(z)) == Inorder(z.left) + ([y.key] + Inorder(r'));
      assert Traverse(Unlinked(z), InOrder) == Traverse(z.left, InOrder) + ([y.id] + Traverse(r', InOrder));
    }
  }

  /** The unlinking leaves what the fixup loop expects: when the colour
      removed is black the loop invariant holds, otherwise the tree is already
      red-black. */
  lemma UnlinkValid(ctx: seq<Frame>, z: Tree)
    requires z.Node? && RedBlack(Plug(ctx, z))
    ensures var s := Unlink(ctx, z);
      if s.removed == Black then DeleteInv(s.ctx, s.x) else RedBlack(Plug(s.ctx, s.x))
  {
    PlugRedBlack(ctx, z);
    if z.left == Leaf || z.right == Leaf {
      UnlinkOneValid(ctx, z);
    } else {
      UnlinkTwoValid(ctx, z);
    }
  }

  /** A node with a sentinel child: the other child takes its place. */
  lemma UnlinkOneValid(ctx: seq<Frame>, z: Tree)
    requires z.Node? && (z.left == Leaf || z.right == Leaf)
    requires Balanced(z) && NoRedRed(z) && CtxValid(ctx, BH(z), z.color) && RootColor(ctx, z) == Black
    ensures var s := Unlink(ctx, z);
      if s.removed == Black then DeleteInv(s.ctx, s.x) else RedBlack(Plug(s.ctx, s.x))
  {
    ChildBH(z, Left);
    ChildBH(z, Right);
    var x := Unlink(ctx, z).x;
    assert BH(x) == 0;
    if z.color == Red {
      CtxValidRedToBlack(ctx, 0);
      RedBlackPlug(ctx, x);
    } else {
      BlackenFacts(x);
    }
  }

  /** A node with two children: its successor's right subtree takes the
      successor's place, below the successor in `z`'s place and colour. */
  lemma UnlinkTwoValid(ctx: seq<Frame>, z: Tree)
    requires z.Node? && z.left != Leaf && z.right != Leaf
    requires Balanced(z) && NoRedRed(z) && CtxValid(ctx, BH(z), z.color) && RootColor(ctx, z) == Black
    ensures var s := Unlink(ctx, z);
      if s.removed == Black then DeleteInv(s.ctx, s.x) else RedBlack(Plug(s.ctx, s.x))
  {
    var y, mp := MinNode(z.right), MinPath(z.right);
    var f := Frame(Right, z.color, y.id, y.key, z.left);
    var c := mp + ([f] + ctx);
    assert Unlink(ctx, z) == Splice(c, y.right, y.color) by {
      assert mp + [f] + ctx == c;
    }
    ChildBH(z, Right);
    SuccessorValid(z.right);
    SuccessorFrameValid(ctx, z, f);
    CtxValidAppend(mp, [f] + ctx, y);
    assert CtxValid(c, BH(y), y.color);
    assert RootColor(c, y.right) == Black by {
      assert c[|c| - 1] == if ctx == [] then f else ctx[|ctx| - 1];
    }
    ChildBH(y, Left);
    ChildBH(y, Right);
    if y.color == Red {
      CtxValidRedToBlack(c, 0);
      RedBlackPlug(c, y.right);
    } else {
      BlackenFacts(y.right);
    }
  }

  /** The successor, the leftmost node of a valid subtree, is itself valid
      below its ancestors. */
  lemma SuccessorValid(t: Tree)
    requires t.Node? && Balanced(t) && NoRedRed(t)
    ensures var y := MinNode(t);
      y.Node? && y.left == Leaf && Plug(MinPath(t), y) == t &&
      Balanced(y) && NoRedRed(y) && CtxValid(MinPath(t), BH(y), y.color)
  {
    MinNodeFacts(t);
    PlugValid(MinPath(t), MinNode(t));
  }

  /** The successor, recoloured as `z`, accepts `z`'s right subtree. */
  lemma SuccessorFrameValid(ctx: seq<Frame>, z: Tree, f: Frame)
    requires z.Node? && Balanced(z) && NoRedRed(z) && CtxValid(ctx, BH(z), z.color)
    requires f.side == Right && f.color == z.color && f.sib == z.left
    ensures CtxValid([f] + ctx, BH(z.right), ColorOf(z.right))
  {
    ChildBH(z, Left);
    ChildBH(z, Right);
    assert ([f] + ctx)[0] == f && ([f] + ctx)[1..] == ctx;
  }

  /** `delete` keeps a red-black tree red-black. */
  lemma DeleteRedBlack(t: Tree, k: int)
    requires RedBlack(t)
    ensures RedBlack(Delete(t, k))
  {
    var z := Find(t, k);
    if z.Node? {
      FindPlug(t, k);
      UnlinkValid(FindPath(t, k), z);
      var s := Unlink(FindPath(t, k), z);
      if s.removed == Black {
        DeleteFixRedBlack(s.ctx, s.x);
      }
    }
  }

  /** `delete` leaves the keys and handles of the tree with the found node
      unlinked: those before it, those of its two subtrees, those after it. */
  lemma DeleteUnlinks(t: Tree, k: int)
    requires Find(t, k).Node?
    ensures var p, z := FindPath(t, k), Find(t, k);
      Inorder(Delete(t, k)) == Before(p) + (Inorder(z.left) + Inorder(z.right)) + After(p) &&
      Traverse(Delete(t, k), InOrder) == BeforeIds(p) + (Traverse(z.left, InOrder) + Traverse(z.right, InOrder)) + AfterIds(p)
  {
    var p, z := FindPath(t, k), Find(t, k);
    var s := Unlink(p, z);
    UnlinkPlug(p, z);
    if s.removed == Black {
      DeleteFixKeeps(s.ctx, s.x);
    }
    PlugInorder(p, Unlinked(z));
    PlugTraverse(p, Unlinked(z));
    UnlinkKeeps(z);
  }

  /** The found node's key stands between the keys `delete` keeps. */
  lemma DeleteSplitKeys(t: Tree, k: int)
    requires Find(t, k).Node?
    ensures var p, z := FindPath(t, k), Find(t, k);
      var a, b := Before(p) + Inorder(z.left), Inorder(z.right) + After(p);
      Inorder(t) == a + [z.key] + b && Inorder(Delete(t, k)) == a + b
  {
    var p, z := FindPath(t, k), Find(t, k);
    FindPlug(t, k);
    PlugInorder(p, z);
    DeleteUnlinks(t, k);
    Regroup5(Before(p), Inorder(z.left), [z.key], Inorder(z.right), After(p));
  }

  /** The found node's handle stands between the handles `delete` keeps. */
  lemma DeleteSplitIds(t: Tree, k: int)
    requires Find(t, k).Node?
    ensures var p, z := FindPath(t, k), Find(t, k);
      var a, b := BeforeIds(p) + Traverse(z.left, InOrder), Traverse(z.right, InOrder) + AfterIds(p);
      Traverse(t, InOrder) == a + [z.id] + b && Traverse(Delete(t, k), InOrder) == a + b
  {
    var p, z := FindPath(t, k), Find(t, k);
    FindPlug(t, k);
    PlugTraverse(p, z);
    InOrderNode(z.color, z.left, z.id, z.key, z.right);
    DeleteUnlinks(t, k);
    Regroup5(BeforeIds(p), Traverse(z.left, InOrder), [z.id], Traverse(z.right, InOrder), AfterIds(p));
  }

  lemma MultisetRemove(a: seq<int>, k: int, b: seq<int>)
    ensures multiset(a + b) == multiset(a + [k] + b) - multiset{k}
  {
    assert multiset(a + [k] + b) == multiset(a) + multiset{k} + multiset(b);
  }

  /** `delete(k)` takes one occurrence of `k` out of the keys (none when `k`
      is absent, and then the tree is left as it is) and keeps them in
      order. */
  lemma DeleteKeys(t: Tree, k: int)
    requires Ordered(t)
    ensures multiset(Inorder(Delete(t, k))) == multiset(Inorder(t)) - multiset{k}
    ensures Ordered(Delete(t, k))
    ensures k !in Inorder(t) ==> Delete(t, k) == t
  {
    FindCorrect(t, k);
    var z := Find(t, k);
    if z.Node? {
      var p := FindPath(t, k);
      var a, b := Before(p) + Inorder(z.left), Inorder(z.right) + After(p);
      DeleteSplitKeys(t, k);
      SortedRemove(a, k, b);
      MultisetRemove(a, k, b);
    } else {
      assert k !in multiset(Inorder(t));
    }
  }

  /** On a tree whose handles are distinct, `delete` removes exactly the
      handle of the node it unlinks, and the handles stay distinct. */
  lemma DeleteIds(t: Tree, k: int)
    requires Distinct(t)
    ensures Distinct(Delete(t, k))
    ensures Ids(Delete(t, k)) == if Find(t, k).Node? then Ids(t) - {Find(t, k).id} else Ids(t)
  {
    var z := Find(t, k);
    if z.Node? {
      var p, d := FindPath(t, k), Delete(t, k);
      var a, b := BeforeIds(p) + Traverse(z.left, InOrder), Traverse(z.right, InOrder) + AfterIds(p);
      DeleteSplitIds(t, k);
      DistinctIffNoDup(t);
      DistinctIffNoDup(d);
      NoDupRemove(a, z.id, b);
      TraverseIds(t, InOrder);
      TraverseIds(d, InOrder);
    }
  }
}
