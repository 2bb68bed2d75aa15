/** `insert`: `__put` followed by `__rb_insert_fixup`, stated on the abstract
    tree. The fixup loop walks the red cursor `z` up the tree; `InsertFix`
    takes one loop pass per call, with the cursor's ancestors as a zipper
    context, so that the loop in the pointer code can be proved to compute it
    pass by pass. The two mirror-image halves of the loop body are one case
    here, parametrised by the side `d` the parent hangs on below the
    grandparent. */
module Insertion {
  import opened Trees
  import opened Zipper
  import opened Coloring
  import opened Search
  import opened Edits

  /** Case 2 of the loop: when `z` hangs on the side away from `d` below its
      parent `p`, the cursor moves to `p` and the rotation at `p` that lifts
      `z` makes the cursor an outer grandchild. Returns the new cursor and the
      frame of its parent; an outer grandchild is returned as it is. */
  function Straighten(d: Side, p: Frame, z: Tree): (Tree, Frame)
    requires z.Node?
  {
    if p.side == d then (z, p)
    else (Wrap(Frame(d, p.color, p.id, p.key, Child(z, d)), p.sib),
          Frame(d, z.color, z.id, z.key, Child(z, Opp(d))))
  }

  /** The tree `__rb_insert_fixup` leaves behind when it starts with the red
      cursor `z` below the ancestors `ctx`:
      - the parent is black (or there is none): the loop stops and the root is
        painted black;
      - case 1, the uncle is red: parent and uncle turn black, the grandparent
        red, and the cursor moves to the grandparent;
      - cases 2 and 3, the uncle is black: after `Straighten`, the parent turns
        black, the grandparent red, and the rotation at the grandparent lifts
        the parent; the next pass finds a black parent.
      A red parent with no grandparent means a red root, which a red-black
      tree does not have; the loop is then treated as finished. */
  function InsertFix(ctx: seq<Frame>, z: Tree): Tree
    requires z.Node?
    decreases |ctx|
  {
    if ctx == [] || ctx[0].color == Black || |ctx| == 1 then Blacken(Plug(ctx, z))
    else
      var p, g, rest := ctx[0], ctx[1], ctx[2..];
      var d := g.side;
      if ColorOf(g.sib) == Red then
        InsertFix(rest, Wrap(Frame(d, Red, g.id, g.key, Blacken(g.sib)), Wrap(p.(color := Black), z)))
      else
        var (z1, p1) := Straighten(d, p, z);
        InsertFix([Frame(d, Black, p1.id, p1.key, Wrap(Frame(d, Red, g.id, g.key, g.sib), p1.sib))] + rest, z1)
  }

  /** `insert`: hang a new red node with handle `n` where the search for `k`
      ends, then restore the colouring. */
  function Insert(t: Tree, k: int, n: nat): Tree
  {
    InsertFix(PutPath(t, k), Node(Red, Leaf, n, k, Leaf))
  }

  /** What holds at the head of every pass of the fixup loop: the cursor is a
      red node whose subtree is a valid red-black subtree; the ancestors accept
      it as if it were black (the only possible violation is a red cursor below
      a red parent); and the root is black unless the cursor is the root. */
  predicate InsertInv(ctx: seq<Frame>, z: Tree)
  {
    z.Node? && z.color == Red && Balanced(z) && NoRedRed(z) &&
    CtxValid(ctx, BH(z), Black) && (ctx != [] ==> RootColor(ctx, z) == Black)
  }

  /** Below a black frame the colour of the subtree does not matter. */
  lemma CtxValidBlackParent(ctx: seq<Frame>, h: nat, c: Color)
    requires ctx != [] && ctx[0].color == Black && CtxValid(ctx, h, Black)
    ensures CtxValid(ctx, h, c)
  {
  }

  /** Blackening a root keeps the colouring rules. */
  lemma BlackenValid(t: Tree)
    requires Balanced(t) && NoRedRed(t)
    ensures RedBlack(Blacken(t))
  {
  }

  /** Case 1 hands the invariant on to the grandparent, two levels up. */
  lemma Case1Inv(ctx: seq<Frame>, z: Tree)
    requires InsertInv(ctx, z) && |ctx| >= 2 && ctx[0].color == Red && ColorOf(ctx[1].sib) == Red
    ensures var p, g := ctx[0], ctx[1];
      InsertInv(ctx[2..], Wrap(Frame(g.side, Red, g.id, g.key, Blacken(g.sib)), Wrap(p.(color := Black), z)))
  {
    var p, g, rest := ctx[0], ctx[1], ctx[2..];
    var d := g.side;
    assert ctx[1..][0] == g && ctx[1..][1..] == rest;
    assert CtxValid(ctx[1..], BH(z), Red);
    assert CtxValid(rest, BH(z) + 1, Black);
    var pz := Wrap(p.(color := Black), z);
    var gf := Frame(d, Red, g.id, g.key, Blacken(g.sib));
    assert g.color == Black;
    WrapValid(p.(color := Black), z);
    BlackenFacts(g.sib);
    WrapValid(gf, pz);
    if rest != [] {
      assert ctx[|ctx| - 1] == rest[|rest| - 1];
    }
  }

  /** Cases 2 and 3 leave a cursor below a black parent. */
  lemma Case23Inv(ctx: seq<Frame>, z: Tree)
    requires InsertInv(ctx, z) && |ctx| >= 2 && ctx[0].color == Red && ColorOf(ctx[1].sib) == Black
    ensures var p, g, d := ctx[0], ctx[1], ctx[1].side;
      var (z1, p1) := Straighten(d, p, z);
      InsertInv([Frame(d, Black, p1.id, p1.key, Wrap(Frame(d, Red, g.id, g.key, g.sib), p1.sib))] + ctx[2..], z1)
  {
    var p, g, rest := ctx[0], ctx[1], ctx[2..];
    var d := g.side;
    assert ctx[1..][0] == g && ctx[1..][1..] == rest;
    assert CtxValid(ctx[1..], BH(z), Red);
    assert CtxValid(rest, BH(z) + 1, Black);
    var (z1, p1) := Straighten(d, p, z);
    var ctx' := [Frame(d, Black, p1.id, p1.key, Wrap(Frame(d, Red, g.id, g.key, g.sib), p1.sib))] + rest;
    assert ctx'[1..] == rest;
  }

  /** The fixup turns every tree satisfying the loop invariant into a
      red-black tree. */
  lemma {:induction false} InsertFixRedBlack(ctx: seq<Frame>, z: Tree)
    requires InsertInv(ctx, z)
    ensures RedBlack(InsertFix(ctx, z))
    decreases |ctx|
  {
    if ctx == [] || ctx[0].color == Black || |ctx| == 1 {
      if ctx != [] && ctx[0].color == Black {
        CtxValidBlackParent(ctx, BH(z), Red);
      }
      if |ctx| == 1 && ctx[0].color == Red {
        assert false;
      }
      PlugValid(ctx, z);
      BlackenValid(Plug(ctx, z));
    } else {
      var p, g, rest := ctx[0], ctx[1], ctx[2..];
      var d := g.side;
      if ColorOf(g.sib) == Red {
        Case1Inv(ctx, z);
        InsertFixRedBlack(rest, Wrap(Frame(d, Red, g.id, g.key, Blacken(g.sib)), Wrap(p.(color := Black), z)));
      } else {
        var (z1, p1) := Straighten(d, p, z);
        Case23Inv(ctx, z);
        InsertFixRedBlack([Frame(d, Black, p1.id, p1.key, Wrap(Frame(d, Red, g.id, g.key, g.sib), p1.sib))] + rest, z1);
      }
    }
  }

  /** Case 1 as the pointer code performs it, by three colour writes: the
      parent and the uncle turn black, the grandparent red. */
  lemma Case1Paints(ctx: seq<Frame>, z: Tree)
    requires Distinct(Plug(ctx, z)) && |ctx| >= 2 && ctx[1].sib.Node? && z.Node?
    ensures var p, g := ctx[0], ctx[1];
      SetColor(SetColor(SetColor(Plug(ctx, z), p.id, Black), g.sib.id, Black), g.id, Red)
        == Plug(ctx[2..], Wrap(Frame(g.side, Red, g.id, g.key, Blacken(g.sib)), Wrap(p.(color := Black), z)))
  {
    var p, g, rest := ctx[0], ctx[1], ctx[2..];
    var w := Wrap(p, z);
    var s := Wrap(g, w);
    assert ctx[1..][0] == g && ctx[1..][1..] == rest;
    assert Plug(ctx, z) == Plug(rest, s);
    PlugDistinct(rest, s);
    assert Distinct(w) && g.id !in Ids(w) && g.id !in Ids(g.sib) && Ids(w) !! Ids(g.sib);
    assert p.id !in Ids(z) && p.id !in Ids(p.sib) && p.id != g.sib.id;
    SetColorPlug(rest, s, p.id, Black);
    SetColorAbsent(g.sib, p.id, Black);
    var s1 := Wrap(g, Wrap(p.(color := Black), z));
    assert SetColor(s, p.id, Black) == s1;
    SetColorPlug(rest, s1, g.sib.id, Black);
    SetColorAbsent(Wrap(p.(color := Black), z), g.sib.id, Black);
    var s2 := Wrap(g.(sib := Blacken(g.sib)), Wrap(p.(color := Black), z));
    assert SetColor(s1, g.sib.id, Black) == s2;
    SetColorPlug(rest, s2, g.id, Red);
  }

  /** Case 2 as the pointer code performs it: when `z` hangs on the side away
      from `d`, the rotation at its parent that lifts it yields the
      straightened cursor and parent. */
  lemma StraightenRotates(d: Side, p: Frame, z: Tree)
    requires z.Node? && p.side != d
    ensures var (z1, p1) := Straighten(d, p, z); Rotate(d, Wrap(p, z)) == Wrap(p1, z1)
  {
    RotateWrap(d, p.color, p.sib, p.id, p.key, z.color, Child(z, d), z.id, z.key, Child(z, Opp(d)));
  }

  /** Case 3 as the pointer code performs it: the parent turns black, the
      grandparent red, and the rotation at the grandparent lifts the parent. */
  lemma Case3Rotates(d: Side, p1: Frame, g: Frame, rest: seq<Frame>, z1: Tree)
    requires p1.side == d && g.side == d && z1.Node? && Distinct(Plug([p1, g] + rest, z1))
    ensures SetColor(SetColor(Plug([p1, g] + rest, z1), p1.id, Black), g.id, Red)
         == Plug(rest, Wrap(g.(color := Red), Wrap(p1.(color := Black), z1)))
    ensures Plug(rest, Rotate(Opp(d), Wrap(g.(color := Red), Wrap(p1.(color := Black), z1))))
         == Plug([Frame(d, Black, p1.id, p1.key, Wrap(Frame(d, Red, g.id, g.key, g.sib), p1.sib))] + rest, z1)
  {
    var ctx := [p1, g] + rest;
    var s := Wrap(g, Wrap(p1, z1));
    assert ctx[0] == p1 && ctx[1..][0] == g && ctx[1..][1..] == rest;
    assert Plug(ctx, z1) == Plug(rest, s);
    PlugDistinct(rest, s);
    assert Distinct(Wrap(p1, z1)) && g.id !in Ids(Wrap(p1, z1)) && p1.id !in Ids(g.sib);
    SetColorPlug(rest, s, p1.id, Black);
    SetColorAbsent(g.sib, p1.id, Black);
    var s1 := Wrap(g, Wrap(p1.(color := Black), z1));
    assert SetColor(s, p1.id, Black) == s1;
    SetColorPlug(rest, s1, g.id, Red);
    var s2 := Wrap(g.(color := Red), Wrap(p1.(color := Black), z1));
    assert SetColor(s1, g.id, Red) == s2;
    RotateWrap(Opp(d), Red, g.sib, g.id, g.key, Black, p1.sib, p1.id, p1.key, z1);
    var f := Frame(d, Black, p1.id, p1.key, Wrap(Frame(d, Red, g.id, g.key, g.sib), p1.sib));
    assert ([f] + rest)[1..] == rest;
  }

  /** Where the fixup starts: the new red node below the search path of a
      red-black tree satisfies the loop invariant. */
  lemma InsertStart(t: Tree, k: int, n: nat)
    requires RedBlack(t)
    ensures InsertInv(PutPath(t, k), Node(Red, Leaf, n, k, Leaf))
  {
    PutPlug(t, k, n);
    PlugRedBlack(PutPath(t, k), Leaf);
  }

  /** Blackening the root changes neither keys nor links. */
  lemma BlackenKeeps(t: Tree)
    ensures Inorder(Blacken(t)) == Inorder(t) && Ids(Blacken(t)) == Ids(t)
    ensures Traverse(Blacken(t), InOrder) == Traverse(t, InOrder)
    ensures Distinct(Blacken(t)) == Distinct(t)
  {
    match t
    case Leaf =>
    case Node(_, l, id, k, r) =>
      assert Blacken(t) == Node(Black, l, id, k, r);
  }

  /** The fixup only recolours and rotates: the in-order keys and the handles
      stay the same, and the links stay a tree. */
  lemma {:induction false} InsertFixKeeps(ctx: seq<Frame>, z: Tree)
    requires z.Node?
    ensures Inorder(InsertFix(ctx, z)) == Inorder(Plug(ctx, z))
    ensures Traverse(InsertFix(ctx, z), InOrder) == Traverse(Plug(ctx, z), InOrder)
    ensures Ids(InsertFix(ctx, z)) == Ids(Plug(ctx, z))
    ensures Distinct(InsertFix(ctx, z)) == Distinct(Plug(ctx, z))
    decreases |ctx|
  {
    if ctx == [] || ctx[0].color == Black || |ctx| == 1 {
      BlackenKeeps(Plug(ctx, z));
      SameNodes(Blacken(Plug(ctx, z)), Plug(ctx, z));
    } else {
      var p, g, rest := ctx[0], ctx[1], ctx[2..];
      var d := g.side;
      var s := Wrap(g, Wrap(p, z));
      assert ctx[1..][0] == g && ctx[1..][1..] == rest;
      assert Plug(ctx, z) == Plug(rest, s);
      if ColorOf(g.sib) == Red {
        var z' := Wrap(Frame(d, Red, g.id, g.key, Blacken(g.sib)), Wrap(p.(color := Black), z));
        BlackenKeeps(g.sib);
        PlugRearrange(rest, s, z');
        InsertFixKeeps(rest, z');
      } else {
        var (z1, p1) := Straighten(d, p, z);
        var f := Frame(d, Black, p1.id, p1.key, Wrap(Frame(d, Red, g.id, g.key, g.sib), p1.sib));
        var ctx' := [f] + rest;
        assert ctx'[1..] == rest;
        assert Plug(ctx', z1) == Plug(rest, Wrap(f, z1));
        StraightenKeeps(d, p, g, z);
        PlugRearrange(rest, s, Wrap(f, z1));
        InsertFixKeeps(ctx', z1);
      }
    }
  }

  /** Cases 2 and 3 rearrange the grandparent's subtree without changing its
      keys or handles. */
  lemma StraightenKeeps(d: Side, p: Frame, g: Frame, z: Tree)
    requires z.Node? && g.side == d
    ensures var (z1, p1) := Straighten(d, p, z);
      var s' := Wrap(Frame(d, Black, p1.id, p1.key, Wrap(Frame(d, Red, g.id, g.key, g.sib), p1.sib)), z1);
      Inorder(s') == Inorder(Wrap(g, Wrap(p, z))) &&
      Traverse(s', InOrder) == Traverse(Wrap(g, Wrap(p, z)), InOrder)
  {
    var Node(zc, zl, zid, zk, zr) := z;
    var u := g.sib;
    if d == Left && p.side == Left {
      Regroup(g.color, p.color, Black, Red, z, p.id, p.key, p.sib, g.id, g.key, u);
    } else if d == Left {
      Regroup(zc, p.color, p.color, zc, p.sib, p.id, p.key, zl, zid, zk, zr);
      Regroup(g.color, zc, Black, Red, Node(p.color, p.sib, p.id, p.key, zl), zid, zk, zr, g.id, g.key, u);
    } else if p.side == Right {
      Regroup(Black, Red, g.color, p.color, u, g.id, g.key, p.sib, p.id, p.key, z);
    } else {
      Regroup(p.color, zc, zc, p.color, zl, zid, zk, zr, p.id, p.key, p.sib);
      Regroup(Black, Red, g.color, zc, u, g.id, g.key, zl, zid, zk, Node(p.color, zr, p.id, p.key, p.sib));
    }
  }

  /** `insert` keeps a red-black tree red-black. */
  lemma InsertRedBlack(t: Tree, k: int, n: nat)
    requires RedBlack(t)
    ensures RedBlack(Insert(t, k, n))
  {
    InsertStart(t, k, n);
    InsertFixRedBlack(PutPath(t, k), Node(Red, Leaf, n, k, Leaf));
  }

  /** `insert` adds exactly the key `k` as the node with handle `n`, keeps the
      keys in order, and keeps the links a tree when `n` is a fresh handle. */
  lemma InsertKeys(t: Tree, k: int, n: nat)
    ensures multiset(Inorder(Insert(t, k, n))) == multiset(Inorder(t)) + multiset{k}
    ensures Ordered(t) ==> Ordered(Insert(t, k, n))
    ensures Ids(Insert(t, k, n)) == Ids(t) + {n}
    ensures Distinct(t) && n !in Ids(t) ==> Distinct(Insert(t, k, n))
  {
    var ctx, z := PutPath(t, k), Node(Red, Leaf, n, k, Leaf);
    PutPlug(t, k, n);
    InsertFixKeeps(ctx, z);
    PutAdds(t, k, n);
    PutIds(t, k, n);
    if Ordered(t) {
      PutOrdered(t, k, n);
    }
  }
}
