/** The red-black colouring rules and how they decompose along a path. */
module Coloring {
  import opened Trees
  import opened Zipper

  /** Black nodes on the leftmost root-to-sentinel path (the sentinel itself
      is not counted). */
  function BH(t: Tree): nat
  {
    match t
    case Leaf => 0
    case Node(c, l, _, _, _) => BH(l) + (if c == Black then 1 else 0)
  }

  /** Every node's two subtrees have the same black height. */
  predicate Balanced(t: Tree)
  {
    match t
    case Leaf => true
    case Node(_, l, _, _, r) => Balanced(l) && Balanced(r) && BH(l) == BH(r)
  }

  /** No red node has a red child. */
  predicate NoRedRed(t: Tree)
  {
    match t
    case Leaf => true
    case Node(c, l, _, _, r) =>
      (c == Red ==> ColorOf(l) == Black && ColorOf(r) == Black) && NoRedRed(l) && NoRedRed(r)
  }

  /** The red-black properties: black root, no red-red edge, uniform black height
      (the sentinel leaves are black by construction). */
  predicate RedBlack(t: Tree)
  {
    Balanced(t) && NoRedRed(t) && ColorOf(t) == Black
  }

  /** Number of black nodes on each root-to-sentinel path. */
  function BlackCounts(t: Tree): set<nat>
  {
    match t
    case Leaf => {0}
    case Node(c, l, _, _, r) =>
      var b := if c == Black then 1 else 0;
      set n | n in BlackCounts(l) + BlackCounts(r) :: n + b
  }

  lemma {:induction false} BlackCountsHasBH(t: Tree)
    ensures BH(t) in BlackCounts(t)
  {
    match t
    case Leaf =>
    case Node(c, l, _, _, r) =>
      BlackCountsHasBH(l);
  }

  /** `Balanced` is exactly "every root-to-sentinel path has the same number of
      black nodes". */
  lemma {:induction false} BalancedIffUniformPaths(t: Tree)
    ensures Balanced(t) <==> BlackCounts(t) == {BH(t)}
  {
    match t
    case Leaf =>
    case Node(c, l, _, _, r) =>
      var b := if c == Black then 1 else 0;
      BalancedIffUniformPaths(l);
      BalancedIffUniformPaths(r);
      BlackCountsHasBH(l);
      BlackCountsHasBH(r);
      if Balanced(t) {
        assert BlackCounts(l) + BlackCounts(r) == {BH(l)};
      }
      if BlackCounts(t) == {BH(t)} {
        forall n | n in BlackCounts(l) ensures n == BH(l) {
          assert n + b in BlackCounts(t);
        }
        forall n | n in BlackCounts(r) ensures n == BH(l) {
          assert n + b in BlackCounts(t);
        }
      }
  }

  /** The ancestors on a path accept, in the place of the cursor, a subtree of
      black height `h` whose root has colour `c`: each ancestor's other subtree
      is a valid red-black subtree of the matching black height, and no red
      ancestor has a red child. */
  predicate CtxValid(ctx: seq<Frame>, h: nat, c: Color)
    decreases |ctx|
  {
    ctx == [] ||
    (Balanced(ctx[0].sib) && NoRedRed(ctx[0].sib) && BH(ctx[0].sib) == h &&
     (ctx[0].color == Red ==> c == Black && ColorOf(ctx[0].sib) == Black) &&
     CtxValid(ctx[1..], h + (if ctx[0].color == Black then 1 else 0), ctx[0].color))
  }

  /** The colouring rules hold of a plugged tree exactly when they hold of the
      cursor subtree and its ancestors accept it. */
  lemma {:induction false} PlugValid(ctx: seq<Frame>, t: Tree)
    ensures Balanced(Plug(ctx, t)) && NoRedRed(Plug(ctx, t)) <==>
      Balanced(t) && NoRedRed(t) && CtxValid(ctx, BH(t), ColorOf(t))
    decreases |ctx|
  {
    if ctx != [] {
      PlugValid(ctx[1..], Wrap(ctx[0], t));
    }
  }

  /** A red-black tree seen from any cursor position. */
  lemma PlugRedBlack(ctx: seq<Frame>, t: Tree)
    requires RedBlack(Plug(ctx, t))
    ensures Balanced(t) && NoRedRed(t) && CtxValid(ctx, BH(t), ColorOf(t))
    ensures RootColor(ctx, t) == Black
  {
    PlugValid(ctx, t);
    PlugRootColor(ctx, t);
  }

  /** Rebuilding a red-black tree from a cursor position. */
  lemma RedBlackPlug(ctx: seq<Frame>, t: Tree)
    requires Balanced(t) && NoRedRed(t) && CtxValid(ctx, BH(t), ColorOf(t))
    requires RootColor(ctx, t) == Black
    ensures RedBlack(Plug(ctx, t))
  {
    PlugValid(ctx, t);
    PlugRootColor(ctx, t);
  }

  /** The subtree with its root painted black (the sentinel is black already). */
  function Blacken(t: Tree): Tree
  {
    if t.Leaf? then Leaf else t.(color := Black)
  }

  /** The subtree with its root painted red (only ever applied to a real node). */
  function Redden(t: Tree): Tree
  {
    if t.Leaf? then Leaf else t.(color := Red)
  }

  /** The colouring rules across one frame. */
  lemma WrapValid(f: Frame, t: Tree)
    ensures Balanced(Wrap(f, t)) <==> Balanced(t) && Balanced(f.sib) && BH(t) == BH(f.sib)
    ensures BH(t) == BH(f.sib) ==> BH(Wrap(f, t)) == BH(t) + (if f.color == Black then 1 else 0)
    ensures NoRedRed(Wrap(f, t)) <==>
      (NoRedRed(t) && NoRedRed(f.sib) && (f.color == Red ==> ColorOf(t) == Black && ColorOf(f.sib) == Black))
    ensures ColorOf(Wrap(f, t)) == f.color
  {
  }

  /** Painting a root black adds one to its black height when it was red and
      keeps the colouring rules. */
  lemma BlackenFacts(t: Tree)
    ensures Balanced(Blacken(t)) == Balanced(t)
    ensures BH(Blacken(t)) == BH(t) + (if ColorOf(t) == Red then 1 else 0)
    ensures NoRedRed(t) ==> NoRedRed(Blacken(t))
    ensures ColorOf(Blacken(t)) == Black
  {
  }

  /** A red subtree may always be replaced by a black one of the same black
      height. */
  lemma {:induction false} CtxValidRedToBlack(ctx: seq<Frame>, h: nat)
    requires CtxValid(ctx, h, Red)
    ensures CtxValid(ctx, h, Black)
  {
  }

  /** Checking a long path is checking its lower part against a subtree `t`
      and its upper part against the lower part plugged with `t`. */
  lemma {:induction false} CtxValidAppend(a: seq<Frame>, b: seq<Frame>, t: Tree)
    requires CtxValid(a, BH(t), ColorOf(t))
    ensures CtxValid(a + b, BH(t), ColorOf(t)) <==> CtxValid(b, BH(Plug(a, t)), ColorOf(Plug(a, t)))
    decreases |a|
  {
    if a == [] {
      assert a + b == b;
    } else {
      WrapValid(a[0], t);
      assert (a + b)[0] == a[0] && (a + b)[1..] == a[1..] + b;
      CtxValidAppend(a[1..], b, Wrap(a[0], t));
    }
  }
}
