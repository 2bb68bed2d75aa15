/** The two kinds of in-place change the fixups make, stated on the abstract
    tree: painting one node and rotating at one node. Both address the node by
    its handle, as the pointer code does. */
module Edits {
  import opened Trees
  import opened Zipper

  /** Paint the node with handle `x` (no change when `x` is not in `t`). */
  function SetColor(t: Tree, x: nat, c: Color): Tree
  {
    match t
    case Leaf => Leaf
    case Node(c0, l, id, k, r) =>
      if id == x then Node(c, l, id, k, r)
      else Node(c0, SetColor(l, x, c), id, k, SetColor(r, x, c))
  }

  /** `left_rotate` at the root of `t`: the right child `y` takes the root's
      place, the old root becomes `y`'s left child and adopts `y`'s old left
      subtree. A root without a right child is left alone. */
  function RotateLeft(t: Tree): Tree
  {
    match t
    case Node(c, a, x, k, Node(cy, b, y, ky, g)) => Node(cy, Node(c, a, x, k, b), y, ky, g)
    case _ => t
  }

  /** `right_rotate` at the root of `t`, the mirror image of `RotateLeft`. */
  function RotateRight(t: Tree): Tree
  {
    match t
    case Node(c, Node(cy, a, y, ky, b), x, k, g) => Node(cy, a, y, ky, Node(c, b, x, k, g))
    case _ => t
  }

  /** Rotate left at the node with handle `x`, wherever it is. */
  function RotateLeftAt(t: Tree, x: nat): Tree
  {
    match t
    case Leaf => Leaf
    case Node(c, l, id, k, r) =>
      if id == x then RotateLeft(t)
      else Node(c, RotateLeftAt(l, x), id, k, RotateLeftAt(r, x))
  }

  function RotateRightAt(t: Tree, x: nat): Tree
  {
    match t
    case Leaf => Leaf
    case Node(c, l, id, k, r) =>
      if id == x then RotateRight(t)
      else Node(c, RotateRightAt(l, x), id, k, RotateRightAt(r, x))
  }

  /** The ancestors of the node with handle `x`. */
  function PathTo(t: Tree, x: nat): seq<Frame>
  {
    match t
    case Leaf => []
    case Node(c, l, id, k, r) =>
      if id == x then []
      else if x in Ids(l) then PathTo(l, x) + [Frame(Left, c, id, k, r)]
      else if x in Ids(r) then PathTo(r, x) + [Frame(Right, c, id, k, l)]
      else []
  }

  /** The subtree rooted at the node with handle `x` (`t` itself when `x` is
      absent). */
  function SubtreeAt(t: Tree, x: nat): Tree
  {
    match t
    case Leaf => Leaf
    case Node(_, l, id, _, r) =>
      if id == x then t
      else if x in Ids(l) then SubtreeAt(l, x)
      else if x in Ids(r) then SubtreeAt(r, x)
      else t
  }

  lemma {:induction false} LocateNode(t: Tree, x: nat)
    requires x in Ids(t)
    ensures Plug(PathTo(t, x), SubtreeAt(t, x)) == t
    ensures SubtreeAt(t, x).Node? && SubtreeAt(t, x).id == x
  {
    match t
    case Node(c, l, id, k, r) =>
      if id == x {
      } else if x in Ids(l) {
        LocateNode(l, x);
        PlugAppend(PathTo(l, x), [Frame(Left, c, id, k, r)], SubtreeAt(l, x));
      } else {
        LocateNode(r, x);
        PlugAppend(PathTo(r, x), [Frame(Right, c, id, k, l)], SubtreeAt(r, x));
      }
  }

  lemma {:induction false} SetColorAbsent(t: Tree, x: nat, c: Color)
    requires x !in Ids(t)
    ensures SetColor(t, x, c) == t
  {
    match t
    case Leaf =>
    case Node(_, l, _, _, r) =>
      SetColorAbsent(l, x, c);
      SetColorAbsent(r, x, c);
  }

  /** Painting a node below the cursor leaves the ancestors alone. */
  lemma {:induction false} SetColorPlug(ctx: seq<Frame>, t: Tree, x: nat, c: Color)
    requires x !in CtxIds(ctx)
    ensures SetColor(Plug(ctx, t), x, c) == Plug(ctx, SetColor(t, x, c))
    decreases |ctx|
  {
    if ctx != [] {
      SetColorAbsent(ctx[0].sib, x, c);
      SetColorPlug(ctx[1..], Wrap(ctx[0], t), x, c);
    }
  }

  /** Painting keeps the keys, handles and shape. */
  lemma {:induction false} SetColorKeeps(t: Tree, x: nat, c: Color)
    ensures Inorder(SetColor(t, x, c)) == Inorder(t)
    ensures Ids(SetColor(t, x, c)) == Ids(t)
    ensures Distinct(SetColor(t, x, c)) == Distinct(t)
  {
    match t
    case Leaf =>
    case Node(_, l, _, _, r) =>
      SetColorKeeps(l, x, c);
      SetColorKeeps(r, x, c);
  }

  lemma {:induction false} RotateLeftAtAbsent(t: Tree, x: nat)
    requires x !in Ids(t)
    ensures RotateLeftAt(t, x) == t
  {
    match t
    case Leaf =>
    case Node(_, l, _, _, r) =>
      RotateLeftAtAbsent(l, x);
      RotateLeftAtAbsent(r, x);
  }

  lemma {:induction false} RotateRightAtAbsent(t: Tree, x: nat)
    requires x !in Ids(t)
    ensures RotateRightAt(t, x) == t
  {
    match t
    case Leaf =>
    case Node(_, l, _, _, r) =>
      RotateRightAtAbsent(l, x);
      RotateRightAtAbsent(r, x);
  }

  /** Rotating at a node below the cursor leaves the ancestors alone. */
  lemma {:induction false} RotateLeftAtPlug(ctx: seq<Frame>, t: Tree, x: nat)
    requires x !in CtxIds(ctx)
    ensures RotateLeftAt(Plug(ctx, t), x) == Plug(ctx, RotateLeftAt(t, x))
    decreases |ctx|
  {
    if ctx != [] {
      RotateLeftAtAbsent(ctx[0].sib, x);
      RotateLeftAtPlug(ctx[1..], Wrap(ctx[0], t), x);
    }
  }

  lemma {:induction false} RotateRightAtPlug(ctx: seq<Frame>, t: Tree, x: nat)
    requires x !in CtxIds(ctx)
    ensures RotateRightAt(Plug(ctx, t), x) == Plug(ctx, RotateRightAt(t, x))
    decreases |ctx|
  {
    if ctx != [] {
      RotateRightAtAbsent(ctx[0].sib, x);
      RotateRightAtPlug(ctx[1..], Wrap(ctx[0], t), x);
    }
  }

  /** A rotation only relinks: the in-order keys, the handles, and every
      node's key and colour stay the same, and the links still form a tree. */
  lemma RotateKeeps(t: Tree)
    ensures Inorder(RotateLeft(t)) == Inorder(t) && Inorder(RotateRight(t)) == Inorder(t)
    ensures Ids(RotateLeft(t)) == Ids(t) && Ids(RotateRight(t)) == Ids(t)
    ensures Entries(RotateLeft(t)) == Entries(t) && Entries(RotateRight(t)) == Entries(t)
    ensures Distinct(t) ==> Distinct(RotateLeft(t)) && Distinct(RotateRight(t))
  {
    RotateLeftKeeps(t);
    RotateRightKeeps(t);
  }

  lemma RotateLeftKeeps(t: Tree)
    ensures Inorder(RotateLeft(t)) == Inorder(t) && Ids(RotateLeft(t)) == Ids(t)
    ensures Entries(RotateLeft(t)) == Entries(t)
    ensures Distinct(t) ==> Distinct(RotateLeft(t))
  {
    if t.Node? && t.right.Node? && Distinct(t) {
      var Node(c, l, x, k, r) := t;
      var Node(cy, b, y, ky, g) := r;
      assert Distinct(r);
      assert Distinct(b) && Ids(b) <= Ids(r);
      assert Distinct(Node(c, l, x, k, b));
      assert Ids(Node(c, l, x, k, b)) == Ids(l) + {x} + Ids(b);
    }
  }

  lemma RotateRightKeeps(t: Tree)
    ensures Inorder(RotateRight(t)) == Inorder(t) && Ids(RotateRight(t)) == Ids(t)
    ensures Entries(RotateRight(t)) == Entries(t)
    ensures Distinct(t) ==> Distinct(RotateRight(t))
  {
    if t.Node? && t.left.Node? && Distinct(t) {
      var Node(c, l, x, k, r) := t;
      var Node(cy, a, y, ky, b) := l;
      assert Distinct(l);
      assert Distinct(b) && Ids(b) <= Ids(l);
      assert Distinct(Node(c, b, x, k, r));
      assert Ids(Node(c, b, x, k, r)) == Ids(b) + {x} + Ids(r);
    }
  }

  lemma {:induction false} RotateLeftAtKeeps(t: Tree, x: nat)
    ensures Inorder(RotateLeftAt(t, x)) == Inorder(t)
    ensures Ids(RotateLeftAt(t, x)) == Ids(t)
    ensures Entries(RotateLeftAt(t, x)) == Entries(t)
    ensures Distinct(t) ==> Distinct(RotateLeftAt(t, x))
  {
    match t
    case Leaf =>
    case Node(_, l, id, _, r) =>
      if id == x {
        RotateKeeps(t);
      } else {
        RotateLeftAtKeeps(l, x);
        RotateLeftAtKeeps(r, x);
      }
  }

  lemma {:induction false} RotateRightAtKeeps(t: Tree, x: nat)
    ensures Inorder(RotateRightAt(t, x)) == Inorder(t)
    ensures Ids(RotateRightAt(t, x)) == Ids(t)
    ensures Entries(RotateRightAt(t, x)) == Entries(t)
    ensures Distinct(t) ==> Distinct(RotateRightAt(t, x))
  {
    match t
    case Leaf =>
    case Node(_, l, id, _, r) =>
      if id == x {
        RotateKeeps(t);
      } else {
        RotateRightAtKeeps(l, x);
        RotateRightAtKeeps(r, x);
      }
  }

  /** `left_rotate(x)` followed by `right_rotate` on `x`'s new parent restores
      the tree exactly. */
  lemma RotateLeftThenRightAt(t: Tree, x: nat)
    requires Distinct(t) && x in Ids(t) && Child(SubtreeAt(t, x), Right).Node?
    ensures RotateRightAt(RotateLeftAt(t, x), Child(SubtreeAt(t, x), Right).id) == t
  {
    var path, s := PathTo(t, x), SubtreeAt(t, x);
    LocateNode(t, x);
    var y := s.right.id;
    PlugDistinct(path, s);
    PlugIds(path, s);
    RotateLeftAtPlug(path, s, x);
    RotateRightAtPlug(path, RotateLeft(s), y);
  }

  /** The mirror image: `right_rotate(x)` then `left_rotate` on `x`'s new
      parent. */
  lemma RotateRightThenLeftAt(t: Tree, x: nat)
    requires Distinct(t) && x in Ids(t) && Child(SubtreeAt(t, x), Left).Node?
    ensures RotateLeftAt(RotateRightAt(t, x), Child(SubtreeAt(t, x), Left).id) == t
  {
    var path, s := PathTo(t, x), SubtreeAt(t, x);
    LocateNode(t, x);
    var y := s.left.id;
    PlugDistinct(path, s);
    PlugIds(path, s);
    RotateRightAtPlug(path, s, x);
    RotateLeftAtPlug(path, RotateRight(s), y);
  }

  /** The rotation that lifts the child on the side opposite `d`:
      `left_rotate` for `d == Left`, `right_rotate` for `d == Right`. */
  function Rotate(d: Side, t: Tree): Tree
  {
    if d == Left then RotateLeft(t) else RotateRight(t)
  }

  function RotateAt(d: Side, t: Tree, x: nat): Tree
  {
    if d == Left then RotateLeftAt(t, x) else RotateRightAt(t, x)
  }

  /** A rotation seen through frames: the node `x` with `a` on side `d` and
      `y` on the other side becomes `y`'s child on side `d`, adopting `y`'s
      inner subtree `b`. */
  lemma RotateWrap(d: Side, c: Color, a: Tree, x: nat, k: int, cy: Color, b: Tree, y: nat, ky: int, g: Tree)
    ensures Rotate(d, Wrap(Frame(d, c, x, k, Wrap(Frame(d, cy, y, ky, g), b)), a))
         == Wrap(Frame(d, cy, y, ky, g), Wrap(Frame(d, c, x, k, b), a))
  {
  }

  /** Painting the cursor node of a tree whose links form a tree. */
  lemma PaintCursor(ctx: seq<Frame>, t: Tree, c: Color)
    requires Distinct(Plug(ctx, t)) && t.Node?
    ensures SetColor(Plug(ctx, t), t.id, c) == Plug(ctx, t.(color := c))
  {
    PlugDistinct(ctx, t);
    SetColorPlug(ctx, t, t.id, c);
  }

  /** Rotating at the cursor node of a tree whose links form a tree. */
  lemma RotateCursor(d: Side, ctx: seq<Frame>, t: Tree)
    requires Distinct(Plug(ctx, t)) && t.Node?
    ensures RotateAt(d, Plug(ctx, t), t.id) == Plug(ctx, Rotate(d, t))
  {
    PlugDistinct(ctx, t);
    if d == Left {
      RotateLeftAtPlug(ctx, t, t.id);
    } else {
      RotateRightAtPlug(ctx, t, t.id);
    }
  }
}
