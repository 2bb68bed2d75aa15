/** The cases of `__rb_delete_fixup` as the pointer code performs them: the
    colour writes and the rotation of each case, applied to the whole tree,
    give the tree `DeleteFix` describes for that case. `d` is the side the
    cursor `x` hangs on below its parent `p`; the pointer code's first branch
    is `d == Left`, its second the mirror image. */
module DeleteSteps {
  import opened Trees
  import opened Zipper
  import opened Coloring
  import opened Edits
  import opened Deletion

  /** Case 1, a red sibling `w`: `w` turns black, `p` red, and the rotation
      at `p` towards `d` lifts `w`, leaving the ancestors `Case1(ctx)`. */
  lemma Case1Turns(ctx: seq<Frame>, x: Tree)
    requires Distinct(Plug(ctx, x)) && ctx != [] && ctx[0].sib.Node? && ctx[0].sib.color == Red
    ensures var p, w := ctx[0], ctx[0].sib;
      var s := Wrap(Frame(p.side, Red, p.id, p.key, w.(color := Black)), x);
      SetColor(SetColor(Plug(ctx, x), w.id, Black), p.id, Red) == Plug(ctx[1..], s) &&
      Plug(ctx[1..], Rotate(p.side, s)) == Plug(Case1(ctx), x)
  {
    var p, w, rest, d := ctx[0], ctx[0].sib, ctx[1..], ctx[0].side;
    var t := Wrap(p, x);
    assert Plug(ctx, x) == Plug(rest, t);
    PlugDistinct(rest, t);
    assert Distinct(t) && w.id in Ids(w) && p.id !in Ids(w) && w.id !in Ids(x) && p.id !in Ids(x);
    SetColorPlug(rest, t, w.id, Black);
    SetColorAbsent(x, w.id, Black);
    var t1 := Wrap(p.(sib := w.(color := Black)), x);
    assert SetColor(t, w.id, Black) == t1;
    SetColorPlug(rest, t1, p.id, Red);
    var s := Wrap(Frame(d, Red, p.id, p.key, w.(color := Black)), x);
    assert SetColor(t1, p.id, Red) == s;
    assert w.(color := Black) == Wrap(Frame(d, Black, w.id, w.key, Child(w, Opp(d))), Child(w, d));
    RotateWrap(d, Red, x, p.id, p.key, Black, Child(w, d), w.id, w.key, Child(w, Opp(d)));
    var c := Case1(ctx);
    assert c[1..][1..] == rest && c[0] == Frame(d, Red, p.id, p.key, Child(w, d));
  }

  /** Case 2, a black sibling `w` with two black children: `w` turns red,
      and the cursor moves up to `p`. */
  lemma Case2Paints(c: seq<Frame>, x: Tree)
    requires Distinct(Plug(c, x)) && c != [] && c[0].sib.Node?
    ensures SetColor(Plug(c, x), c[0].sib.id, Red) == Plug(c[1..], Wrap(c[0].(sib := Redden(c[0].sib)), x))
  {
    var p, w := c[0], c[0].sib;
    var t := Wrap(p, x);
    assert Plug(c, x) == Plug(c[1..], t);
    PlugDistinct(c[1..], t);
    assert w.id in Ids(w) && w.id != p.id && w.id !in Ids(x);
    SetColorPlug(c[1..], t, w.id, Red);
    SetColorAbsent(x, w.id, Red);
  }

  /** Case 3, a black sibling `w` whose far child is black and near child
      `n` red: `n` turns black, `w` red, and the rotation at `w` away from
      `d` lifts `n`, which becomes the sibling `Case3(d, w)`. The rotation
      sees `w` as the cursor, below `p` (on the side away from `d`). */
  lemma Case3Turns(c: seq<Frame>, x: Tree)
    requires Distinct(Plug(c, x)) && c != [] && c[0].sib.Node? && Child(c[0].sib, c[0].side).Node?
    ensures var p, w, d := c[0], c[0].sib, c[0].side;
      var n := Child(w, d);
      var cw := [Frame(Opp(d), p.color, p.id, p.key, x)] + c[1..];
      var s := Wrap(Frame(d, Red, w.id, w.key, Child(w, Opp(d))), n.(color := Black));
      Plug(c, x) == Plug(cw, w) && n.id in Ids(Plug(c, x)) && w.id in Ids(Plug(c, x)) &&
      SetColor(SetColor(Plug(c, x), n.id, Black), w.id, Red) == Plug(cw, s) &&
      Plug(cw, Rotate(Opp(d), s)) == Plug([p.(sib := Case3(d, w))] + c[1..], x)
  {
    var p, w, d, rest := c[0], c[0].sib, c[0].side, c[1..];
    var n, far := Child(w, d), Child(w, Opp(d));
    var cw := [Frame(Opp(d), p.color, p.id, p.key, x)] + rest;
    assert cw[0] == Frame(Opp(d), p.color, p.id, p.key, x) && cw[1..] == rest;
    assert Wrap(cw[0], w) == Wrap(p, x);
    assert Plug(c, x) == Plug(cw, w);
    PlugDistinct(cw, w);
    PlugIds(cw, w);
    assert n.id in Ids(w) && w.id != n.id;
    PaintCursorChild(cw, w, d, Black);
    var w1 := Wrap(Frame(d, w.color, w.id, w.key, far), n.(color := Black));
    SetColorKeeps(Plug(cw, w), n.id, Black);
    PaintCursor(cw, w1, Red);
    var s := Wrap(Frame(d, Red, w.id, w.key, far), n.(color := Black));
    assert w1.(color := Red) == s;
    var s' := Wrap(Frame(Opp(d), Red, w.id, w.key, n.(color := Black)), far);
    assert s == s';
    RotateWrap(Opp(d), Red, far, w.id, w.key, Black, Child(n, Opp(d)), n.id, n.key, Child(n, d));
    assert n.(color := Black) == Wrap(Frame(Opp(d), Black, n.id, n.key, Child(n, d)), Child(n, Opp(d)));
    var c3 := [p.(sib := Case3(d, w))] + rest;
    assert c3[0] == p.(sib := Case3(d, w)) && c3[1..] == rest;
  }

  /** Painting the child on side `d` of the cursor node. */
  lemma PaintCursorChild(ctx: seq<Frame>, t: Tree, d: Side, c: Color)
    requires Distinct(Plug(ctx, t)) && t.Node? && Child(t, d).Node?
    ensures SetColor(Plug(ctx, t), Child(t, d).id, c) ==
      Plug(ctx, Wrap(Frame(d, t.color, t.id, t.key, Child(t, Opp(d))), Child(t, d).(color := c)))
  {
    var f := Frame(d, t.color, t.id, t.key, Child(t, Opp(d)));
    var n := Child(t, d);
    assert Wrap(f, n) == t;
    assert ([f] + ctx)[1..] == ctx && ([f] + ctx)[0] == f;
    assert Plug([f] + ctx, n) == Plug(ctx, t);
    PaintCursor([f] + ctx, n, c);
  }

  /** Case 4, a black sibling `w` with a red far child: `w` takes `p`'s
      colour, `p` and the far child turn black, and the rotation at `p`
      towards `d` lifts `w`, giving `Case4(d, p, x, w)`. */
  lemma Case4Turns(c: seq<Frame>, x: Tree)
    requires Distinct(Plug(c, x)) && c != [] && c[0].sib.Node? && Child(c[0].sib, Opp(c[0].side)).Node?
    ensures var p, w, d := c[0], c[0].sib, c[0].side;
      var far := Child(w, Opp(d));
      var s := Wrap(Frame(d, Black, p.id, p.key, Wrap(Frame(d, p.color, w.id, w.key, Blacken(far)), Child(w, d))), x);
      w.id in Ids(Plug(c, x)) && p.id in Ids(Plug(c, x)) && far.id in Ids(Plug(c, x)) &&
      SetColor(SetColor(SetColor(Plug(c, x), w.id, p.color), p.id, Black), far.id, Black) == Plug(c[1..], s) &&
      Plug(c[1..], Rotate(d, s)) == Plug(c[1..], Case4(d, p, x, w))
  {
    var p, w, d, rest := c[0], c[0].sib, c[0].side, c[1..];
    var far := Child(w, Opp(d));
    var cw := [Frame(Opp(d), p.color, p.id, p.key, x)] + rest;
    assert cw[0] == Frame(Opp(d), p.color, p.id, p.key, x) && cw[1..] == rest;
    assert Wrap(cw[0], w) == Wrap(p, x);
    assert Plug(c, x) == Plug(cw, w);
    PlugIds(cw, w);
    PlugIds(rest, Wrap(p, x));
    assert far.id in Ids(w) && p.id in CtxIds(cw);
    PaintCursor(cw, w, p.color);
    var w1 := w.(color := p.color);
    assert Plug(cw, w1) == Plug(rest, Wrap(p.(sib := w1), x));
    PlugDistinct(cw, w);
    assert Distinct(Plug(rest, Wrap(p.(sib := w1), x))) by {
      SetColorKeeps(Plug(c, x), w.id, p.color);
    }
    PaintCursor(rest, Wrap(p.(sib := w1), x), Black);
    var t2 := Wrap(p.(sib := w1, color := Black), x);
    assert Wrap(p.(sib := w1), x).(color := Black) == t2;
    var cf := [Frame(Opp(d), Black, p.id, p.key, x)] + rest;
    assert cf[0] == Frame(Opp(d), Black, p.id, p.key, x) && cf[1..] == rest;
    assert Plug(cf, w1) == Plug(rest, t2);
    assert Distinct(Plug(cf, w1)) by {
      SetColorKeeps(Plug(rest, Wrap(p.(sib := w1), x)), p.id, Black);
      SetColorKeeps(Plug(c, x), w.id, p.color);
    }
    PaintCursorChild(cf, w1, Opp(d), Black);
    var s := Wrap(Frame(d, Black, p.id, p.key, Wrap(Frame(d, p.color, w.id, w.key, Blacken(far)), Child(w, d))), x);
    assert Wrap(Frame(Opp(d), p.color, w.id, w.key, Child(w, d)), far.(color := Black)) ==
      Wrap(Frame(d, p.color, w.id, w.key, Blacken(far)), Child(w, d));
    assert Wrap(cf[0], Wrap(Frame(Opp(d), p.color, w.id, w.key, Child(w, d)), far.(color := Black))) == s;
    RotateWrap(d, Black, x, p.id, p.key, p.color, Child(w, d), w.id, w.key, Blacken(far));
  }
}
