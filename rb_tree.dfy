/** `rb_tree`: the pointer implementation. Node objects live in an arena of
    slots indexed by handle; slot 0 is the one black sentinel every missing
    child (and the root's parent) points to. The ghost field `tree` is the
    abstract tree the arena holds, and every operation is proved to act on it
    as the functions of the other modules say. */
module RbTrees {
  import opened Trees
  import opened Zipper
  import opened Coloring
  import opened Search
  import opened Edits
  import opened Arena
  import opened Relink
  import opened Insertion
  import opened Deletion
  import opened DeleteSteps
  import opened Splicing
  import opened FixupReads
  import opened Successor

  datatype Option<T> = None | Some(value: T)

  /** The `KeyError` the pointer code raises, with its message. */
  datatype Error = KeyError(message: string)

  datatype Result<T> = Success(value: T) | Failure(error: Error)

  const NoRoot := KeyError("Error, tree has no root")
  const NotFound := KeyError("Error, data not found")
  /** A `KeyError` raised without a message. */
  const Bare := KeyError("")

  class RbTree {
    /** The node objects; `nodes[0]` is the sentinel. */
    var nodes: seq<Slot>
    /** `root`: `None` until the first insertion; the sentinel once the last
        node has been deleted. */
    var root: Option<nat>
    /** The tree the links describe. */
    ghost var tree: Tree

    /** The links form the tree `tree` hanging below the sentinel, whose own
        child links point to itself and whose colour is black. */
    ghost predicate Linked()
      reads this
    {
      |nodes| > 0 && nodes[0].color == Black && nodes[0].left == 0 && nodes[0].right == 0 &&
      Rep(nodes, tree, 0) && Distinct(tree) &&
      (root.None? ==> tree == Leaf) && (root.Some? ==> root.value == Id(tree))
    }

    /** ... and the keys are in binary-search-tree order. */
    ghost predicate Valid()
      reads this
    {
      Linked() && Ordered(tree)
    }

    /** `__init__`: no root, and a fresh sentinel. */
    constructor ()
      ensures Valid() && root == None && tree == Leaf
    {
      nodes := [Slot(0, Black, 0, 0, 0)];
      root := None;
      tree := Leaf;
    }

    /** `__traverse`: the nodes below `n` in the given order. */
    function Walk(n: nat, order: Order, ghost t: Tree, ghost p: nat): (r: seq<nat>)
      reads this
      requires Rep(nodes, t, p) && n == Id(t) && n < |nodes|
      ensures r == Traverse(t, order)
      decreases t
    {
      if n == 0 then []
      else Join(Walk(nodes[n].left, order, t.left, n), n, Walk(nodes[n].right, order, t.right, n), order)
    }

    /** `inorder`, `preorder` and `postorder` (and `__iter__`, which is
        `inorder`): every node of the tree, each once, in the given order. */
    function Traversal(order: Order): (r: seq<nat>)
      reads this
      requires Linked() && root.Some?
      ensures r == Traverse(tree, order)
      ensures NoDup(r) && forall x :: x in r <==> x in Ids(tree)
      ensures |r| == |TraverseKeys(tree, order)|
      ensures forall i :: 0 <= i < |r| ==> 0 < r[i] < |nodes| && nodes[r[i]].key == TraverseKeys(tree, order)[i]
      ensures order == InOrder && Ordered(tree) ==> Sorted(TraverseKeys(tree, order))
    {
      TraverseVisitsEachNodeOnce(tree, order);
      RepTraverseKeys(nodes, tree, 0, order);
      InorderTraversal(tree);
      Walk(root.value, order, tree, 0)
    }

    /** `__get`: the first node with key `k` on the search path from `n`; the
        sentinel stands for the `None` returned at the bottom. */
    function Get(k: int, n: nat, ghost t: Tree, ghost p: nat): (r: nat)
      reads this
      requires Rep(nodes, t, p) && n == Id(t) && n < |nodes|
      ensures r == Id(Find(t, k))
      decreases t
    {
      if n == 0 then 0
      else if nodes[n].key == k then n
      else if k < nodes[n].key then Get(k, nodes[n].left, t.left, n)
      else Get(k, nodes[n].right, t.right, n)
    }

    /** `find_node`: the node holding `k`, or the `KeyError` for a tree
        without a root or without the key. */
    function FindNode(k: int): (r: Result<nat>)
      reads this
      requires Valid()
      ensures root.None? ==> r == Failure(NoRoot)
      ensures root.Some? ==> (r.Success? <==> k in Inorder(tree))
      ensures root.Some? && r.Failure? ==> r == Failure(NotFound)
      ensures r.Success? ==>
        (Find(tree, k).Node? && r.value == Find(tree, k).id && r.value in Ids(tree) &&
         r.value < |nodes| && nodes[r.value].key == k)
    {
      if root.None? then Failure(NoRoot)
      else
        FindCorrect(tree, k);
        RepFind(nodes, tree, k);
        var res := Get(k, root.value, tree, 0);
        if res != 0 then Success(res) else Failure(NotFound)
    }

    /** The walk down left links shared by `find_min` and `find_successor`:
        the leftmost node of the subtree at `n`. */
    method Leftmost(n: nat, ghost t: Tree, ghost p: nat) returns (m: nat)
      requires Linked() && Rep(nodes, t, p) && n == Id(t) && n < |nodes|
      ensures m == MinId(t) && m < |nodes|
    {
      m := n;
      ghost var s, q := t, p;
      while nodes[m].left != 0
        invariant Rep(nodes, s, q) && m == Id(s) && m < |nodes|
        invariant MinNode(s) == MinNode(t)
        decreases s
      {
        q := m;
        s := s.left;
        m := nodes[m].left;
      }
    }

    /** `find_min`: the leftmost node, whose key is the smallest; the
        sentinel for a tree whose root is the sentinel. A tree without a root
        makes the pointer code fail, so one is required. */
    method FindMin() returns (m: nat)
      requires Valid() && root.Some?
      ensures m == MinId(tree)
      ensures tree.Node? ==>
        (m in Ids(tree) && m < |nodes| && nodes[m].key == Inorder(tree)[0] &&
         forall k :: k in Inorder(tree) ==> nodes[m].key <= k)
      ensures tree.Leaf? ==> m == 0
    {
      m := Leftmost(root.value, tree, 0);
      if tree.Node? {
        MinNodeFacts(tree);
        MinIsMinimum(tree);
        RepCursor(nodes, MinPath(tree), MinNode(tree), 0);
      }
    }

    /** `find_successor`, as written: the node is looked up with `find_node`
        (whose errors it passes on); `current_node.right` is a node object
        and so always true, which sends the walk down the right subtree every
        time. The result is the leftmost node of the right subtree, or the
        sentinel when that subtree is empty. */
    method FindSuccessor(k: int) returns (r: Result<nat>)
      requires Valid()
      ensures FindNode(k).Failure? ==> r == FindNode(k)
      ensures FindNode(k).Success? ==> r == Success(MinId(Find(tree, k).right))
    {
      var f := FindNode(k);
      if f.Failure? {
        return f;
      }
      FindPlug(tree, k);
      var z := Find(tree, k);
      RepCursor(nodes, FindPath(tree, k), z, 0);
      RepPlug(nodes, FindPath(tree, k), z, 0);
      var s := Leftmost(nodes[f.value].right, z.right, z.id);
      return Success(s);
    }

    /** `find_successor` as its comments describe it: down to the leftmost
        node of the right subtree when there is one, and otherwise up the
        parent links until the walk leaves a left child, the sentinel meaning
        there is no successor (`None`). The answer is the node that follows
        the one holding `k` in in-order. */
    method InorderSuccessor(k: int) returns (r: Result<Option<nat>>)
      requires Valid()
      ensures FindNode(k).Failure? ==> r == Failure(FindNode(k).error)
      ensures FindNode(k).Success? ==> r.Success?
      ensures FindNode(k).Success? ==>
        var s := Next(Traverse(tree, InOrder), FindNode(k).value);
        r.value == if s == 0 then None else Some(s)
      ensures FindNode(k).Success? && Find(tree, k).right.Node? ==>
        r == Success(Some(MinId(Find(tree, k).right)))
    {
      var f := FindNode(k);
      if f.Failure? {
        return Failure(f.error);
      }
      FindPlug(tree, k);
      ghost var ctx, zt := FindPath(tree, k), Find(tree, k);
      SuccessorIsNext(ctx, zt);
      RepCursor(nodes, ctx, zt, 0);
      RepPlug(nodes, ctx, zt, 0);
      var cur := f.value;
      var s: nat;
      if nodes[cur].right != 0 {
        s := Leftmost(nodes[cur].right, zt.right, zt.id);
        MinNodeFacts(zt.right);
        RepIds(nodes, zt.right, zt.id);
      } else {
        var parent := nodes[cur].parent;
        ghost var c, t := ctx, zt;
        RepParent(nodes, c, t);
        while parent != 0 && cur != nodes[parent].left
          invariant Plug(c, t) == tree && t.Node? && cur == t.id && parent == ParentOf(c, 0) < |nodes|
          invariant FirstAfter(c) == FirstAfter(ctx)
          decreases |c|
        {
          ParentLink(nodes, c, t, 0);
          cur := parent;
          parent := nodes[parent].parent;
          t := Wrap(c[0], t);
          c := c[1..];
          RepParent(nodes, c, t);
        }
        ParentLink(nodes, c, t, 0);
        RepPlug(nodes, c, t, 0);
        s := parent;
      }
      r := Success(if s == 0 then None else Some(s));
    }

    /** A colour write `x.color = c`. The sentinel may only be painted black,
        which it already is. */
    method Paint(x: nat, c: Color)
      requires Linked() && (x in Ids(tree) || (x == 0 && c == Black))
      modifies this
      ensures Linked() && tree == SetColor(old(tree), x, c) && root == old(root)
      ensures Ids(tree) == Ids(old(tree)) && Inorder(tree) == Inorder(old(tree))
      ensures x < |old(nodes)| && nodes == if x == 0 then old(nodes) else old(nodes)[x := old(nodes)[x].(color := c)]
      ensures |nodes| == |old(nodes)| && nodes[0] == old(nodes[0])
    {
      SetColorKeeps(tree, x, c);
      if x == 0 {
        RepIds(nodes, tree, 0);
        SetColorAbsent(tree, x, c);
        return;
      }
      RepSetColor(nodes, tree, 0, x, c);
      SetColorKeeps(tree, x, c);
      nodes := nodes[x := nodes[x].(color := c)];
      tree := SetColor(tree, x, c);
    }

    /** The write shared by the rotations and `replace`: the link that held
        `x` in its parent `p` (or the root pointer, when `p` is the sentinel)
        now holds `y`. The link is the left one exactly when it held `x`. */
    method Hang(p: nat, x: nat, y: nat)
      requires p < |nodes|
      modifies this
      ensures p == 0 ==> root == Some(y) && nodes == old(nodes)
      ensures p != 0 ==> (root == old(root) &&
        nodes == old(nodes)[p := SetLink(old(nodes[p]), if old(nodes[p]).left == x then Left else Right, y)])
      ensures tree == old(tree)
    {
      if p == 0 {
        root := Some(y);
      } else if x == nodes[p].left {
        nodes := nodes[p := nodes[p].(left := y)];
      } else {
        nodes := nodes[p := nodes[p].(right := y)];
      }
    }

    /** The writes of `left_rotate` (`d == Left`) and `right_rotate`, in
        their order, for a node `x` whose child on the side opposite `d` is
        `y`. */
    method Relink(d: Side, x: nat, y: nat)
      requires 0 < x < |nodes| && 0 < y < |nodes| && x != y
      requires var b, p := Link(nodes[y], d), nodes[x].parent;
        b < |nodes| && p < |nodes| && b != x && b != y && p != x && p != y && (b != 0 ==> b != p)
      modifies this
      ensures nodes == RotateWrites(old(nodes), d, x, y, Link(old(nodes[y]), d), old(nodes[x].parent))
      ensures root == (if old(nodes[x].parent) == 0 then Some(y) else old(root)) && tree == old(tree)
    {
      var b := Link(nodes[y], d);
      nodes := nodes[x := SetLink(nodes[x], Opp(d), b)];
      if b != 0 {
        nodes := nodes[b := nodes[b].(parent := x)];
      }
      var p := nodes[x].parent;
      nodes := nodes[y := nodes[y].(parent := p)];
      Hang(p, x, y);
      nodes := nodes[y := SetLink(nodes[y], d, x)];
      nodes := nodes[x := nodes[x].(parent := y)];
    }

    /** The rotation at the node `x`, the root of the cursor subtree `t`:
        `left_rotate` for `d == Left`, `right_rotate` for `d == Right`. The
        child `y` of `x` on the side opposite `d` takes its place, and `x`
        becomes `y`'s child on side `d`, adopting `y`'s inner subtree. Without
        such a child a `KeyError` is raised and nothing changes. */
    method RotateNode(d: Side, x: nat, ghost ctx: seq<Frame>, ghost t: Tree) returns (r: Result<()>)
      requires Linked() && tree == Plug(ctx, t) && t.Node? && x == t.id
      modifies this
      ensures Child(t, Opp(d)).Leaf? ==>
        (r == Failure(Bare) && nodes == old(nodes) && root == old(root) && tree == old(tree))
      ensures Child(t, Opp(d)).Node? ==>
        (r == Success(()) && Linked() && tree == Plug(ctx, Rotate(d, t)) &&
         Inorder(tree) == Inorder(old(tree)))
      ensures |nodes| == |old(nodes)| && nodes[0] == old(nodes[0])
    {
      RepCursor(nodes, ctx, t, 0);
      if Child(t, Opp(d)).Node? {
        RotateCursorRep(nodes, d, ctx, t);
      }
      var y := Link(nodes[x], Opp(d));
      if y == 0 {
        return Failure(Bare);
      }
      Relink(d, x, y);
      tree := Plug(ctx, Rotate(d, t));
      r := Success(());
    }

    /** `left_rotate` and `right_rotate` (`d == Left`, `d == Right`) at the
        node `x` or the sentinel: a `KeyError` when `x` has no child on the
        side opposite `d` (always at the sentinel), otherwise the rotation,
        which keeps the keys in order. */
    method Turn(d: Side, x: nat) returns (r: Result<()>)
      requires Valid() && (x == 0 || x in Ids(tree))
      modifies this
      ensures r.Failure? <==> x == 0 || Child(SubtreeAt(old(tree), x), Opp(d)).Leaf?
      ensures r.Failure? ==> (r == Failure(Bare) && tree == old(tree) && nodes == old(nodes) && root == old(root))
      ensures r.Success? ==> tree == RotateAt(d, old(tree), x)
      ensures r.Success? ==>
        root == if Id(old(tree)) == x then Some(Child(SubtreeAt(old(tree), x), Opp(d)).id) else old(root)
      ensures Valid() && Inorder(tree) == Inorder(old(tree))
    {
      if x == 0 {
        return Failure(Bare);
      }
      LocateNode(tree, x);
      ghost var ctx, t := PathTo(tree, x), SubtreeAt(tree, x);
      RotateCursor(d, ctx, t);
      PlugId(ctx, t);
      r := RotateNode(d, x, ctx, t);
      PlugId(ctx, Rotate(d, t));
    }

    method LeftRotate(x: nat) returns (r: Result<()>)
      requires Valid() && (x == 0 || x in Ids(tree))
      modifies this
      ensures r.Failure? <==> x == 0 || Child(SubtreeAt(old(tree), x), Right).Leaf?
      ensures r.Failure? ==> (r == Failure(Bare) && tree == old(tree) && nodes == old(nodes) && root == old(root))
      ensures r.Success? ==> tree == RotateLeftAt(old(tree), x)
      ensures r.Success? ==>
        root == if Id(old(tree)) == x then Some(Child(SubtreeAt(old(tree), x), Right).id) else old(root)
      ensures Valid() && Inorder(tree) == Inorder(old(tree))
    {
      if x != 0 {
        LocateNode(tree, x);
      }
      r := Turn(Left, x);
    }

    method RightRotate(x: nat) returns (r: Result<()>)
      requires Valid() && (x == 0 || x in Ids(tree))
      modifies this
      ensures r.Failure? <==> x == 0 || Child(SubtreeAt(old(tree), x), Left).Leaf?
      ensures r.Failure? ==> (r == Failure(Bare) && tree == old(tree) && nodes == old(nodes) && root == old(root))
      ensures r.Success? ==> tree == RotateRightAt(old(tree), x)
      ensures r.Success? ==>
        root == if Id(old(tree)) == x then Some(Child(SubtreeAt(old(tree), x), Left).id) else old(root)
      ensures Valid() && Inorder(tree) == Inorder(old(tree))
    {
      if x != 0 {
        LocateNode(tree, x);
      }
      r := Turn(Right, x);
    }

    /** `__put`: the walk down from the cursor node `cur` (keys smaller than a
        node's go left, the others right) that hangs a new red node with
        sentinel children at the sentinel link it ends on. The new node object
        gets the next free handle, `n`. */
    method PutAt(k: int, cur: nat, ghost ctx: seq<Frame>, ghost t: Tree) returns (n: nat)
      requires Linked() && tree == Plug(ctx, t) && t.Node? && cur == t.id
      modifies this
      ensures n == old(|nodes|) && |nodes| == n + 1 && nodes[0] == old(nodes[0]) && root == old(root)
      ensures Linked() && tree == Plug(ctx, Put(t, k, n))
      decreases t
    {
      RepCursor(nodes, ctx, t, 0);
      var d := if k < nodes[cur].key then Left else Right;
      var c := Link(nodes[cur], d);
      ghost var s := if d == Left then t.left else t.right;
      ghost var f := Frame(d, t.color, t.id, t.key, Child(t, Opp(d)));
      assert t == Wrap(f, s) && Put(t, k, |nodes|) == Wrap(f, Put(s, k, |nodes|));
      assert ([f] + ctx)[1..] == ctx;
      if c != 0 {
        n := PutAt(k, c, [f] + ctx, s);
      } else {
        ghost var t' := Wrap(f, Node(Red, Leaf, |nodes|, k, Leaf));
        PutLinked(nodes, ctx, t, d, k);
        n := |nodes|;
        nodes := nodes + [Slot(k, Red, 0, 0, cur)];
        if d == Left {
          nodes := nodes[cur := nodes[cur].(left := n)];
        } else {
          nodes := nodes[cur := nodes[cur].(right := n)];
        }
        tree := Plug(ctx, t');
      }
    }

    /** `bst_insert`: the new red node holding `k` hung by `__put`, or, when
        there is no root or the root is the sentinel, made the root. Returns
        the new node. */
    method BstInsert(k: int) returns (z: nat)
      requires Valid()
      modifies this
      ensures Valid() && tree == Put(old(tree), k, old(|nodes|))
      ensures z == old(|nodes|) && |nodes| == z + 1 && nodes[0] == old(nodes[0])
    {
      PutOrdered(tree, k, |nodes|);
      if root.Some? && root.value != 0 {
        z := PutAt(k, root.value, [], tree);
      } else {
        z := |nodes|;
        nodes := nodes + [Slot(k, Red, 0, 0, 0)];
        root := Some(z);
        tree := Node(Red, Leaf, z, k, Leaf);
      }
    }

    /** One pass of the loop of `__rb_insert_fixup`, entered with the red
        cursor `z` below a red parent. `side` is the side the parent hangs on
        below the grandparent: the pointer code's first branch is
        `side == Left`, its second the mirror image. */
    method InsertPass(z: nat, ghost ctx: seq<Frame>, ghost zt: Tree) returns (z': nat, ghost ctx': seq<Frame>, ghost zt': Tree)
      requires Linked() && tree == Plug(ctx, zt) && InsertInv(ctx, zt) && zt.id == z
      requires ctx != [] && ctx[0].color == Red
      modifies this
      ensures Linked() && tree == Plug(ctx', zt') && InsertInv(ctx', zt') && zt'.id == z'
      ensures InsertFix(ctx', zt') == InsertFix(ctx, zt) && |ctx'| < |ctx|
      ensures |nodes| == old(|nodes|) && nodes[0] == old(nodes[0])
    {
      assert |ctx| >= 2;
      ghost var pf, gf := ctx[0], ctx[1];
      ghost var w := Wrap(pf, zt);
      assert ctx[1..][0] == gf;
      assert Plug(ctx[1..], w) == tree;
      ParentLink(nodes, ctx, zt, 0);
      ParentLink(nodes, ctx[1..], w, 0);
      RepPlug(nodes, ctx[1..], w, 0);
      RepColor(nodes, gf.sib, gf.id);
      var p := nodes[z].parent;
      var g := nodes[p].parent;
      var side := if p == nodes[g].left then Left else Right;
      var u := Link(nodes[g], Opp(side));
      if nodes[u].color == Red {
        z', ctx', zt' := InsertCase1(p, u, g, ctx, zt);
      } else {
        z', ctx', zt' := InsertCase23(z, p, side, ctx, zt);
      }
    }

    /** Case 1 of the pass, a red uncle `u`: the parent `p` and `u` turn black,
        the grandparent `g` red, and the cursor moves up to `g`. */
    method InsertCase1(p: nat, u: nat, g: nat, ghost ctx: seq<Frame>, ghost zt: Tree)
      returns (z': nat, ghost ctx': seq<Frame>, ghost zt': Tree)
      requires Linked() && tree == Plug(ctx, zt) && InsertInv(ctx, zt)
      requires |ctx| >= 2 && ctx[0].color == Red && ColorOf(ctx[1].sib) == Red
      requires p == ctx[0].id && g == ctx[1].id && u == Id(ctx[1].sib)
      modifies this
      ensures Linked() && tree == Plug(ctx', zt') && InsertInv(ctx', zt') && zt'.id == z'
      ensures InsertFix(ctx', zt') == InsertFix(ctx, zt) && |ctx'| < |ctx|
      ensures |nodes| == old(|nodes|) && nodes[0] == old(nodes[0])
    {
      ghost var pf, gf, rest := ctx[0], ctx[1], ctx[2..];
      assert ctx[1..][0] == gf && ctx[1..][1..] == rest;
      PlugIds(ctx, zt);
      assert p in Ids(tree) && g in Ids(tree) && u in Ids(tree);
      Case1Paints(ctx, zt);
      Case1Inv(ctx, zt);
      Paint(p, Black);
      Paint(u, Black);
      Paint(g, Red);
      z' := g;
      ctx' := rest;
      zt' := Wrap(Frame(gf.side, Red, gf.id, gf.key, Blacken(gf.sib)), Wrap(pf.(color := Black), zt));
    }

    /** Cases 2 and 3 of the pass, a black uncle: when `z` hangs on the side
        away from `side` below its parent `p`, the cursor moves to `p` and the
        rotation at `p` lifts `z` (case 2); then the parent turns black, the
        grandparent red, and the rotation at the grandparent lifts the parent
        (case 3). */
    method InsertCase23(z: nat, p: nat, side: Side, ghost ctx: seq<Frame>, ghost zt: Tree)
      returns (z': nat, ghost ctx': seq<Frame>, ghost zt': Tree)
      requires Linked() && tree == Plug(ctx, zt) && InsertInv(ctx, zt) && zt.id == z
      requires |ctx| >= 2 && ctx[0].color == Red && ColorOf(ctx[1].sib) == Black
      requires p == ctx[0].id && side == ctx[1].side
      modifies this
      ensures Linked() && tree == Plug(ctx', zt') && InsertInv(ctx', zt') && zt'.id == z'
      ensures InsertFix(ctx', zt') == InsertFix(ctx, zt) && |ctx'| < |ctx|
      ensures |nodes| == old(|nodes|) && nodes[0] == old(nodes[0])
    {
      ghost var pf, gf, rest := ctx[0], ctx[1], ctx[2..];
      ghost var d := side;
      ghost var w := Wrap(pf, zt);
      assert ctx[1..][0] == gf && ctx[1..][1..] == rest;
      assert Plug(ctx[1..], w) == tree;
      ParentLink(nodes, ctx, zt, 0);
      Case23Inv(ctx, zt);
      ghost var z1, p1 := Straighten(d, pf, zt).0, Straighten(d, pf, zt).1;
      ghost var c1 := [p1, gf] + rest;
      assert c1[1..] == ctx[1..];
      z' := z;
      if z == Link(nodes[p], Opp(side)) {
        z' := p;
        StraightenRotates(d, pf, zt);
        var _ := RotateNode(side, z', ctx[1..], w);
      }
      assert tree == Plug(c1, z1) && z' == z1.id;
      PlugIds(c1, z1);
      ParentLink(nodes, c1, z1, 0);
      ParentLink(nodes, c1[1..], Wrap(p1, z1), 0);
      var p2 := nodes[z'].parent;
      var g2 := nodes[p2].parent;
      assert p2 in Ids(tree) && g2 in Ids(tree);
      Case3Rotates(d, p1, gf, rest, z1);
      Paint(p2, Black);
      Paint(g2, Red);
      var _ := RotateNode(Opp(side), g2, rest, Wrap(gf.(color := Red), Wrap(p1.(color := Black), z1)));
      ctx' := [Frame(d, Black, p1.id, p1.key, Wrap(Frame(d, Red, gf.id, gf.key, gf.sib), p1.sib))] + rest;
      zt' := z1;
    }

    /** `__rb_insert_fixup`: passes of the loop while the cursor's parent is
        red, then the root painted black. The result is `InsertFix`. */
    method InsertFixup(z0: nat, ghost ctx0: seq<Frame>, ghost zt0: Tree)
      requires Linked() && tree == Plug(ctx0, zt0) && InsertInv(ctx0, zt0) && zt0.id == z0
      modifies this
      ensures Linked() && tree == InsertFix(ctx0, zt0)
      ensures |nodes| == old(|nodes|) && nodes[0] == old(nodes[0])
    {
      var z := z0;
      ghost var ctx, zt := ctx0, zt0;
      RepParent(nodes, ctx, zt);
      while nodes[nodes[z].parent].color == Red
        invariant Linked() && tree == Plug(ctx, zt) && InsertInv(ctx, zt) && zt.id == z
        invariant InsertFix(ctx, zt) == InsertFix(ctx0, zt0)
        invariant z < |nodes| && nodes[z].parent == ParentOf(ctx, 0) < |nodes|
        invariant ctx != [] ==> nodes[ctx[0].id].color == ctx[0].color
        invariant |nodes| == old(|nodes|) && nodes[0] == old(nodes[0])
        decreases |ctx|
      {
        z, ctx, zt := InsertPass(z, ctx, zt);
        RepParent(nodes, ctx, zt);
      }
      PlugId(ctx, zt);
      PaintCursor([], tree, Black);
      assert InsertFix(ctx, zt) == Blacken(tree);
      Paint(root.value, Black);
    }

    /** `insert`: `bst_insert`'s step followed by `__rb_insert_fixup` at the
        new node. The result is `Insertion.Insert`: a red-black tree with
        exactly the key `k` added, in order. */
    method Insert(k: int)
      requires Valid() && RedBlack(tree)
      modifies this
      ensures Valid() && RedBlack(tree) && tree == Insertion.Insert(old(tree), k, old(|nodes|))
      ensures multiset(Inorder(tree)) == multiset(Inorder(old(tree))) + multiset{k}
      ensures |nodes| == old(|nodes|) + 1
    {
      ghost var t0, n := tree, |nodes|;
      var z := BstInsert(k);
      PutPlug(t0, k, n);
      InsertStart(t0, k, n);
      InsertFixup(z, PutPath(t0, k), Node(Red, Leaf, n, k, Leaf));
      InsertKeys(t0, k, n);
      InsertRedBlack(t0, k, n);
    }

    /** `replace`: `r` takes the place of `o` below `o`'s parent, or becomes
        the root when that parent is the sentinel; `r`'s parent field follows
        in both cases, even when `r` is the sentinel. */
    method Replace(o: nat, r: nat)
      requires o < |nodes| && r < |nodes| && nodes[o].parent < |nodes|
      modifies this
      ensures nodes == ReplaceWrites(old(nodes), o, r)
      ensures root == (if old(nodes[o].parent) == 0 then Some(r) else old(root)) && tree == old(tree)
    {
      var p := nodes[o].parent;
      Hang(p, o, r);
      nodes := nodes[r := nodes[r].(parent := p)];
    }

    /** The last writes of `delete` for a node `z` with two children: its
        successor `y` takes `z`'s place, `z`'s left child and `z`'s colour. */
    method Adopt(z: nat, y: nat)
      requires z < |nodes| && y < |nodes| && nodes[z].parent < |nodes| && nodes[z].left < |nodes|
      modifies this
      ensures nodes == AdoptWrites(old(nodes), z, y)
      ensures root == (if old(nodes[z].parent) == 0 then Some(y) else old(root)) && tree == old(tree)
    {
      Replace(z, y);
      nodes := nodes[y := nodes[y].(left := nodes[z].left)];
      nodes := nodes[nodes[y].left := nodes[nodes[y].left].(parent := y)];
      nodes := nodes[y := nodes[y].(color := nodes[z].color)];
    }

    /** The unlinking part of `delete` for the node `z` found for `k` below
        the ancestors `ctx`: `replace` by the only child, or the successor
        spliced out and moved into `z`'s place. Returns the cursor `x` the
        fixup starts from (possibly the sentinel, whose parent field then
        holds `x`'s parent) and `original_color`, the colour that left its
        position; together they are `Unlink`. */
    method UnlinkNode(k: int, z: nat, ghost ctx: seq<Frame>, ghost zt: Tree)
      returns (x: nat, removed: Color, ghost ctx': seq<Frame>, ghost xt: Tree)
      requires Valid() && ctx == FindPath(tree, k) && zt == Find(tree, k) && zt.Node? && zt.id == z
      modifies this
      ensures Linked() && root.Some? && tree == Plug(ctx', xt) && Splice(ctx', xt, removed) == Unlink(ctx, zt)
      ensures x == Id(xt) && x < |nodes| && nodes[x].parent == ParentOf(ctx', 0)
    {
      FindPlug(tree, k);
      RepCursor(nodes, ctx, zt, 0);
      CursorReads(nodes, ctx, zt);
      RepParent(nodes, ctx, zt);
      PlugId(ctx, zt);
      removed := nodes[z].color;
      if nodes[z].left == 0 {
        x := nodes[z].right;
        ReplaceRep(nodes, ReplaceWrites(nodes, z, x), ctx, zt, zt.right);
        Replace(z, x);
        ctx', xt := ctx, zt.right;
        tree := Plug(ctx, zt.right);
      } else if nodes[z].right == 0 {
        x := nodes[z].left;
        ReplaceRep(nodes, ReplaceWrites(nodes, z, x), ctx, zt, zt.left);
        Replace(z, x);
        ctx', xt := ctx, zt.left;
        tree := Plug(ctx, zt.left);
      } else {
        x, removed, ctx', xt := UnlinkTwo(k, z, ctx, zt);
      }
    }

    /** The two-children branch of `delete`: the successor `y` (found again
        by key with `find_successor`) is detached from its place and then
        takes `z`'s place, left child and colour. */
    method UnlinkTwo(k: int, z: nat, ghost ctx: seq<Frame>, ghost zt: Tree)
      returns (x: nat, removed: Color, ghost ctx': seq<Frame>, ghost xt: Tree)
      requires Valid() && ctx == FindPath(tree, k) && zt == Find(tree, k)
      requires zt.Node? && zt.left.Node? && zt.right.Node? && zt.id == z
      modifies this
      ensures Linked() && root.Some? && tree == Plug(ctx', xt) && Splice(ctx', xt, removed) == Unlink(ctx, zt)
      ensures x == Id(xt) && x < |nodes| && nodes[x].parent == ParentOf(ctx', 0)
    {
      ghost var y0 := MinNode(zt.right);
      ghost var yt := Node(y0.color, Leaf, y0.id, y0.key, RemoveMin(zt.right));
      ghost var s := Node(zt.color, zt.left, y0.id, y0.key, RemoveMin(zt.right));
      FindPlug(tree, k);
      FindCorrect(tree, k);
      PlugId(ctx, zt);
      RepCursor(nodes, ctx, zt, 0);
      SuccessorSlot(nodes, ctx, zt);
      SuccessorLift(ctx, zt);
      var found := InorderSuccessor(nodes[z].key);
      var y := found.value.value;
      removed := nodes[y].color;
      x := DetachSuccessor(z, y, ctx, zt);
      ghost var m := nodes;
      AdoptRep(m, AdoptWrites(m, z, y), ctx, zt, yt, s);
      Adopt(z, y);
      assert nodes[0] == m[0];
      ctx', xt := Unlink(ctx, zt).ctx, y0.right;
      UnlinkPlug(ctx, zt);
      tree := Plug(ctx', xt);
      if x != 0 {
        RepParent(nodes, ctx', xt);
      }
    }

    /** What is left once the successor `y` of `z` has been detached: the
        arena holds `z`'s ancestors, `z`'s left subtree, and `y` with the
        right subtree it keeps, `RemoveMin(zt.right)`, as `Adopt` needs. */
    ghost predicate Detached(z: nat, y: nat, ctx: seq<Frame>, zt: Tree)
      reads this
    {
      zt.Node? && zt.left.Node? && zt.right.Node? &&
      RepCtx(nodes, ctx, z, 0) && Rep(nodes, zt.left, z) && Rep(nodes, RemoveMin(zt.right), y) &&
      0 < z < |nodes| && 0 < y < |nodes| && ParentOf(ctx, 0) < |nodes| && zt.left.id < |nodes| &&
      nodes[z].left == zt.left.id && nodes[z].color == zt.color && nodes[z].parent == ParentOf(ctx, 0) &&
      nodes[y].right == Id(RemoveMin(zt.right)) && nodes[y].key == MinNode(zt.right).key &&
      nodes[0].left == 0 && nodes[0].right == 0 && nodes[0].color == Black
    }

    /** The successor `y` of `z` leaves its place. When it is `z`'s right
        child only its right child's parent field is set (the sentinel's
        too); otherwise `MoveSuccessor`. Returns `x`, the successor's old
        right child. */
    method DetachSuccessor(z: nat, y: nat, ghost ctx: seq<Frame>, ghost zt: Tree) returns (x: nat)
      requires Linked() && tree == Plug(ctx, zt) && zt.Node? && zt.id == z
      requires zt.left.Node? && zt.right.Node? && y == MinId(zt.right)
      modifies this
      ensures Detached(z, y, ctx, zt) && x == Id(MinNode(zt.right).right) && x < |nodes|
      ensures x == 0 ==> nodes[0].parent == ParentOf(Unlink(ctx, zt).ctx, 0)
      ensures |nodes| == old(|nodes|) && root == old(root) && tree == old(tree)
    {
      SuccessorSlot(nodes, ctx, zt);
      SuccessorParent(ctx, zt);
      x := nodes[y].right;
      if nodes[y].parent == z {
        ghost var n0 := nodes;
        nodes := nodes[x := nodes[x].(parent := y)];
        LiftSetup(n0, nodes, ctx, zt, x);
        LiftReads(nodes, ctx, zt);
      } else {
        MoveSuccessor(z, y, x, ctx, zt);
      }
    }

    /** The successor `y`, not `z`'s right child, leaves its place: its right
        child `x` takes it (`replace`), and `y` takes over `z`'s right
        subtree, whose parent field follows. */
    method MoveSuccessor(z: nat, y: nat, x: nat, ghost ctx: seq<Frame>, ghost zt: Tree)
      requires Linked() && tree == Plug(ctx, zt) && zt.Node? && zt.id == z
      requires zt.left.Node? && zt.right.Node? && y == MinId(zt.right) && MinPath(zt.right) != []
      requires x == Id(MinNode(zt.right).right)
      modifies this
      ensures Detached(z, y, ctx, zt) && x < |nodes|
      ensures x == 0 ==> nodes[0].parent == ParentOf(Unlink(ctx, zt).ctx, 0)
      ensures |nodes| == old(|nodes|) && root == old(root) && tree == old(tree)
    {
      ghost var y0, mp := MinNode(zt.right), MinPath(zt.right);
      ghost var f := Frame(Right, zt.color, z, zt.key, zt.left);
      ghost var cur := mp + [f] + ctx;
      ghost var r1 := RemoveMin(zt.right);
      ghost var zt1 := Node(zt.color, zt.left, z, zt.key, r1);
      ghost var yt := Node(y0.color, Leaf, y, y0.key, r1);
      SuccessorSlot(nodes, ctx, zt);
      SuccessorParent(ctx, zt);
      SuccessorLift(ctx, zt);
      RepParent(nodes, cur, y0);
      ghost var n0 := nodes;
      ReplaceRep(n0, ReplaceWrites(n0, y, x), cur, y0, y0.right);
      Replace(y, x);
      SuccessorRemoved(ctx, zt);
      CursorReads(nodes, ctx, zt1);
      ghost var m1 := nodes;
      nodes := nodes[y := nodes[y].(right := nodes[z].right)];
      nodes := nodes[nodes[y].right := nodes[nodes[y].right].(parent := y)];
      HandOverSetup(m1, nodes, ctx, zt1, yt);
      HandOverSlots(m1, nodes, ctx, zt1, yt);
    }

    /** Case 1 of a pass of `__rb_delete_fixup`, for the cursor `x` on side
        `d` of its parent `p`: a red sibling turns black, `p` red, and the
        rotation at `p` towards `d` lifts the sibling. Afterwards the
        ancestors of `x` are `Case1(ctx)`. */
    method DeleteCase1(x: nat, p: nat, d: Side, ghost ctx: seq<Frame>, ghost xt: Tree) returns (ghost c: seq<Frame>)
      requires Linked() && root.Some? && tree == Plug(ctx, xt) && ctx != [] && ctx[0].sib.Node?
      requires x == Id(xt) && x < |nodes| && nodes[x].parent == ParentOf(ctx, 0)
      requires p == ctx[0].id && d == ctx[0].side
      modifies this
      ensures c == Case1(ctx) && Linked() && root.Some? && tree == Plug(c, xt)
      ensures |nodes| == old(|nodes|) && nodes[x].parent == ParentOf(c, 0)
    {
      c := Case1(ctx);
      SiblingReads(nodes, ctx, xt);
      var w := Link(nodes[p], Opp(d));
      if nodes[w].color == Red {
        ghost var wt := ctx[0].sib;
        Case1Turns(ctx, xt);
        Paint(w, Black);
        Paint(p, Red);
        var _ := RotateNode(d, p, ctx[1..], Wrap(Frame(d, Red, p, ctx[0].key, wt.(color := Black)), xt));
      }
      if xt.Node? {
        RepParent(nodes, c, xt);
      }
    }

    /** Case 3 of a pass, a black sibling `w` whose far child is black and
        near child red: the near child turns black, `w` red, and the rotation
        at `w` away from `d` lifts the near child, which becomes the sibling
        `Case3(d, w)`. */
    method DeleteCase3(p: nat, w: nat, d: Side, ghost c: seq<Frame>, ghost xt: Tree)
      requires Linked() && root.Some? && tree == Plug(c, xt) && c != [] && p == c[0].id && d == c[0].side
      requires c[0].sib.Node? && w == c[0].sib.id && Child(c[0].sib, d).Node?
      modifies this
      ensures Linked() && root.Some? && tree == Plug([c[0].(sib := Case3(d, c[0].sib))] + c[1..], xt)
      ensures |nodes| == old(|nodes|)
    {
      ghost var wt := c[0].sib;
      SiblingReads(nodes, c, xt);
      Case3Turns(c, xt);
      ghost var cw := [Frame(Opp(d), c[0].color, p, c[0].key, xt)] + c[1..];
      Paint(Link(nodes[w], d), Black);
      Paint(w, Red);
      var _ := RotateNode(Opp(d), w, cw, Wrap(Frame(d, Red, w, wt.key, Child(wt, Opp(d))), Child(wt, d).(color := Black)));
    }

    /** Case 4 of a pass, a black sibling `w` with a red far child: `w` takes
        `p`'s colour, `p` and the far child turn black, and the rotation at
        `p` towards `d` lifts `w`. */
    method DeleteCase4(p: nat, w: nat, d: Side, ghost c: seq<Frame>, ghost xt: Tree)
      requires Linked() && root.Some? && tree == Plug(c, xt) && c != [] && p == c[0].id && d == c[0].side
      requires c[0].sib.Node? && w == c[0].sib.id && Child(c[0].sib, Opp(d)).Node?
      modifies this
      ensures Linked() && root.Some? && tree == Plug(c[1..], Case4(d, c[0], xt, c[0].sib))
      ensures |nodes| == old(|nodes|)
    {
      ghost var wt := c[0].sib;
      SiblingReads(nodes, c, xt);
      Case4Turns(c, xt);
      Paint(w, nodes[p].color);
      Paint(p, Black);
      Paint(Link(nodes[w], Opp(d)), Black);
      var _ := RotateNode(d, p, c[1..],
        Wrap(Frame(d, Black, p, c[0].key, Wrap(Frame(d, c[0].color, w, wt.key, Blacken(Child(wt, Opp(d)))), Child(wt, d))), xt));
    }

    /** Cases 3 and 4 of a pass, for a black sibling with a red child: case 3
        when the far child is black, then case 4. */
    method DeleteCase34(p: nat, d: Side, ghost c: seq<Frame>, ghost xt: Tree) returns (x': nat)
      requires Linked() && root.Some? && tree == Plug(c, xt) && c != [] && p == c[0].id && d == c[0].side
      requires c[0].sib.Node? && c[0].sib.color == Black && Balanced(c[0].sib) && NoRedRed(c[0].sib)
      requires ColorOf(Child(c[0].sib, d)) == Red || ColorOf(Child(c[0].sib, Opp(d))) == Red
      modifies this
      ensures var w := c[0].sib;
        var w' := if ColorOf(Child(w, Opp(d))) == Black then Case3(d, w) else w;
        Linked() && root.Some? && tree == Plug(c[1..], Case4(d, c[0], xt, w'))
      ensures x' == Id(tree) && x' < |nodes| && nodes[x'].parent == 0
    {
      ghost var c4 := c;
      SiblingReads(nodes, c, xt);
      var w := Link(nodes[p], Opp(d));
      if nodes[Link(nodes[w], Opp(d))].color == Black {
        Case3Valid(d, c[0].sib);
        DeleteCase3(p, w, d, c, xt);
        c4 := [c[0].(sib := Case3(d, c[0].sib))] + c[1..];
        assert c4[0] == c[0].(sib := Case3(d, c[0].sib)) && c4[1..] == c[1..];
        SiblingReads(nodes, c4, xt);
        w := Link(nodes[p], Opp(d));
      }
      DeleteCase4(p, w, d, c4, xt);
      assert Case4(d, c4[0], xt, c4[0].sib) == Case4(d, c[0], xt, c4[0].sib);
      x' := root.value;
      PlugId(c[1..], Case4(d, c[0], xt, c4[0].sib));
      RepParent(nodes, [], tree);
    }

    /** Case 2 of a pass, a black sibling `w` with two black children: `w`
        turns red and the cursor moves up to the parent `p`. */
    method DeleteCase2(p: nat, w: nat, ghost c: seq<Frame>, ghost xt: Tree)
      returns (x': nat, ghost ctx': seq<Frame>, ghost xt': Tree)
      requires Linked() && root.Some? && tree == Plug(c, xt) && c != [] && p == c[0].id
      requires c[0].sib.Node? && w == c[0].sib.id
      modifies this
      ensures ctx' == c[1..] && xt' == Wrap(c[0].(sib := Redden(c[0].sib)), xt)
      ensures Linked() && root.Some? && tree == Plug(ctx', xt')
      ensures x' == Id(xt') && x' < |nodes| && nodes[x'].parent == ParentOf(ctx', 0)
    {
      SiblingReads(nodes, c, xt);
      Case2Paints(c, xt);
      Paint(w, Red);
      x', ctx', xt' := p, c[1..], Wrap(c[0].(sib := Redden(c[0].sib)), xt);
      RepParent(nodes, ctx', xt');
    }

    /** One pass of the loop of `__rb_delete_fixup`, entered with a black
        cursor `x` that is not the root. `d` is the side `x` hangs on below
        its parent: the pointer code's first branch is `d == Left`, its
        second the mirror image. */
    method DeletePass(x: nat, ghost ctx: seq<Frame>, ghost xt: Tree) returns (x': nat, ghost ctx': seq<Frame>, ghost xt': Tree)
      requires Linked() && root.Some? && tree == Plug(ctx, xt) && DeleteInv(ctx, xt) && ctx != [] && ColorOf(xt) == Black
      requires x == Id(xt) && x < |nodes| && nodes[x].parent == ParentOf(ctx, 0)
      modifies this
      ensures Linked() && root.Some? && tree == Plug(ctx', xt') && (ctx' != [] ==> DeleteInv(ctx', xt'))
      ensures x' == Id(xt') && x' < |nodes| && nodes[x'].parent == ParentOf(ctx', 0)
      ensures DeleteFix(ctx', xt') == DeleteFix(ctx, xt)
      ensures 2 * |ctx'| + (if ColorOf(xt') == Black then 1 else 0) < 2 * |ctx| + 1
    {
      SiblingIsNode(ctx, xt);
      SiblingReads(nodes, ctx, xt);
      var p := nodes[x].parent;
      var d := if x == nodes[p].left then Left else Right;
      ghost var c := DeleteCase1(x, p, d, ctx, xt);
      Case1Valid(ctx, xt);
      SiblingReads(nodes, c, xt);
      var w := Link(nodes[p], Opp(d));
      if nodes[nodes[w].left].color == Black && nodes[nodes[w].right].color == Black {
        Case2Valid(c, xt);
        x', ctx', xt' := DeleteCase2(p, w, c, xt);
      } else {
        x' := DeleteCase34(p, d, c, xt);
        ctx', xt' := [], tree;
      }
    }

    /** `__rb_delete_fixup`: passes of the loop while the cursor is black and
        not the root, then the cursor painted black. The result is
        `DeleteFix`. */
    method DeleteFixup(x0: nat, ghost ctx0: seq<Frame>, ghost xt0: Tree)
      requires Linked() && root.Some? && tree == Plug(ctx0, xt0) && DeleteInv(ctx0, xt0)
      requires x0 == Id(xt0) && x0 < |nodes| && nodes[x0].parent == ParentOf(ctx0, 0)
      modifies this
      ensures Linked() && root.Some? && tree == DeleteFix(ctx0, xt0)
    {
      var x := x0;
      ghost var ctx, xt := ctx0, xt0;
      CursorTop(nodes, ctx, xt);
      while x != root.value && nodes[x].color == Black
        invariant Linked() && root.Some? && tree == Plug(ctx, xt) && (ctx != [] ==> DeleteInv(ctx, xt))
        invariant x == Id(xt) && x < |nodes| && nodes[x].parent == ParentOf(ctx, 0)
        invariant DeleteFix(ctx, xt) == DeleteFix(ctx0, xt0)
        invariant (x == root.value <==> ctx == []) && nodes[x].color == ColorOf(xt)
        decreases 2 * |ctx| + (if ColorOf(xt) == Black then 1 else 0)
      {
        x, ctx, xt := DeletePass(x, ctx, xt);
        CursorTop(nodes, ctx, xt);
      }
      CursorTop(nodes, ctx, xt);
      if xt.Node? {
        PaintCursor(ctx, xt, Black);
      } else {
        SetColorAbsent(tree, 0, Black);
      }
      Paint(x, Black);
    }

    /** `delete` once the node `z` for `k` is found: the unlinking and,
        when the colour removed is black, the fixup. */
    method DeleteFound(k: int, z: nat)
      requires Valid() && RedBlack(tree) && Find(tree, k).Node? && z == Find(tree, k).id
      modifies this
      ensures Linked() && tree == Deletion.Delete(old(tree), k)
    {
      ghost var t0 := tree;
      FindPlug(tree, k);
      UnlinkValid(FindPath(t0, k), Find(t0, k));
      var x, removed, ctx, xt := UnlinkNode(k, z, FindPath(tree, k), Find(tree, k));
      if removed == Black {
        DeleteFixup(x, ctx, xt);
      }
    }

    /** `delete`: a `KeyError` (without a message) when there is no root,
        `find_node`'s `KeyError` when the key is missing, and otherwise the
        first node found for `k` unlinked and, when the colour removed is
        black, the fixup. The result is `Deletion.Delete`: a red-black tree
        with one occurrence of `k` taken out of the keys, in order. */
    method Delete(k: int) returns (r: Result<()>)
      requires Valid() && RedBlack(tree)
      modifies this
      ensures old(root).None? ==> r == Failure(Bare)
      ensures old(root).Some? ==> (r.Success? <==> k in Inorder(old(tree)))
      ensures old(root).Some? && r.Failure? ==> r == Failure(NotFound)
      ensures r.Failure? ==> nodes == old(nodes) && root == old(root) && tree == old(tree)
      ensures r.Success? ==> tree == Deletion.Delete(old(tree), k)
      ensures multiset(Inorder(tree)) == multiset(Inorder(old(tree))) - multiset{k}
      ensures Valid() && RedBlack(tree)
    {
      ghost var t0 := tree;
      DeleteKeys(t0, k);
      DeleteRedBlack(t0, k);
      if root.None? {
        return Failure(Bare);
      }
      var f := FindNode(k);
      if f.Failure? {
        return Failure(f.error);
      }
      DeleteFound(k, f.value);
      r := Success(());
    }
  }
}
