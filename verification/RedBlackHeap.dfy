/** The pointer structure behind a red-black tree, and rotations and recolourings at a position in it
    (bintree.c). What a set of nodes and the root pointer hold is taken as one value, a snapshot; the
    pointer code is proved to change the snapshot by the functions below, and those to change the tree. */
module RedBlackHeap {
  import opened RedBlackTree

  class Root {
    var node: Node?

    constructor ()
      ensures node == null
    {
      node := null;
    }
  }

  datatype Cell = Cell(left: Node?, right: Node?, parent: Node?, red: bool)
  datatype Mem = Mem(root: Node?, cells: map<Node, Cell>)

  /** The fields of the nodes of m are what m says, and so is the root pointer. */
  ghost predicate Holds(root: Root, m: Mem)
    reads root, m.cells.Keys
  {
    && root.node == m.root
    && forall x <- m.cells.Keys ::
         x.left == m.cells[x].left && x.right == m.cells[x].right && x.parent == m.cells[x].parent
           && x.red == m.cells[x].red
  }

  /** The cells of the nodes of t form t, hanging below p. */
  ghost predicate Rep(c: map<Node, Cell>, t: Tree, p: Node?)
  {
    t.Bin? ==>
      && t.n in c && c[t.n] == Cell(RootOf(t.l), RootOf(t.r), p, t.red)
      && Rep(c, t.l, t.n) && Rep(c, t.r, t.n)
  }

  /** The cells of the nodes of ctx form ctx around the subtree with the given root. */
  ghost predicate CtxRep(m: Mem, ctx: Ctx, hole: Node?)
  {
    match ctx
    case Top => m.root == hole
    case InL(n, red, r, up) =>
      n in m.cells && m.cells[n] == Cell(hole, RootOf(r), ParentIn(up), red) && Rep(m.cells, r, n) && CtxRep(m, up, n)
    case InR(l, n, red, up) =>
      n in m.cells && m.cells[n] == Cell(RootOf(l), hole, ParentIn(up), red) && Rep(m.cells, l, n) && CtxRep(m, up, n)
  }

  ghost function All(ctx: Ctx, t: Tree): set<Node>
  {
    Nodes(t) + CtxNodes(ctx)
  }

  /** The memory holds the tree Plug(ctx, t), seen at the subtree t. */
  ghost predicate At(m: Mem, ctx: Ctx, t: Tree)
  {
    ZipProper(ctx, t) && Rep(m.cells, t, ParentIn(ctx)) && CtxRep(m, ctx, RootOf(t))
  }

  /** Moving the focus between a left child and its parent. */
  lemma MoveL(m: Mem, n: Node, red: bool, r: Tree, up: Ctx, t: Tree)
    ensures All(InL(n, red, r, up), t) == All(up, Bin(t, n, red, r))
    ensures At(m, InL(n, red, r, up), t) <==> At(m, up, Bin(t, n, red, r))
  {}

  /** Moving the focus between a right child and its parent. */
  lemma MoveR(m: Mem, l: Tree, n: Node, red: bool, up: Ctx, t: Tree)
    ensures All(InR(l, n, red, up), t) == All(up, Bin(l, n, red, t))
    ensures At(m, InR(l, n, red, up), t) <==> At(m, up, Bin(l, n, red, t))
  {}

  /** The cells of the nodes in s are the same in c'. */
  ghost predicate Same(c: map<Node, Cell>, c': map<Node, Cell>, s: set<Node>)
  {
    forall x :: x in s && x in c ==> x in c' && c'[x] == c[x]
  }

  /** A subtree none of whose cells changed. */
  lemma {:induction false} RepFrame(c: map<Node, Cell>, c': map<Node, Cell>, t: Tree, p: Node?)
    requires Rep(c, t, p)
    requires Same(c, c', Nodes(t))
    ensures Rep(c', t, p)
  {
    if t.Bin? {
      RepFrame(c, c', t.l, t.n);
      RepFrame(c, c', t.r, t.n);
    }
  }

  lemma {:induction false} CtxFrame(m: Mem, m': Mem, ctx: Ctx, hole: Node?)
    requires CtxRep(m, ctx, hole) && m'.root == m.root
    requires Same(m.cells, m'.cells, CtxNodes(ctx))
    ensures CtxRep(m', ctx, hole)
  {
    match ctx
    case Top =>
    case InL(n, _, r, up) =>
      RepFrame(m.cells, m'.cells, r, n);
      CtxFrame(m, m', up, n);
    case InR(l, n, _, up) =>
      RepFrame(m.cells, m'.cells, l, n);
      CtxFrame(m, m', up, n);
  }

  /** A subtree of which only the parent link of its root changed. */
  lemma RepMoved(c: map<Node, Cell>, c': map<Node, Cell>, t: Tree, p: Node?, q: Node?)
    requires Rep(c, t, p) && Proper(t)
    requires Same(c, c', Nodes(t) - {RootOf(t)})
    requires t.Bin? && t.n in c ==> t.n in c' && c'[t.n] == c[t.n].(parent := q)
    ensures Rep(c', t, q)
  {
    if t.Bin? {
      RepFrame(c, c', t.l, t.n);
      RepFrame(c, c', t.r, t.n);
    }
  }

  /** The cell of a parent after its link to a child has been redirected. */
  ghost function Redirect(cell: Cell, from: Node?, to: Node?): Cell
  {
    if cell.left == from then cell.(left := to) else cell.(right := to)
  }

  /** A context in which only the link to the hole changed. */
  lemma CtxMoved(m: Mem, m': Mem, ctx: Ctx, from: Node, to: Node?)
    requires CtxRep(m, ctx, from) && CtxProper(ctx) && from !in CtxNodes(ctx)
    requires Same(m.cells, m'.cells, CtxNodes(ctx) - {ParentIn(ctx)})
    requires m'.root == if ctx.Top? then to else m.root
    requires !ctx.Top? && ctx.n in m.cells ==>
      ctx.n in m'.cells && m'.cells[ctx.n] == Redirect(m.cells[ctx.n], from, to)
    ensures CtxRep(m', ctx, to)
  {
    match ctx
    case Top =>
    case InL(n, _, r, up) =>
      RepFrame(m.cells, m'.cells, r, n);
      CtxFrame(m, m', up, n);
    case InR(l, n, _, up) =>
      RootInTree(l);
      RepFrame(m.cells, m'.cells, l, n);
      CtxFrame(m, m', up, n);
  }

  lemma RootInTree(t: Tree)
    ensures t.Leaf? || RootOf(t) in Nodes(t)
  {}

  lemma ParentInCtx(ctx: Ctx)
    ensures ctx.Top? || ParentIn(ctx) in CtxNodes(ctx)
  {}

  /** The nodes around a focus: the node, its subtrees and the context do not overlap. */
  lemma Parts(ctx: Ctx, t: Tree)
    requires ZipProper(ctx, t) && t.Bin?
    ensures Proper(t.l) && Proper(t.r) && CtxProper(ctx)
    ensures t.n !in Nodes(t.l) && t.n !in Nodes(t.r) && t.n !in CtxNodes(ctx)
    ensures Nodes(t.l) !! Nodes(t.r) && Nodes(t.l) !! CtxNodes(ctx) && Nodes(t.r) !! CtxNodes(ctx)
    ensures ZipProper(InL(t.n, t.red, t.r, ctx), t.l) && ZipProper(InR(t.l, t.n, t.red, ctx), t.r)
    ensures CtxNodes(InL(t.n, t.red, t.r, ctx)) == {t.n} + Nodes(t.r) + CtxNodes(ctx)
    ensures CtxNodes(InR(t.l, t.n, t.red, ctx)) == {t.n} + Nodes(t.l) + CtxNodes(ctx)
  {}

  lemma RepBin(c: map<Node, Cell>, t: Tree, p: Node?)
    requires Rep(c, t, p) && t.Bin?
    ensures t.n in c && c[t.n] == Cell(RootOf(t.l), RootOf(t.r), p, t.red) && Rep(c, t.l, t.n) && Rep(c, t.r, t.n)
  {}

  lemma BinRep(c: map<Node, Cell>, t: Tree, p: Node?)
    requires t.Bin? && t.n in c && c[t.n] == Cell(RootOf(t.l), RootOf(t.r), p, t.red)
    requires Rep(c, t.l, t.n) && Rep(c, t.r, t.n)
    ensures Rep(c, t, p)
  {}

  lemma ProperBin(ctx: Ctx, a: Tree, x: Node, rx: bool, t: Tree)
    ensures ZipProper(ctx, Bin(a, x, rx, t)) <==>
      && CtxProper(ctx) && Proper(a) && Proper(t)
      && x !in Nodes(a) && x !in Nodes(t) && x !in CtxNodes(ctx)
      && Nodes(a) !! Nodes(t) && Nodes(a) !! CtxNodes(ctx) && Nodes(t) !! CtxNodes(ctx)
    ensures Nodes(Bin(a, x, rx, t)) == Nodes(a) + {x} + Nodes(t)
    ensures Proper(Bin(a, x, rx, t)) <==>
      Proper(a) && Proper(t) && x !in Nodes(a) && x !in Nodes(t) && Nodes(a) !! Nodes(t)
  {}

  lemma RotatedProper(ctx: Ctx, a: Tree, x: Node, rx: bool, b: Tree, y: Node, ry: bool, c: Tree)
    ensures ZipProper(ctx, Bin(a, x, rx, Bin(b, y, ry, c))) <==> ZipProper(ctx, Bin(Bin(a, x, rx, b), y, ry, c))
    ensures Nodes(Bin(a, x, rx, Bin(b, y, ry, c))) == Nodes(Bin(Bin(a, x, rx, b), y, ry, c))
  {
    var t, u := Bin(b, y, ry, c), Bin(a, x, rx, b);
    ProperBin(Top, b, y, ry, c);
    ProperBin(Top, a, x, rx, b);
    ProperBin(ctx, a, x, rx, t);
    ProperBin(ctx, u, y, ry, c);
    hide *;
  }

  /** m' is m after the rotation that puts y in the place of x, with the subtree b between them moved
      from y to x; p is the parent of both. */
  ghost predicate Rotated(m: Mem, m': Mem, x: Node, y: Node, b: Node?, p: Node?, left: bool)
  {
    && m'.cells.Keys == m.cells.Keys
    && x in m.cells && y in m.cells && (b != null ==> b in m.cells) && (p != null ==> p in m.cells)
    && m'.cells[x] == (if left then m.cells[x].(right := b, parent := y) else m.cells[x].(left := b, parent := y))
    && m'.cells[y] == (if left then m.cells[y].(left := x, parent := p) else m.cells[y].(right := x, parent := p))
    && (b != null ==> m'.cells[b] == m.cells[b].(parent := x))
    && (p != null ==> m'.cells[p] == Redirect(m.cells[p], x, y))
    && m'.root == (if p == null then y else m.root)
    && forall z <- m.cells.Keys :: z != x && z != y && z != b && z != p ==> m'.cells[z] == m.cells[z]
  }

  lemma Untouched(m: Mem, m': Mem, x: Node, y: Node, b: Node?, p: Node?, left: bool, s: set<Node>)
    requires Rotated(m, m', x, y, b, p, left)
    requires x !in s && y !in s && (b == null || b !in s) && (p == null || p !in s)
    ensures Same(m.cells, m'.cells, s)
  {}

  /** The parts of a tree with two nodes at the top, in either arrangement. */
  lemma RotationParts(ctx: Ctx, a: Tree, x: Node, rx: bool, b: Tree, y: Node, ry: bool, c: Tree)
    requires ZipProper(ctx, Bin(a, x, rx, Bin(b, y, ry, c))) || ZipProper(ctx, Bin(Bin(a, x, rx, b), y, ry, c))
    ensures Proper(a) && Proper(b) && Proper(c) && CtxProper(ctx)
    ensures x != y && x !in CtxNodes(ctx) && y !in CtxNodes(ctx)
    ensures x !in Nodes(a) && x !in Nodes(b) && x !in Nodes(c) && y !in Nodes(a) && y !in Nodes(b) && y !in Nodes(c)
    ensures Nodes(a) !! Nodes(b) && Nodes(b) !! Nodes(c) && Nodes(a) !! Nodes(c)
    ensures Nodes(a) !! CtxNodes(ctx) && Nodes(b) !! CtxNodes(ctx) && Nodes(c) !! CtxNodes(ctx)
    ensures ctx.Top? || ParentIn(ctx) in CtxNodes(ctx)
    ensures b.Leaf? || RootOf(b) in Nodes(b)
    ensures ZipProper(ctx, Bin(a, x, rx, Bin(b, y, ry, c))) && ZipProper(ctx, Bin(Bin(a, x, rx, b), y, ry, c))
  {
    RotatedProper(ctx, a, x, rx, b, y, ry, c);
    var t := Bin(a, x, rx, Bin(b, y, ry, c));
    Parts(ctx, t);
    Parts(InR(a, x, rx, ctx), t.r);
    ParentInCtx(ctx);
    RootInTree(b);
  }

  /** After either rotation: the outer subtrees stay, the middle one and the context move. */
  lemma RotatedReps(m: Mem, m': Mem, ctx: Ctx, a: Tree, x: Node, rx: bool, b: Tree, y: Node, ry: bool, c: Tree,
                    left: bool)
    requires ZipProper(ctx, Bin(a, x, rx, Bin(b, y, ry, c)))
    requires Rotated(m, m', if left then x else y, if left then y else x, RootOf(b), ParentIn(ctx), left)
    requires Rep(m.cells, a, x) && Rep(m.cells, c, y) && Rep(m.cells, b, if left then y else x)
    requires CtxRep(m, ctx, if left then x else y)
    ensures Rep(m'.cells, a, x) && Rep(m'.cells, c, y) && Rep(m'.cells, b, if left then x else y)
    ensures CtxRep(m', ctx, if left then y else x)
  {
    RotationParts(ctx, a, x, rx, b, y, ry, c);
    hide Nodes, CtxNodes, Proper, CtxProper, Rep, CtxRep;
    var from, to, mid, p := if left then x else y, if left then y else x, RootOf(b), ParentIn(ctx);
    Untouched(m, m', from, to, mid, p, left, Nodes(a));
    Untouched(m, m', from, to, mid, p, left, Nodes(c));
    Untouched(m, m', from, to, mid, p, left, Nodes(b) - {mid});
    Untouched(m, m', from, to, mid, p, left, CtxNodes(ctx) - {p});
    hide Same;
    RepFrame(m.cells, m'.cells, a, x);
    RepFrame(m.cells, m'.cells, c, y);
    RepMoved(m.cells, m'.cells, b, to, from);
    CtxMoved(m, m', ctx, from, to);
  }

  /** The left rotation: the right child y of x takes the place of x. */
  lemma RotateLeftAt(m: Mem, m': Mem, ctx: Ctx, a: Tree, x: Node, rx: bool, b: Tree, y: Node, ry: bool, c: Tree)
    requires At(m, ctx, Bin(a, x, rx, Bin(b, y, ry, c)))
    requires Rotated(m, m', x, y, RootOf(b), ParentIn(ctx), true)
    ensures At(m', ctx, Bin(Bin(a, x, rx, b), y, ry, c))
  {
    var t, u, p := Bin(b, y, ry, c), Bin(a, x, rx, b), ParentIn(ctx);
    RepBin(m.cells, Bin(a, x, rx, t), p);
    RepBin(m.cells, t, x);
    RotationParts(ctx, a, x, rx, b, y, ry, c);
    hide Nodes, CtxNodes, Proper, CtxProper, Rep, CtxRep;
    RotatedReps(m, m', ctx, a, x, rx, b, y, ry, c, true);
    BinRep(m'.cells, u, y);
    BinRep(m'.cells, Bin(u, y, ry, c), p);
  }

  /** The right rotation: the left child x of y takes the place of y. */
  lemma RotateRightAt(m: Mem, m': Mem, ctx: Ctx, a: Tree, x: Node, rx: bool, b: Tree, y: Node, ry: bool, c: Tree)
    requires At(m, ctx, Bin(Bin(a, x, rx, b), y, ry, c))
    requires Rotated(m, m', y, x, RootOf(b), ParentIn(ctx), false)
    ensures At(m', ctx, Bin(a, x, rx, Bin(b, y, ry, c)))
  {
    var t, u, p := Bin(b, y, ry, c), Bin(a, x, rx, b), ParentIn(ctx);
    RepBin(m.cells, Bin(u, y, ry, c), p);
    RepBin(m.cells, u, y);
    RotationParts(ctx, a, x, rx, b, y, ry, c);
    hide Nodes, CtxNodes, Proper, CtxProper, Rep, CtxRep;
    RotatedReps(m, m', ctx, a, x, rx, b, y, ry, c, false);
    BinRep(m'.cells, t, x);
    BinRep(m'.cells, Bin(a, x, rx, t), p);
  }

  /** The four nodes a rotation touches are different and known. */
  ghost predicate Rotatable(m: Mem, x: Node, y: Node?, b: Node?, p: Node?)
  {
    && x in m.cells && y != null && y in m.cells && (b != null ==> b in m.cells) && (p != null ==> p in m.cells)
    && x != y && x != b && x != p && y != b && y != p && (b == null || b != p)
    && m.cells[x].parent == p
  }

  ghost function Put(m: Mem, n: Node, cell: Cell): (m': Mem)
    requires n in m.cells
    ensures m'.root == m.root && m'.cells.Keys == m.cells.Keys && m'.cells[n] == cell
    ensures forall z <- m.cells.Keys :: z != n ==> m'.cells[z] == m.cells[z]
  {
    m.(cells := m.cells[n := cell])
  }

  /** The single field assignments of the pointer code, each with its effect on the memory. */
  method SetLeft(node: Node, v: Node?, ghost root: Root, ghost m: Mem) returns (ghost m': Mem)
    requires Holds(root, m) && node in m.cells
    modifies node
    ensures m' == Put(m, node, m.cells[node].(left := v)) && Holds(root, m')
  {
    node.left := v;
    m' := Put(m, node, m.cells[node].(left := v));
  }

  method SetRight(node: Node, v: Node?, ghost root: Root, ghost m: Mem) returns (ghost m': Mem)
    requires Holds(root, m) && node in m.cells
    modifies node
    ensures m' == Put(m, node, m.cells[node].(right := v)) && Holds(root, m')
  {
    node.right := v;
    m' := Put(m, node, m.cells[node].(right := v));
  }

  ghost function Reparented(m: Mem, child: Node?, p: Node?): (m': Mem)
    requires child != null ==> child in m.cells
    ensures m'.root == m.root && m'.cells.Keys == m.cells.Keys
    ensures child != null ==> m'.cells[child] == m.cells[child].(parent := p)
    ensures forall z <- m.cells.Keys :: z != child ==> m'.cells[z] == m.cells[z]
  {
    if child == null then m else Put(m, child, m.cells[child].(parent := p))
  }

  /** rb_set_parent, where there is a child. */
  method SetParent(child: Node?, p: Node?, ghost root: Root, ghost m: Mem) returns (ghost m': Mem)
    requires Holds(root, m) && (child != null ==> child in m.cells)
    modifies if child == null then {} else {child}
    ensures m' == Reparented(m, child, p) && Holds(root, m')
  {
    m' := Reparented(m, child, p);
    if child != null {
      child.parent := p;
    }
  }

  /** rb_set_red, rb_set_black and rb_set_color */
  method SetColor(node: Node, red: bool, ghost root: Root, ghost m: Mem) returns (ghost m': Mem)
    requires Holds(root, m) && node in m.cells
    modifies node
    ensures m' == Put(m, node, m.cells[node].(red := red)) && Holds(root, m')
  {
    node.red := red;
    m' := Put(m, node, m.cells[node].(red := red));
  }

  ghost function Relinked(m: Mem, parent: Node?, from: Node?, to: Node?): (m': Mem)
    requires parent != null ==> parent in m.cells
    ensures m'.cells.Keys == m.cells.Keys && m'.root == (if parent == null then to else m.root)
    ensures parent != null ==> m'.cells[parent] == Redirect(m.cells[parent], from, to)
    ensures forall z <- m.cells.Keys :: z != parent ==> m'.cells[z] == m.cells[z]
  {
    if parent == null then m.(root := to)
    else Put(m, parent, Redirect(m.cells[parent], from, to))
  }

  /** Redirects the link to a node, from its parent or from the root. */
  method Relink(parent: Node?, from: Node?, to: Node?, root: Root, ghost m: Mem) returns (ghost m': Mem)
    requires Holds(root, m) && (parent != null ==> parent in m.cells)
    modifies root, if parent == null then {} else {parent}
    ensures m' == Relinked(m, parent, from, to) && Holds(root, m')
  {
    m' := Relinked(m, parent, from, to);
    if parent != null {
      if parent.left == from {
        parent.left := to;
      } else {
        parent.right := to;
      }
    } else {
      root.node := to;
    }
  }

  /** y takes the place of x below p, and x goes below y. */
  ghost function TakenPlace(m: Mem, x: Node, y: Node, p: Node?): (m': Mem)
    requires x in m.cells && y in m.cells && (p != null ==> p in m.cells)
  {
    Reparented(Relinked(Reparented(m, y, p), p, x, y), x, y)
  }

  method TakePlace(x: Node, y: Node, p: Node?, root: Root, ghost m: Mem) returns (ghost m': Mem)
    requires Holds(root, m) && x in m.cells && y in m.cells && (p != null ==> p in m.cells)
    modifies root, x, y, if p == null then {} else {p}
    ensures Holds(root, m') && m' == TakenPlace(m, x, y, p)
  {
    hide Holds, Redirect, Put, Relinked, Reparented;
    m' := SetParent(y, p, root, m);
    m' := Relink(p, x, y, root, m');
    m' := SetParent(x, y, root, m');
  }

  /** __rb_rotate_left */
  method RotateLeft(node: Node, root: Root, ghost m: Mem, ghost y: Node, ghost b: Node?, ghost p: Node?)
    returns (ghost m': Mem)
    requires Holds(root, m) && Rotatable(m, node, y, b, p) && m.cells[node].right == y && m.cells[y].left == b
    modifies root, m.cells.Keys
    ensures Holds(root, m') && m' == AfterRotateLeft(m, node, y, b, p)
  {
    var right := node.right;
    var parent := node.parent;
    var middle := right.left;
    assert right == y && parent == p && middle == b;
    hide Holds, Redirect, Put, Relinked, Reparented;
    m' := SetRight(node, middle, root, m);
    m' := SetParent(middle, node, root, m');
    m' := SetLeft(right, node, root, m');
    m' := TakePlace(node, right, parent, root, m');
  }

  ghost function AfterRotateLeft(m: Mem, x: Node, y: Node, b: Node?, p: Node?): (m': Mem)
    requires Rotatable(m, x, y, b, p)
  {
    var m1 := Put(m, x, m.cells[x].(right := b));
    var m2 := Reparented(m1, b, x);
    var m3 := Put(m2, y, m2.cells[y].(left := x));
    TakenPlace(m3, x, y, p)
  }

  lemma RotateLeftEffect(m: Mem, x: Node, y: Node, b: Node?, p: Node?)
    requires Rotatable(m, x, y, b, p)
    ensures Rotated(m, AfterRotateLeft(m, x, y, b, p), x, y, b, p, true)
  {
    hide Redirect, Put, Relinked, Reparented;
  }

  /** __rb_rotate_right */
  method RotateRight(node: Node, root: Root, ghost m: Mem, ghost y: Node, ghost b: Node?, ghost p: Node?)
    returns (ghost m': Mem)
    requires Holds(root, m) && Rotatable(m, node, y, b, p) && m.cells[node].left == y && m.cells[y].right == b
    modifies root, m.cells.Keys
    ensures Holds(root, m') && m' == AfterRotateRight(m, node, y, b, p)
  {
    var left := node.left;
    var parent := node.parent;
    var middle := left.right;
    assert left == y && parent == p && middle == b;
    hide Holds, Redirect, Put, Relinked, Reparented;
    m' := SetLeft(node, middle, root, m);
    m' := SetParent(middle, node, root, m');
    m' := SetRight(left, node, root, m');
    m' := TakePlace(node, left, parent, root, m');
  }

  ghost function AfterRotateRight(m: Mem, x: Node, y: Node, b: Node?, p: Node?): (m': Mem)
    requires Rotatable(m, x, y, b, p)
  {
    var m1 := Put(m, x, m.cells[x].(left := b));
    var m2 := Reparented(m1, b, x);
    var m3 := Put(m2, y, m2.cells[y].(right := x));
    TakenPlace(m3, x, y, p)
  }

  lemma RotateRightEffect(m: Mem, x: Node, y: Node, b: Node?, p: Node?)
    requires Rotatable(m, x, y, b, p)
    ensures Rotated(m, AfterRotateRight(m, x, y, b, p), x, y, b, p, false)
  {
    hide Redirect, Put, Relinked, Reparented;
  }

  /** Reading the cell at the focus, and the one above it. */
  lemma Look(m: Mem, ctx: Ctx, t: Tree)
    requires At(m, ctx, t)
    ensures t.Bin? ==> t.n in m.cells && m.cells[t.n] == Cell(RootOf(t.l), RootOf(t.r), ParentIn(ctx), t.red)
    ensures ctx.Top? ==> m.root == RootOf(t)
    ensures ctx.InL? ==> ctx.n in m.cells && m.cells[ctx.n] == Cell(RootOf(t), RootOf(ctx.r), ParentIn(ctx.up), ctx.red)
    ensures ctx.InR? ==> ctx.n in m.cells && m.cells[ctx.n] == Cell(RootOf(ctx.l), RootOf(t), ParentIn(ctx.up), ctx.red)
  {}

  ghost function RotL(t: Tree): Tree
    requires t.Bin? && t.r.Bin?
  {
    Bin(Bin(t.l, t.n, t.red, t.r.l), t.r.n, t.r.red, t.r.r)
  }

  ghost function RotR(t: Tree): Tree
    requires t.Bin? && t.l.Bin?
  {
    Bin(t.l.l, t.l.n, t.l.red, Bin(t.l.r, t.n, t.red, t.r))
  }

  /** Rotations keep the order of the nodes, wherever they happen. */
  lemma RotationKeepsOrder(ctx: Ctx, t: Tree)
    requires t.Bin?
    ensures t.r.Bin? ==> InOrder(Plug(ctx, RotL(t))) == InOrder(Plug(ctx, t))
    ensures t.l.Bin? ==> InOrder(Plug(ctx, RotR(t))) == InOrder(Plug(ctx, t))
  {
    if t.r.Bin? {
      SameOrder(ctx, t, RotL(t)) by { RotLOrder(t); }
    }
    if t.l.Bin? {
      SameOrder(ctx, t, RotR(t)) by { RotLOrder(RotR(t)); }
    }
  }

  lemma RotLOrder(t: Tree)
    requires t.Bin? && t.r.Bin?
    ensures InOrder(RotL(t)) == InOrder(t)
  {
    var a, b, c, x, y := InOrder(t.l), InOrder(t.r.l), InOrder(t.r.r), t.n, t.r.n;
    assert InOrder(t) == a + [x] + (b + [y] + c);
    assert InOrder(RotL(t)) == (a + [x] + b) + [y] + c;
  }

  lemma SameOrder(ctx: Ctx, t: Tree, t': Tree)
    requires InOrder(t) == InOrder(t')
    ensures InOrder(Plug(ctx, t)) == InOrder(Plug(ctx, t'))
  {
    InOrderPlug(ctx, t);
    InOrderPlug(ctx, t');
  }

  /** __rb_rotate_left at the focus. */
  method RotateLeftFocus(node: Node, root: Root, ghost m: Mem, ghost ctx: Ctx, ghost t: Tree) returns (ghost m': Mem)
    requires Holds(root, m) && At(m, ctx, t) && t.Bin? && t.n == node && t.r.Bin?
    modifies root, m.cells.Keys
    ensures Holds(root, m') && At(m', ctx, RotL(t)) && m'.cells.Keys == m.cells.Keys
    ensures InOrder(Plug(ctx, RotL(t))) == InOrder(Plug(ctx, t))
  {
    ghost var y, b, p := t.r.n, RootOf(t.r.l), ParentIn(ctx);
    RotatableLeft(m, ctx, t);
    hide Holds, At, Rotated, Rotatable;
    m' := RotateLeft(node, root, m, y, b, p);
    RotateLeftEffect(m, node, y, b, p);
    RotatedKeys(m, m', node, y, b, p, true);
    RotateLeftAt(m, m', ctx, t.l, node, t.red, t.r.l, y, t.r.red, t.r.r);
    RotationKeepsOrder(ctx, t);
  }

  lemma RotatedKeys(m: Mem, m': Mem, x: Node, y: Node, b: Node?, p: Node?, left: bool)
    requires Rotated(m, m', x, y, b, p, left)
    ensures m'.cells.Keys == m.cells.Keys
  {}

  lemma RotatableLeft(m: Mem, ctx: Ctx, t: Tree)
    requires At(m, ctx, t) && t.Bin? && t.r.Bin?
    ensures Rotatable(m, t.n, t.r.n, RootOf(t.r.l), ParentIn(ctx))
    ensures m.cells[t.n].right == t.r.n && m.cells[t.r.n].left == RootOf(t.r.l)
  {
    RotationParts(ctx, t.l, t.n, t.red, t.r.l, t.r.n, t.r.red, t.r.r);
    Look(m, ctx, t);
    MoveR(m, t.l, t.n, t.red, ctx, t.r);
    Look(m, InR(t.l, t.n, t.red, ctx), t.r);
    MoveL(m, t.r.n, t.r.red, t.r.r, InR(t.l, t.n, t.red, ctx), t.r.l);
    Look(m, InL(t.r.n, t.r.red, t.r.r, InR(t.l, t.n, t.red, ctx)), t.r.l);
    hide Nodes, CtxNodes, Proper, CtxProper, Rep;
  }

  /** __rb_rotate_right at the focus. */
  method RotateRightFocus(node: Node, root: Root, ghost m: Mem, ghost ctx: Ctx, ghost t: Tree) returns (ghost m': Mem)
    requires Holds(root, m) && At(m, ctx, t) && t.Bin? && t.n == node && t.l.Bin?
    modifies root, m.cells.Keys
    ensures Holds(root, m') && At(m', ctx, RotR(t)) && m'.cells.Keys == m.cells.Keys
    ensures InOrder(Plug(ctx, RotR(t))) == InOrder(Plug(ctx, t))
  {
    ghost var x, b, p := t.l.n, RootOf(t.l.r), ParentIn(ctx);
    RotatableRight(m, ctx, t);
    hide Holds, At, Rotated, Rotatable;
    m' := RotateRight(node, root, m, x, b, p);
    RotateRightEffect(m, node, x, b, p);
    RotatedKeys(m, m', node, x, b, p, false);
    RotateRightAt(m, m', ctx, t.l.l, x, t.l.red, t.l.r, node, t.red, t.r);
    RotationKeepsOrder(ctx, t);
  }

  lemma RotatableRight(m: Mem, ctx: Ctx, t: Tree)
    requires At(m, ctx, t) && t.Bin? && t.l.Bin?
    ensures Rotatable(m, t.n, t.l.n, RootOf(t.l.r), ParentIn(ctx))
    ensures m.cells[t.n].left == t.l.n && m.cells[t.l.n].right == RootOf(t.l.r)
  {
    RotationParts(ctx, t.l.l, t.l.n, t.l.red, t.l.r, t.n, t.red, t.r);
    Look(m, ctx, t);
    MoveL(m, t.n, t.red, t.r, ctx, t.l);
    Look(m, InL(t.n, t.red, t.r, ctx), t.l);
    MoveR(m, t.l.l, t.l.n, t.l.red, InL(t.n, t.red, t.r, ctx), t.l.r);
    Look(m, InR(t.l.l, t.l.n, t.l.red, InL(t.n, t.red, t.r, ctx)), t.l.r);
    hide Nodes, CtxNodes, Proper, CtxProper, Rep;
  }

  /** Colours the node at the focus. */
  method ColorFocus(node: Node, red: bool, root: Root, ghost m: Mem, ghost ctx: Ctx, ghost t: Tree)
    returns (ghost m': Mem)
    requires Holds(root, m) && At(m, ctx, t) && t.Bin? && t.n == node
    modifies node
    ensures Holds(root, m') && At(m', ctx, t.(red := red)) && m'.cells.Keys == m.cells.Keys
    ensures InOrder(Plug(ctx, t.(red := red))) == InOrder(Plug(ctx, t))
  {
    Look(m, ctx, t);
    hide Holds;
    m' := SetColor(node, red, root, m);
    ColoredAt(m, m', ctx, t, red);
    SameOrder(ctx, t, t.(red := red));
  }

  lemma ColoredAt(m: Mem, m': Mem, ctx: Ctx, t: Tree, red: bool)
    requires At(m, ctx, t) && t.Bin? && t.n in m.cells && m' == Put(m, t.n, m.cells[t.n].(red := red))
    ensures At(m', ctx, t.(red := red))
  {
    Parts(ctx, t);
    RepFrame(m.cells, m'.cells, t.l, t.n);
    RepFrame(m.cells, m'.cells, t.r, t.n);
    CtxFrame(m, m', ctx, t.n);
  }

  /** The tree one level up from a position. */
  ghost function Below(ctx: Ctx, t: Tree): (r: Tree)
    requires !ctx.Top?
    ensures r.Bin? && r.n == ctx.n && r.red == ctx.red && Plug(ctx.up, r) == Plug(ctx, t)
  {
    if ctx.InL? then Bin(t, ctx.n, ctx.red, ctx.r) else Bin(ctx.l, ctx.n, ctx.red, t)
  }

  ghost function Sibling(ctx: Ctx): Tree
    requires !ctx.Top?
  {
    if ctx.InL? then ctx.r else ctx.l
  }

  lemma {:induction false} WholeTree(m: Mem, ctx: Ctx, t: Tree)
    ensures At(m, ctx, t) <==> At(m, Top, Plug(ctx, t))
    decreases ctx
  {
    match ctx
    case Top =>
    case InL(n, red, r, up) => MoveL(m, n, red, r, up, t); WholeTree(m, up, Bin(t, n, red, r));
    case InR(l, n, red, up) => MoveR(m, l, n, red, up, t); WholeTree(m, up, Bin(l, n, red, t));
  }

  /** Comparing a child pointer tells on which side of its parent the focus is. */
  lemma ChildSide(m: Mem, ctx: Ctx, t: Tree)
    requires At(m, ctx, t) && t.Bin? && !ctx.Top?
    ensures ctx.n in m.cells
    ensures m.cells[ctx.n].left == t.n <==> ctx.InL?
    ensures m.cells[ctx.n].right == t.n <==> ctx.InR?
  {
    Look(m, ctx, t);
    RootInTree(Sibling(ctx));
    RootInTree(t);
  }

  /** Colours the left child of the focus. */
  method ColorLeft(child: Node, red: bool, root: Root, ghost m: Mem, ghost ctx: Ctx, ghost t: Tree)
    returns (ghost m': Mem)
    requires Holds(root, m) && At(m, ctx, t) && t.Bin? && t.l.Bin? && t.l.n == child
    modifies m.cells.Keys
    ensures Holds(root, m') && m'.cells.Keys == m.cells.Keys && At(m', ctx, t.(l := t.l.(red := red)))
    ensures InOrder(Plug(ctx, t.(l := t.l.(red := red)))) == InOrder(Plug(ctx, t))
  {
    ghost var c := InL(t.n, t.red, t.r, ctx);
    MoveL(m, t.n, t.red, t.r, ctx, t.l);
    Look(m, c, t.l);
    hide At, Holds;
    m' := ColorFocus(child, red, root, m, c, t.l);
    MoveL(m', t.n, t.red, t.r, ctx, t.l.(red := red));
  }

  /** Colours the right child of the focus. */
  method ColorRight(child: Node, red: bool, root: Root, ghost m: Mem, ghost ctx: Ctx, ghost t: Tree)
    returns (ghost m': Mem)
    requires Holds(root, m) && At(m, ctx, t) && t.Bin? && t.r.Bin? && t.r.n == child
    modifies m.cells.Keys
    ensures Holds(root, m') && m'.cells.Keys == m.cells.Keys && At(m', ctx, t.(r := t.r.(red := red)))
    ensures InOrder(Plug(ctx, t.(r := t.r.(red := red)))) == InOrder(Plug(ctx, t))
  {
    ghost var c := InR(t.l, t.n, t.red, ctx);
    MoveR(m, t.l, t.n, t.red, ctx, t.r);
    Look(m, c, t.r);
    hide At, Holds;
    m' := ColorFocus(child, red, root, m, c, t.r);
    MoveR(m', t.l, t.n, t.red, ctx, t.r.(red := red));
  }

  /** Every node of the tree has a cell. */
  lemma {:induction false} CtxInCells(m: Mem, ctx: Ctx, hole: Node?)
    requires CtxRep(m, ctx, hole)
    ensures CtxNodes(ctx) <= m.cells.Keys
  {
    match ctx
    case Top =>
    case InL(n, _, r, up) => RepInCells(m.cells, r, n); CtxInCells(m, up, n);
    case InR(l, n, _, up) => RepInCells(m.cells, l, n); CtxInCells(m, up, n);
  }

  lemma {:induction false} RepInCells(c: map<Node, Cell>, t: Tree, p: Node?)
    requires Rep(c, t, p)
    ensures Nodes(t) <= c.Keys
  {
    if t.Bin? {
      RepInCells(c, t.l, t.n);
      RepInCells(c, t.r, t.n);
    }
  }
}
