/** Removing a node, and putting one node in the place of another (rb_erase and rb_replace_node in
    bintree.c). */
module RedBlackErase {
  import opened RedBlackTree
  import opened RedBlackHeap
  import opened RedBlackEraseColor

  /** The context that goes on outside path with base. */
  ghost function Graft(path: Ctx, base: Ctx): Ctx
  {
    match path
    case Top => base
    case InL(n, red, r, up) => InL(n, red, r, Graft(up, base))
    case InR(l, n, red, up) => InR(l, n, red, Graft(up, base))
  }

  lemma {:induction false} GraftPlug(path: Ctx, base: Ctx, t: Tree)
    ensures Plug(Graft(path, base), t) == Plug(base, Plug(path, t))
    decreases path
  {
    match path
    case Top =>
    case InL(n, red, r, up) => GraftPlug(up, base, Bin(t, n, red, r));
    case InR(l, n, red, up) => GraftPlug(up, base, Bin(l, n, red, t));
  }

  /** The same memory seen at two levels. */
  lemma {:induction false} GraftAt(m: Mem, path: Ctx, base: Ctx, t: Tree)
    ensures At(m, Graft(path, base), t) <==> At(m, base, Plug(path, t))
    decreases path
  {
    match path
    case Top =>
    case InL(n, red, r, up) =>
      MoveL(m, n, red, r, Graft(up, base), t);
      GraftAt(m, up, base, Bin(t, n, red, r));
    case InR(l, n, red, up) =>
      MoveR(m, l, n, red, Graft(up, base), t);
      GraftAt(m, up, base, Bin(l, n, red, t));
  }

  /** A memory that agrees on every node of the tree. */
  lemma AtFrame(m: Mem, m': Mem, ctx: Ctx, t: Tree)
    requires At(m, ctx, t) && m'.root == m.root && Same(m.cells, m'.cells, All(ctx, t))
    ensures At(m', ctx, t)
  {
    RepFrame(m.cells, m'.cells, t, ParentIn(ctx));
    CtxFrame(m, m', ctx, RootOf(t));
  }

  /** node is replaced below p by its only child. */
  ghost function Spliced(m: Mem, node: Node, child: Node?, p: Node?): (m': Mem)
    requires (child != null ==> child in m.cells) && (p != null ==> p in m.cells)
    ensures m'.cells.Keys == m.cells.Keys
  {
    Relinked(Reparented(m, child, p), p, node, child)
  }

  /** The focus with at most one subtree, which is c. */
  ghost predicate OnlyChild(t: Tree, c: Tree)
  {
    t.Bin? && ((t.l.Leaf? && t.r == c) || (t.r.Leaf? && t.l == c))
  }

  lemma SplicedAt(m: Mem, ctx: Ctx, t: Tree, c: Tree)
    requires At(m, ctx, t) && OnlyChild(t, c)
    ensures RootOf(c) != null ==> RootOf(c) in m.cells
    ensures ParentIn(ctx) != null ==> ParentIn(ctx) in m.cells
    ensures At(Spliced(m, t.n, RootOf(c), ParentIn(ctx)), ctx, c)
    ensures t.n !in All(ctx, c)
  {
    Look(m, ctx, t);
    Parts(ctx, t);
    RepBin(m.cells, t, ParentIn(ctx));
    RootInTree(c);
    ParentInCtx(ctx);
    if c.Bin? { RepBin(m.cells, c, t.n); }
    var m' := Spliced(m, t.n, RootOf(c), ParentIn(ctx));
    SplicedSame(m, t.n, RootOf(c), ParentIn(ctx), Nodes(c) - {RootOf(c)}, CtxNodes(ctx) - {ParentIn(ctx)});
    hide Nodes, CtxNodes, Proper, CtxProper, Rep, CtxRep, Put;
    RepMoved(m.cells, m'.cells, c, t.n, ParentIn(ctx));
    CtxMoved(m, m', ctx, t.n, RootOf(c));
  }

  lemma SplicedSame(m: Mem, node: Node, child: Node?, p: Node?, a: set<Node>, b: set<Node>)
    requires (child != null ==> child in m.cells) && (p != null ==> p in m.cells)
    requires child !in a && p !in a && child !in b && p !in b
    ensures Same(m.cells, Spliced(m, node, child, p).cells, a)
    ensures Same(m.cells, Spliced(m, node, child, p).cells, b)
  {}

  /** Removing a node with at most one child: the path is short exactly when the node was black. */
  lemma SplicedBalance(ctx: Ctx, t: Tree, c: Tree)
    requires RedBlack(Plug(ctx, t)) && OnlyChild(t, c)
    ensures t.red ==> RedBlack(Plug(ctx, c))
    ensures !t.red ==> Balanced(Blackened(c)) && CtxBalanced(ctx, BlackHeight(c) + 1)
  {
    UnplugRedBlack(ctx, t);
    if t.red { PlugRedBlack(ctx, c); }
  }

  /** repl takes over the cell of gone, and the links to it. */
  ghost function Replaced(m: Mem, gone: Node, repl: Node, p: Node?, l: Node?, r: Node?): (m': Mem)
    requires gone in m.cells && repl in m.cells
    requires (p != null ==> p in m.cells) && (l != null ==> l in m.cells) && (r != null ==> r in m.cells)
    ensures m'.cells.Keys == m.cells.Keys
  {
    var m1 := Reparented(Reparented(Relinked(m, p, gone, repl), l, repl), r, repl);
    Put(m1, repl, m1.cells[gone])
  }

  ghost predicate Replaceable(m: Mem, gone: Node, repl: Node, p: Node?, l: Node?, r: Node?)
  {
    && gone in m.cells && repl in m.cells
    && (p != null ==> p in m.cells) && (l != null ==> l in m.cells) && (r != null ==> r in m.cells)
    && gone != repl && p != gone && l != gone && r != gone && p != repl && l != repl && r != repl
    && (p != null ==> p != l && p != r) && (l != null ==> l != r)
  }

  ghost predicate ReplacedBy(m: Mem, m': Mem, gone: Node, repl: Node, p: Node?, l: Node?, r: Node?)
    requires Replaceable(m, gone, repl, p, l, r)
  {
    && m'.cells.Keys == m.cells.Keys
    && m'.cells[repl] == m.cells[gone] && m'.root == (if p == null then repl else m.root)
    && (p != null ==> m'.cells[p] == Redirect(m.cells[p], gone, repl))
    && (l != null ==> m'.cells[l] == m.cells[l].(parent := repl))
    && (r != null ==> m'.cells[r] == m.cells[r].(parent := repl))
    && forall z <- m.cells.Keys :: z != p && z != l && z != r && z != repl ==> m'.cells[z] == m.cells[z]
  }

  lemma ReplaceableAt(m: Mem, ctx: Ctx, t: Tree, repl: Node)
    requires At(m, ctx, t) && t.Bin? && repl in m.cells && repl !in All(ctx, t)
    ensures Replaceable(m, t.n, repl, ParentIn(ctx), RootOf(t.l), RootOf(t.r))
    ensures ZipProper(ctx, t.(n := repl)) && repl !in Nodes(t.l) && repl !in Nodes(t.r) && repl !in CtxNodes(ctx)
    ensures m.cells[t.n] == Cell(RootOf(t.l), RootOf(t.r), ParentIn(ctx), t.red)
    ensures Rep(m.cells, t.l, t.n) && Rep(m.cells, t.r, t.n) && CtxRep(m, ctx, t.n)
  {
    Look(m, ctx, t);
    Parts(ctx, t);
    ProperBin(ctx, t.l, repl, t.red, t.r);
    RepBin(m.cells, t, ParentIn(ctx));
    RootInTree(t.l);
    RootInTree(t.r);
    ParentInCtx(ctx);
  }

  lemma ReplacedSame(m: Mem, gone: Node, repl: Node, p: Node?, l: Node?, r: Node?, s: set<Node>)
    requires Replaceable(m, gone, repl, p, l, r) && p !in s && l !in s && r !in s && repl !in s
    ensures Same(m.cells, Replaced(m, gone, repl, p, l, r).cells, s)
  {
    ReplacedCells(m, gone, repl, p, l, r);
    hide Replaced;
  }

  /** The links of the replaced node lead to different parts of the tree. */
  lemma PartsApart(ctx: Ctx, t: Tree)
    requires ZipProper(ctx, t) && t.Bin?
    ensures ParentIn(ctx) !in Nodes(t.l) && ParentIn(ctx) !in Nodes(t.r)
    ensures RootOf(t.l) !in Nodes(t.r) && RootOf(t.l) !in CtxNodes(ctx)
    ensures RootOf(t.r) !in Nodes(t.l) && RootOf(t.r) !in CtxNodes(ctx)
    ensures Proper(t.l) && Proper(t.r) && CtxProper(ctx)
  {
    Parts(ctx, t);
    RootInTree(t.l);
    RootInTree(t.r);
    ParentInCtx(ctx);
  }

  lemma ReplacedChildren(m: Mem, ctx: Ctx, t: Tree, repl: Node)
    requires At(m, ctx, t) && t.Bin? && repl in m.cells && repl !in All(ctx, t)
    requires Replaceable(m, t.n, repl, ParentIn(ctx), RootOf(t.l), RootOf(t.r))
    ensures var m' := Replaced(m, t.n, repl, ParentIn(ctx), RootOf(t.l), RootOf(t.r));
      Rep(m'.cells, t.l, repl) && Rep(m'.cells, t.r, repl)
  {
    var p, l, r := ParentIn(ctx), RootOf(t.l), RootOf(t.r);
    ReplaceableAt(m, ctx, t, repl);
    PartsApart(ctx, t);
    hide *;
    ReplacedLinks(m, t.n, repl, p, l, r);
    ReplacedSame(m, t.n, repl, p, l, r, Nodes(t.l) - {l});
    ReplacedSame(m, t.n, repl, p, l, r, Nodes(t.r) - {r});
    var m' := Replaced(m, t.n, repl, p, l, r);
    RepMoved(m.cells, m'.cells, t.l, t.n, repl);
    RepMoved(m.cells, m'.cells, t.r, t.n, repl);
  }

  lemma ReplacedAt(m: Mem, ctx: Ctx, t: Tree, repl: Node)
    requires At(m, ctx, t) && t.Bin? && repl in m.cells && repl !in All(ctx, t)
    ensures Replaceable(m, t.n, repl, ParentIn(ctx), RootOf(t.l), RootOf(t.r))
    ensures At(Replaced(m, t.n, repl, ParentIn(ctx), RootOf(t.l), RootOf(t.r)), ctx, t.(n := repl))
  {
    var p, l, r := ParentIn(ctx), RootOf(t.l), RootOf(t.r);
    ReplaceableAt(m, ctx, t, repl);
    ReplacedChildren(m, ctx, t, repl);
    PartsApart(ctx, t);
    Parts(ctx, t);
    hide Nodes, CtxNodes, Proper, CtxProper, Rep, CtxRep, Replaced, Replaceable, Same, Redirect;
    ReplacedLinks(m, t.n, repl, p, l, r);
    ReplacedSame(m, t.n, repl, p, l, r, CtxNodes(ctx) - {p});
    var m' := Replaced(m, t.n, repl, p, l, r);
    CtxMoved(m, m', ctx, t.n, repl);
    BinRep(m'.cells, t.(n := repl), p);
  }

  /** The cells of the replacement and of its neighbours. */
  lemma ReplacedLinks(m: Mem, gone: Node, repl: Node, p: Node?, l: Node?, r: Node?)
    requires Replaceable(m, gone, repl, p, l, r)
    ensures var m' := Replaced(m, gone, repl, p, l, r);
      && repl in m'.cells && m'.cells[repl] == m.cells[gone] && m'.root == (if p == null then repl else m.root)
      && (p != null ==> p in m'.cells && m'.cells[p] == Redirect(m.cells[p], gone, repl))
      && (l != null ==> l in m'.cells && m'.cells[l] == m.cells[l].(parent := repl))
      && (r != null ==> r in m'.cells && m'.cells[r] == m.cells[r].(parent := repl))
  {
    ReplacedCells(m, gone, repl, p, l, r);
    hide Replaced;
  }

  lemma ReplacedCells(m: Mem, gone: Node, repl: Node, p: Node?, l: Node?, r: Node?)
    requires Replaceable(m, gone, repl, p, l, r)
    ensures ReplacedBy(m, Replaced(m, gone, repl, p, l, r), gone, repl, p, l, r)
  {
    hide Put, Relinked, Reparented, Redirect;
  }

  /** rb_replace_node: a node outside the tree takes the place and colour of one inside. */
  method ReplaceNode(victim: Node, repl: Node, root: Root, ghost m: Mem, ghost ctx: Ctx, ghost t: Tree)
    returns (ghost m': Mem)
    requires Holds(root, m) && At(m, ctx, t) && t.Bin? && t.n == victim && repl in m.cells && repl !in All(ctx, t)
    modifies root, m.cells.Keys
    ensures Holds(root, m') && m'.cells.Keys == m.cells.Keys && At(m', ctx, t.(n := repl))
  {
    Look(m, ctx, t);
    ReplacedAt(m, ctx, t, repl);
    var parent, left, right := victim.parent, victim.left, victim.right;
    hide Holds, At, Put, Relinked, Reparented;
    m' := Relink(parent, victim, repl, root, m);
    m' := SetParent(left, repl, root, m');
    m' := SetParent(right, repl, root, m');
    m' := CopyNode(victim, repl, root, m');
  }

  method CopyNode(from: Node, to: Node, ghost root: Root, ghost m: Mem) returns (ghost m': Mem)
    requires Holds(root, m) && from in m.cells && to in m.cells
    modifies to
    ensures m' == Put(m, to, m.cells[from]) && Holds(root, m')
  {
    to.left, to.right, to.parent, to.red := from.left, from.right, from.parent, from.red;
    m' := Put(m, to, m.cells[from]);
  }

  /** What the successor code relies on: gone has children l and r below p; succ, whose only child is on
      its right, is r itself or the left child of q. */
  ghost predicate Places(m: Mem, gone: Node, succ: Node, p: Node?, l: Node, r: Node, child: Node?, q: Node)
  {
    && gone in m.cells && succ in m.cells && l in m.cells && r in m.cells && q in m.cells
    && (p != null ==> p in m.cells) && (child != null ==> child in m.cells)
    && m.cells[gone].left == l && m.cells[gone].right == r && m.cells[gone].parent == p
    && m.cells[succ].right == child && m.cells[succ].parent == q && (child != null ==> m.cells[child].parent == succ)
    && succ != gone && succ != l && succ != p && succ != child && succ != q
    && gone != l && gone != r && gone != p && gone != child
    && l != p && l != r && l != child && l != q
    && p != r && p != q && (child != null ==> p != child)
    && (q == gone <==> r == succ) && (q != gone ==> q != child && r != child && m.cells[q].left == succ)
  }

  /** The memory after the assignments by which rb_erase puts succ in the place of gone. */
  ghost function Promoted(m: Mem, gone: Node, succ: Node, p: Node?, l: Node, r: Node, child: Node?, q: Node): (m': Mem)
    requires Places(m, gone, succ, p, l, r, child, q)
    ensures m'.cells.Keys == m.cells.Keys
  {
    var a1 := Relinked(m, p, gone, succ);
    var a2 := if q == gone then a1 else Detached(a1, succ, r, child, q);
    var a3 := Put(a2, succ, a2.cells[succ].(parent := a2.cells[gone].parent, red := a2.cells[gone].red));
    var a4 := Put(a3, succ, a3.cells[succ].(left := a3.cells[gone].left));
    Reparented(a4, l, succ)
  }

  /** succ leaves its place as the left child of q and takes r as its right child. */
  ghost function Detached(m: Mem, succ: Node, r: Node, child: Node?, q: Node): (m': Mem)
    requires succ in m.cells && r in m.cells && q in m.cells && (child != null ==> child in m.cells)
    ensures m'.cells.Keys == m.cells.Keys
  {
    var d1 := Reparented(m, child, q);
    var d2 := Put(d1, q, d1.cells[q].(left := child));
    var d3 := Put(d2, succ, d2.cells[succ].(right := r));
    Reparented(d3, r, succ)
  }

  ghost predicate SplicedOut(m: Mem, m': Mem, succ: Node, child: Node?, q: Node)
    requires (child != null ==> child in m.cells) && q in m.cells
  {
    && m'.cells.Keys == m.cells.Keys
    && m'.root == m.root && m'.cells[q] == Redirect(m.cells[q], succ, child)
    && (child != null ==> m'.cells[child] == m.cells[child].(parent := q))
    && forall z <- m.cells.Keys :: z != q && z != child ==> m'.cells[z] == m.cells[z]
  }

  lemma SplicedCells(m: Mem, succ: Node, child: Node?, q: Node)
    requires (child != null ==> child in m.cells) && q in m.cells && q != child
    ensures SplicedOut(m, Spliced(m, succ, child, q), succ, child, q)
  {
    hide Put, Redirect;
  }

  /** What the assignments change, apart from the links of q, r and child. */
  ghost predicate Moved(m: Mem, m': Mem, gone: Node, succ: Node, p: Node?, l: Node, right: Node?)
    requires gone in m.cells && succ in m.cells && l in m.cells && (p != null ==> p in m.cells)
  {
    && m'.cells.Keys == m.cells.Keys
    && m'.root == (if p == null then succ else m.root)
    && m'.cells[succ] == Cell(l, right, p, m.cells[gone].red)
    && m'.cells[l] == m.cells[l].(parent := succ)
    && (p != null ==> m'.cells[p] == Redirect(m.cells[p], gone, succ))
  }

  /** The successor is the right child itself. */
  ghost predicate MovedNear(m: Mem, m': Mem, gone: Node, succ: Node, p: Node?, l: Node, r: Node, child: Node?)
    requires Places(m, gone, succ, p, l, r, child, gone)
  {
    && Moved(m, m', gone, succ, p, l, child)
    && forall z <- m.cells.Keys :: z != p && z != l && z != succ ==> m'.cells[z] == m.cells[z]
  }

  lemma PromotedNear(m: Mem, gone: Node, succ: Node, p: Node?, l: Node, r: Node, child: Node?)
    requires Places(m, gone, succ, p, l, r, child, gone)
    ensures MovedNear(m, Promoted(m, gone, succ, p, l, r, child, gone), gone, succ, p, l, r, child)
  {
    hide Put, Redirect, Relinked, Reparented;
  }

  lemma AgreeNear(m: Mem, m1: Mem, m2: Mem, m': Mem, gone: Node, succ: Node, p: Node?, l: Node, r: Node, child: Node?)
    requires Places(m, gone, succ, p, l, r, child, gone) && SplicedOut(m, m1, succ, child, gone)
    requires Replaceable(m1, gone, succ, p, l, child) && ReplacedBy(m1, m2, gone, succ, p, l, child)
    requires MovedNear(m, m', gone, succ, p, l, r, child)
    ensures Agree(m', m2, gone)
  {}

  ghost predicate Agree(m: Mem, m': Mem, gone: Node)
  {
    m'.root == m.root && m'.cells.Keys == m.cells.Keys && forall z <- m.cells.Keys :: z != gone ==>
      m'.cells[z] == m.cells[z]
  }

  ghost predicate Detachment(m: Mem, m': Mem, succ: Node, r: Node, child: Node?, q: Node)
    requires succ in m.cells && r in m.cells && q in m.cells && (child != null ==> child in m.cells)
    requires m'.cells.Keys == m.cells.Keys
  {
    && (child != null ==> m'.cells[child] == m.cells[child].(parent := q))
    && (q == r ==> m'.cells[q] == m.cells[q].(left := child, parent := succ))
    && (q != r ==> m'.cells[q] == m.cells[q].(left := child) && m'.cells[r] == m.cells[r].(parent := succ))
  }

  lemma DetachedCells(m: Mem, succ: Node, r: Node, child: Node?, q: Node)
    requires succ in m.cells && r in m.cells && q in m.cells && (child != null ==> child in m.cells)
    requires succ != r && succ != child && succ != q && q != child && r != child
    ensures var m' := Detached(m, succ, r, child, q);
      && Detachment(m, m', succ, r, child, q)
      && m'.root == m.root
      && m'.cells[succ] == m.cells[succ].(right := r)
      && forall z <- m.cells.Keys :: z != succ && z != child && z != q && z != r ==> m'.cells[z] == m.cells[z]
  {
    hide Put, Reparented;
  }

  /** The successor is further down. */
  ghost predicate MovedFar(m: Mem, m': Mem, gone: Node, succ: Node, p: Node?, l: Node, r: Node, child: Node?, q: Node)
    requires Places(m, gone, succ, p, l, r, child, q)
  {
    && Moved(m, m', gone, succ, p, l, r) && Detachment(m, m', succ, r, child, q)
    && forall z <- m.cells.Keys :: z != p && z != l && z != succ && z != child && z != q && z != r ==>
      m'.cells[z] == m.cells[z]
  }

  lemma PromotedFar(m: Mem, gone: Node, succ: Node, p: Node?, l: Node, r: Node, child: Node?, q: Node)
    requires Places(m, gone, succ, p, l, r, child, q) && q != gone
    ensures MovedFar(m, Promoted(m, gone, succ, p, l, r, child, q), gone, succ, p, l, r, child, q)
  {
    DetachedCells(Relinked(m, p, gone, succ), succ, r, child, q);
    hide Put, Redirect, Relinked, Reparented, Detached;
  }

  lemma AgreeFar(m: Mem, m1: Mem, m2: Mem, m': Mem, gone: Node, succ: Node, p: Node?, l: Node, r: Node, child: Node?,
                 q: Node)
    requires Places(m, gone, succ, p, l, r, child, q) && q != gone && SplicedOut(m, m1, succ, child, q)
    requires Replaceable(m1, gone, succ, p, l, r) && ReplacedBy(m1, m2, gone, succ, p, l, r)
    requires MovedFar(m, m', gone, succ, p, l, r, child, q)
    ensures Agree(m', m2, gone)
  {
    forall z <- m.cells.Keys | z != gone
      ensures m2.cells[z] == m'.cells[z]
    {
      if z == q || z == r || z == child { } else if z == succ { } else if z == p || z == l { }
    }
  }

  /** The code's order of assignments gives the same as splicing succ out and then putting it in the
      place of gone, apart from what is left in gone. */
  lemma PromotedAgrees(m: Mem, gone: Node, succ: Node, p: Node?, l: Node, r: Node, child: Node?, q: Node)
    requires Places(m, gone, succ, p, l, r, child, q)
    ensures var r' := if q == gone then child else r;
      && Replaceable(Spliced(m, succ, child, q), gone, succ, p, l, r')
      && Agree(Promoted(m, gone, succ, p, l, r, child, q), Replaced(Spliced(m, succ, child, q), gone, succ, p, l, r'),
        gone)
  {
    var m1, m' := Spliced(m, succ, child, q), Promoted(m, gone, succ, p, l, r, child, q);
    SplicedCells(m, succ, child, q);
    hide Promoted, Replaced, Spliced, SplicedOut, Agree, ReplacedBy, MovedNear, MovedFar;
    if q == gone {
      ReplacedCells(m1, gone, succ, p, l, child);
      PromotedNear(m, gone, succ, p, l, r, child);
      AgreeNear(m, m1, Replaced(m1, gone, succ, p, l, child), m', gone, succ, p, l, r, child);
    } else {
      ReplacedCells(m1, gone, succ, p, l, r);
      PromotedFar(m, gone, succ, p, l, r, child, q);
      AgreeFar(m, m1, Replaced(m1, gone, succ, p, l, r), m', gone, succ, p, l, r, child, q);
    }
  }

  /** A way that goes left at every step. */
  ghost predicate AllLeft(path: Ctx)
  {
    !path.Top? ==> path.InL? && AllLeft(path.up)
  }

  lemma {:induction false} AllLeftBefore(path: Ctx)
    requires AllLeft(path)
    ensures Before(path) == []
  {
    if !path.Top? { AllLeftBefore(path.up); }
  }

  /** The subtree at the first node of a tree. */
  ghost function FirstNode(t: Tree): (f: Tree)
    requires t.Bin?
    ensures f.Bin? && f.l.Leaf?
  {
    if t.l.Leaf? then t else FirstNode(t.l)
  }

  lemma {:induction false} FirstOfAllLeft(path: Ctx, t: Tree)
    requires AllLeft(path) && t.Bin? && Plug(path, t).Bin?
    ensures FirstNode(Plug(path, t)) == FirstNode(t)
    decreases path
  {
    if !path.Top? { FirstOfAllLeft(path.up, Bin(t, path.n, path.red, path.r)); }
  }

  /** Going down left as far as possible. */
  method Leftmost(start: Node, ghost root: Root, ghost m: Mem, ghost base: Ctx, ghost t0: Tree)
    returns (node: Node, ghost path: Ctx, ghost t: Tree)
    requires Holds(root, m) && At(m, base, t0) && t0.Bin? && t0.n == start
    ensures AllLeft(path) && Plug(path, t) == t0 && At(m, Graft(path, base), t)
    ensures t.Bin? && t.n == node && t.l.Leaf?
  {
    node, path, t := start, Top, t0;
    Look(m, base, t);
    while node.left != null
      invariant AllLeft(path) && Plug(path, t) == t0 && At(m, Graft(path, base), t)
      invariant t.Bin? && t.n == node && node in m.cells && m.cells[node].left == RootOf(t.l)
      decreases t
    {
      node := node.left;
      MoveL(m, t.n, t.red, t.r, Graft(path, base), t.l);
      path, t := InL(t.n, t.red, t.r, path), t.l;
      Look(m, Graft(path, base), t);
    }
  }

  /** The tree at the removed node, seen at its successor. */
  ghost predicate SuccessorAt(m: Mem, ctx: Ctx, t: Tree, path: Ctx, ts: Tree)
  {
    && At(m, ctx, t) && t.Bin? && t.l.Bin? && t.r.Bin?
    && ts.Bin? && ts.l.Leaf? && AllLeft(path) && t.r == Plug(path, ts)
  }

  ghost function Outside(ctx: Ctx, t: Tree): Ctx
    requires t.Bin?
  {
    InR(t.l, t.n, t.red, ctx)
  }

  lemma {:induction false} PlugRoot(path: Ctx, t: Tree)
    requires t.Bin?
    ensures path.Top? ==> RootOf(Plug(path, t)) == t.n
    ensures !path.Top? ==> RootOf(Plug(path, t)) != null && RootOf(Plug(path, t)) in CtxNodes(path)
    decreases path
  {
    match path
    case Top =>
    case InL(n, red, r, up) => PlugRoot(up, Bin(t, n, red, r));
    case InR(l, n, red, up) => PlugRoot(up, Bin(l, n, red, t));
  }

  /** The nodes around the removed node and its successor are different. */
  lemma SuccessorDistinct(ctx: Ctx, t: Tree, path: Ctx, ts: Tree)
    requires ZipProper(ctx, t) && t.Bin? && t.l.Bin? && t.r.Bin? && ts.Bin? && t.r == Plug(path, ts)
    ensures ts.n != t.n && ts.n != t.l.n && ts.n != ParentIn(ctx) && ts.n != RootOf(ts.r)
    ensures t.n != t.l.n && t.n != t.r.n && t.n != ParentIn(ctx) && t.n != RootOf(ts.r)
    ensures t.l.n != ParentIn(ctx) && t.l.n != t.r.n && t.l.n != RootOf(ts.r)
    ensures ParentIn(ctx) != t.r.n && (RootOf(ts.r) != null ==> ParentIn(ctx) != RootOf(ts.r))
    ensures path.Top? <==> t.r.n == ts.n
    ensures !path.Top? ==> path.n != ts.n && path.n != t.n && path.n != t.l.n && path.n != ParentIn(ctx)
    ensures !path.Top? ==> path.n != RootOf(ts.r) && t.r.n != RootOf(ts.r)
  {
    PlugProper(path, ts);
    PlugRoot(path, ts);
    Parts(ctx, t);
    Parts(path, ts);
    RootInTree(t.l);
    RootInTree(t.r);
    RootInTree(ts.r);
    ParentInCtx(ctx);
    ParentInCtx(path);
    var nr, np, ns := Nodes(t.r), CtxNodes(path), Nodes(ts.r);
    assert ts.n in nr && (ts.r.Bin? ==> ts.r.n in nr);
    assert !path.Top? ==> path.n in nr && path.n in np;
    hide *;
  }

  /** What is where, from the shape of the tree. */
  lemma SuccessorPlaces(m: Mem, ctx: Ctx, t: Tree, path: Ctx, ts: Tree)
    requires SuccessorAt(m, ctx, t, path, ts)
    ensures At(m, Graft(path, Outside(ctx, t)), ts)
    ensures var q := ParentIn(Graft(path, Outside(ctx, t)));
      && q != null && (q == t.n <==> path.Top?)
      && Places(m, t.n, ts.n, ParentIn(ctx), RootOf(t.l), RootOf(t.r), RootOf(ts.r), q)
  {
    MoveR(m, t.l, t.n, t.red, ctx, t.r);
    GraftAt(m, path, Outside(ctx, t), ts);
    SuccessorDistinct(ctx, t, path, ts);
    var at := Graft(path, Outside(ctx, t));
    Look(m, at, ts);
    Look(m, ctx, t);
    InCells(m, ctx, t);
    MoveR(m, ts.l, ts.n, ts.red, at, ts.r);
    Look(m, InR(ts.l, ts.n, ts.red, at), ts.r);
    hide At, Plug;
  }

  /** The root of a nonempty subtree has a cell. */
  lemma InCells(m: Mem, ctx: Ctx, t: Tree)
    requires At(m, ctx, t) && t.Bin?
    ensures t.l.Bin? ==> t.l.n in m.cells
    ensures t.r.Bin? ==> t.r.n in m.cells
  {
    MoveL(m, t.n, t.red, t.r, ctx, t.l);
    MoveR(m, t.l, t.n, t.red, ctx, t.r);
  }

  /** The first of the two steps behind the code: the successor is spliced out. */
  lemma SuccessorSpliced(m: Mem, m1: Mem, ctx: Ctx, t: Tree, path: Ctx, ts: Tree)
    requires t.Bin? && ts.Bin? && ts.l.Leaf? && At(m, Graft(path, Outside(ctx, t)), ts)
    requires (ts.r.Bin? ==> ts.r.n in m.cells) && ParentIn(Graft(path, Outside(ctx, t))) in m.cells
    requires m1 == Spliced(m, ts.n, RootOf(ts.r), ParentIn(Graft(path, Outside(ctx, t))))
    ensures At(m1, ctx, t.(r := Plug(path, ts.r)))
  {
    SplicedAt(m, Graft(path, Outside(ctx, t)), ts, ts.r);
    GraftAt(m1, path, Outside(ctx, t), ts.r);
    MoveR(m1, t.l, t.n, t.red, ctx, Plug(path, ts.r));
  }

  /** The successor in its new place: the tree without the removed node, seen where a node is missing. */
  lemma PromotedAt(m: Mem, m': Mem, ctx: Ctx, t: Tree, path: Ctx, ts: Tree, q: Node)
    requires SuccessorAt(m, ctx, t, path, ts) && q == ParentIn(Graft(path, Outside(ctx, t)))
    requires Places(m, t.n, ts.n, ParentIn(ctx), RootOf(t.l), RootOf(t.r), RootOf(ts.r), q)
    requires m' == Promoted(m, t.n, ts.n, ParentIn(ctx), RootOf(t.l), RootOf(t.r), RootOf(ts.r), q)
    ensures At(m', Graft(path, Outside(ctx, t.(n := ts.n))), ts.r)
  {
    var p, l, r, child := ParentIn(ctx), t.l.n, t.r.n, RootOf(ts.r);
    var m1 := Spliced(m, ts.n, child, q);
    hide At, Promoted, Spliced, Replaced, Replaceable, Agree, Plug, Graft, All, Places;
    SuccessorPlaces(m, ctx, t, path, ts);
    RemainingNodes(ctx, t, path, ts);
    RemainingRoot(path, ts);
    SuccessorSpliced(m, m1, ctx, t, path, ts);
    PromotedAgrees(m, t.n, ts.n, p, l, r, child, q);
    ReplacedInPlace(m1, m', ctx, t.(r := Plug(path, ts.r)), path, ts.r, ts.n);
  }

  /** The second step: the successor takes the place of the node. */
  lemma ReplacedInPlace(m: Mem, m': Mem, ctx: Ctx, t: Tree, path: Ctx, c: Tree, succ: Node)
    requires At(m, ctx, t) && t.Bin? && t.r == Plug(path, c)
    requires succ in m.cells && succ !in All(ctx, t) && t.n !in All(ctx, t.(n := succ))
    requires Replaceable(m, t.n, succ, ParentIn(ctx), RootOf(t.l), RootOf(t.r))
    requires Agree(m', Replaced(m, t.n, succ, ParentIn(ctx), RootOf(t.l), RootOf(t.r)), t.n)
    ensures At(m', Graft(path, InR(t.l, succ, t.red, ctx)), c)
  {
    hide At, Replaced, Agree, Plug, Graft, All;
    ReplacedAt(m, ctx, t, succ);
    AgreeAt(Replaced(m, t.n, succ, ParentIn(ctx), RootOf(t.l), RootOf(t.r)), m', ctx, t.(n := succ), t.n);
    BackDown(m', ctx, t.(n := succ), path, c);
  }

  lemma RemainingRoot(path: Ctx, ts: Tree)
    requires ts.Bin?
    ensures RootOf(Plug(path, ts.r)) == if path.Top? then RootOf(ts.r) else RootOf(Plug(path, ts))
  {
    if !path.Top? { SameRoot(path, ts, ts.r); }
  }

  lemma AgreeAt(m: Mem, m': Mem, ctx: Ctx, t: Tree, gone: Node)
    requires At(m, ctx, t) && Agree(m', m, gone) && gone !in All(ctx, t)
    ensures At(m', ctx, t)
  {
    AtFrame(m, m', ctx, t);
  }

  lemma BackDown(m: Mem, ctx: Ctx, t: Tree, path: Ctx, c: Tree)
    requires At(m, ctx, t) && t.Bin? && t.r == Plug(path, c)
    ensures At(m, Graft(path, Outside(ctx, t)), c)
  {
    MoveR(m, t.l, t.n, t.red, ctx, t.r);
    GraftAt(m, path, Outside(ctx, t), c);
  }

  lemma {:induction false} SameRoot(path: Ctx, t: Tree, t': Tree)
    requires !path.Top?
    ensures RootOf(Plug(path, t)) == RootOf(Plug(path, t'))
    decreases path
  {
    match path
    case InL(n, red, r, up) => if !up.Top? { SameRoot(up, Bin(t, n, red, r), Bin(t', n, red, r)); }
    case InR(l, n, red, up) => if !up.Top? { SameRoot(up, Bin(l, n, red, t), Bin(l, n, red, t')); }
  }

  lemma RemainingNodes(ctx: Ctx, t: Tree, path: Ctx, ts: Tree)
    requires ZipProper(ctx, t) && t.Bin? && ts.Bin? && t.r == Plug(path, ts)
    ensures ts.n !in All(ctx, t.(r := Plug(path, ts.r)))
    ensures t.n !in All(ctx, Bin(t.l, ts.n, t.red, Plug(path, ts.r)))
  {
    PlugProper(path, ts);
    PlugProper(path, ts.r);
    Parts(ctx, t);
    Parts(path, ts);
  }

  method ParentOf(node: Node, ghost root: Root, ghost m: Mem) returns (v: Node?)
    requires Holds(root, m) && node in m.cells
    ensures v == m.cells[node].parent
  {
    v := node.parent;
  }

  method IsRed(node: Node, ghost root: Root, ghost m: Mem) returns (red: bool)
    requires Holds(root, m) && node in m.cells
    ensures red == m.cells[node].red
  {
    red := node.red;
  }

  /** Moves succ out of its place as the left child of q, and puts r on its right. */
  method Detach(succ: Node, gone: Node, child: Node?, q: Node, root: Root, ghost m: Mem, ghost r: Node)
    returns (ghost m': Mem)
    requires Holds(root, m) && succ in m.cells && gone in m.cells && r in m.cells && q in m.cells
    requires child != null ==> child in m.cells
    requires gone != q && gone != child && gone != succ && m.cells[gone].right == r
    modifies m.cells.Keys
    ensures Holds(root, m') && m' == Detached(m, succ, r, child, q)
  {
    hide Holds, Put, Reparented;
    m' := SetParent(child, q, root, m);
    m' := SetLeft(q, child, root, m');
    var right := RightOf(gone, root, m');
    m' := SetRight(succ, right, root, m');
    right := RightOf(gone, root, m');
    m' := SetParent(right, succ, root, m');
  }

  /** Gives succ the parent, colour and left child of gone. */
  method Inherit(succ: Node, gone: Node, root: Root, ghost m: Mem, ghost l: Node) returns (ghost m': Mem)
    requires Holds(root, m) && succ in m.cells && gone in m.cells && l in m.cells && succ != gone
    requires m.cells[gone].left == l
    modifies m.cells.Keys
    ensures Holds(root, m')
    ensures var a3 := Put(m, succ, m.cells[succ].(parent := m.cells[gone].parent, red := m.cells[gone].red));
      m' == Reparented(Put(a3, succ, a3.cells[succ].(left := a3.cells[gone].left)), l, succ)
  {
    hide Holds, Put, Reparented;
    var p := ParentOf(gone, root, m);
    m' := SetParent(succ, p, root, m);
    var red := IsRed(gone, root, m');
    m' := SetColor(succ, red, root, m');
    assert m' == Put(m, succ, m.cells[succ].(parent := p, red := red)) by { PutTwice(m, succ, p, red); }
    var left := LeftOf(gone, root, m');
    m' := SetLeft(succ, left, root, m');
    left := LeftOf(gone, root, m');
    m' := SetParent(left, succ, root, m');
  }

  lemma PutTwice(m: Mem, n: Node, p: Node?, red: bool)
    requires n in m.cells
    ensures var m1 := Reparented(m, n, p);
      Put(m1, n, m1.cells[n].(red := red)) == Put(m, n, m.cells[n].(parent := p, red := red))
  {}

  /** What the later assignments of rb_erase still find in the removed node and its successor. */
  lemma KeptCells(m: Mem, gone: Node, succ: Node, p: Node?, l: Node, r: Node, child: Node?, q: Node)
    requires Places(m, gone, succ, p, l, r, child, q)
    ensures var a1 := Relinked(m, p, gone, succ);
      && a1.cells[succ] == m.cells[succ] && a1.cells[gone] == m.cells[gone]
      && (q != gone ==> Detached(a1, succ, r, child, q).cells[gone] == m.cells[gone])
  {
    if q != gone { DetachedCells(Relinked(m, p, gone, succ), succ, r, child, q); }
    hide Put, Redirect, Detached;
  }

  /** The assignments by which a node with two children is replaced by its successor. */
  method Promote(gone: Node, succ: Node, root: Root, ghost m: Mem, ghost p: Node?, ghost l: Node, ghost r: Node,
                 ghost c: Node?, ghost q: Node)
    returns (child: Node?, parent: Node, red: bool, ghost m': Mem)
    requires Holds(root, m) && Places(m, gone, succ, p, l, r, c, q)
    modifies root, m.cells.Keys
    ensures Holds(root, m') && m' == Promoted(m, gone, succ, p, l, r, c, q)
    ensures child == c && parent == (if q == gone then succ else q) && red == m.cells[succ].red
  {
    var above := gone.parent;
    KeptCells(m, gone, succ, p, l, r, c, q);
    hide Holds, Put, Reparented, Relinked, Redirect, Detached;
    m' := Relink(above, gone, succ, root, m);
    child := RightOf(succ, root, m');
    var at := ParentOf(succ, root, m');
    red := IsRed(succ, root, m');
    if at == gone {
      parent := succ;
    } else {
      parent := at;
      m' := Detach(succ, gone, child, parent, root, m', r);
    }
    m' := Inherit(succ, gone, root, m', l);
  }

  /** A node of the given colour is missing at the focus, of which c is left; nothing else is wrong. */
  ghost predicate Missing(m: Mem, ctx: Ctx, c: Tree, red: bool, s: seq<Node>)
  {
    && At(m, ctx, c) && InOrder(Plug(ctx, c)) == s
    && (red ==> RedBlack(Plug(ctx, c)))
    && (!red ==> Balanced(Blackened(c)) && CtxBalanced(ctx, BlackHeight(c) + 1))
  }

  /** The order of the nodes with the one at the focus left out. */
  ghost function Rest(ctx: Ctx, t: Tree): seq<Node>
    requires t.Bin?
  {
    Before(ctx) + (InOrder(t.l) + InOrder(t.r)) + After(ctx)
  }

  lemma SplicedOrder(ctx: Ctx, t: Tree, c: Tree)
    requires OnlyChild(t, c)
    ensures InOrder(Plug(ctx, c)) == Rest(ctx, t)
  {
    InOrderPlug(ctx, c);
    assert InOrder(c) == InOrder(t.l) + InOrder(t.r);
  }

  lemma SplicedMissing(m: Mem, ctx: Ctx, t: Tree, c: Tree)
    requires At(m, ctx, t) && OnlyChild(t, c) && RedBlack(Plug(ctx, t))
    ensures RootOf(c) != null ==> RootOf(c) in m.cells
    ensures ParentIn(ctx) != null ==> ParentIn(ctx) in m.cells
    ensures Missing(Spliced(m, t.n, RootOf(c), ParentIn(ctx)), ctx, c, t.red, Rest(ctx, t))
  {
    SplicedAt(m, ctx, t, c);
    SplicedBalance(ctx, t, c);
    SplicedOrder(ctx, t, c);
    hide At, InOrder, Plug, RedBlack, Balanced, CtxBalanced, BlackHeight, Spliced;
  }

  /** Removes a node with at most one child. */
  method SpliceOut(node: Node, child: Node?, root: Root, ghost m: Mem, ghost ctx: Ctx, ghost t: Tree, ghost c: Tree)
    returns (parent: Node?, red: bool, ghost m': Mem)
    requires Holds(root, m) && At(m, ctx, t) && OnlyChild(t, c) && t.n == node && child == RootOf(c)
    requires RedBlack(Plug(ctx, t))
    modifies root, m.cells.Keys
    ensures Holds(root, m') && m'.cells.Keys == m.cells.Keys && parent == ParentIn(ctx)
    ensures red == t.red && Missing(m', ctx, c, red, Rest(ctx, t))
  {
    Look(m, ctx, t);
    SplicedMissing(m, ctx, t, c);
    parent, red := node.parent, node.red;
    hide Holds, At, Plug, RedBlack, Reparented, Relinked, Missing, Rest;
    m' := SetParent(child, parent, root, m);
    m' := Relink(parent, node, child, root, m');
  }

  /** With the successor in the place of the removed node, the tree is short exactly when the successor
      was black. */
  lemma PromotedBalance(ctx: Ctx, t: Tree, path: Ctx, ts: Tree)
    requires RedBlack(Plug(ctx, t)) && t.Bin? && t.r == Plug(path, ts) && ts.Bin? && ts.l.Leaf?
    ensures var at := Graft(path, Outside(ctx, t.(n := ts.n)));
      && (ts.red ==> RedBlack(Plug(at, ts.r)))
      && (!ts.red ==> Balanced(Blackened(ts.r)) && CtxBalanced(at, BlackHeight(ts.r) + 1))
  {
    var t2 := t.(n := ts.n);
    var at := Graft(path, Outside(ctx, t2));
    UnplugRedBlack(ctx, t);
    PlugRedBlack(ctx, t2);
    GraftPlug(path, Outside(ctx, t2), ts);
    SplicedBalance(at, ts, ts.r);
  }

  lemma RegroupEmpty<T>(l: seq<T>, x: seq<T>, c: seq<T>, a: seq<T>)
    ensures l + x + ([] + c + a) == l + ([] + ([] + x + c) + a)
  {}

  lemma PromotedOrder(ctx: Ctx, t: Tree, path: Ctx, ts: Tree)
    requires t.Bin? && t.r == Plug(path, ts) && ts.Bin? && ts.l.Leaf? && AllLeft(path)
    ensures InOrder(Plug(Graft(path, Outside(ctx, t.(n := ts.n))), ts.r)) == Rest(ctx, t)
  {
    var r2 := Plug(path, ts.r);
    var t2 := Bin(t.l, ts.n, t.red, r2);
    GraftPlug(path, Outside(ctx, t.(n := ts.n)), ts.r);
    assert Plug(Outside(ctx, t.(n := ts.n)), r2) == Plug(ctx, t2);
    InOrderPlug(ctx, t2);
    InOrderPlug(path, ts);
    InOrderPlug(path, ts.r);
    AllLeftBefore(path);
    var l, x, c, a := InOrder(t.l), ts.n, InOrder(ts.r), After(path);
    assert InOrder(ts) == [] + [x] + c;
    assert InOrder(t2) == l + [x] + InOrder(r2);
    assert InOrder(t2) == l + InOrder(t.r) by {
      RegroupEmpty(l, [x], c, a);
    }
  }

  /** What the successor code leaves behind. */
  lemma PromotedMissing(m: Mem, m': Mem, ctx: Ctx, t: Tree, path: Ctx, ts: Tree, q: Node)
    requires SuccessorAt(m, ctx, t, path, ts) && q == ParentIn(Graft(path, Outside(ctx, t))) && RedBlack(Plug(ctx, t))
    requires Places(m, t.n, ts.n, ParentIn(ctx), t.l.n, t.r.n, RootOf(ts.r), q)
    requires m' == Promoted(m, t.n, ts.n, ParentIn(ctx), t.l.n, t.r.n, RootOf(ts.r), q)
    ensures var at := Graft(path, Outside(ctx, t.(n := ts.n)));
      ParentIn(at) == (if path.Top? then ts.n else q) && Missing(m', at, ts.r, ts.red, Rest(ctx, t))
  {
    PromotedAt(m, m', ctx, t, path, ts, q);
    PromotedBalance(ctx, t, path, ts);
    PromotedOrder(ctx, t, path, ts);
    hide At, InOrder, Plug, RedBlack, Balanced, CtxBalanced, BlackHeight, Places, Promoted;
  }

  /** The node after the one at the focus, which has two children. */
  method FindSuccessor(node: Node, ghost root: Root, ghost m: Mem, ghost ctx: Ctx, ghost t: Tree)
    returns (succ: Node, ghost path: Ctx, ghost ts: Tree, ghost q: Node)
    requires Holds(root, m) && At(m, ctx, t) && t.Bin? && t.l.Bin? && t.r.Bin? && t.n == node
    ensures SuccessorAt(m, ctx, t, path, ts) && ts.n == succ && q == ParentIn(Graft(path, Outside(ctx, t)))
    ensures Places(m, node, succ, ParentIn(ctx), t.l.n, t.r.n, RootOf(ts.r), q) && (q == node <==> path.Top?)
    ensures m.cells[succ].red == ts.red
  {
    Look(m, ctx, t);
    var start := node.right;
    MoveR(m, t.l, t.n, t.red, ctx, t.r);
    hide Holds, At, Plug;
    succ, path, ts := Leftmost(start, root, m, Outside(ctx, t), t.r);
    Look(m, Graft(path, Outside(ctx, t)), ts);
    SuccessorPlaces(m, ctx, t, path, ts);
    q := ParentIn(Graft(path, Outside(ctx, t)));
  }

  /** Removes a node with two children. */
  method PromoteSuccessor(node: Node, root: Root, ghost m: Mem, ghost ctx: Ctx, ghost t: Tree)
    returns (child: Node?, parent: Node?, red: bool, ghost m': Mem, ghost ctx': Ctx, ghost c: Tree)
    requires Holds(root, m) && At(m, ctx, t) && t.Bin? && t.l.Bin? && t.r.Bin? && t.n == node
    requires RedBlack(Plug(ctx, t))
    modifies root, m.cells.Keys
    ensures Holds(root, m') && m'.cells.Keys == m.cells.Keys && parent == ParentIn(ctx') && child == RootOf(c)
    ensures red == FirstNode(t.r).red && c == FirstNode(t.r).r && Missing(m', ctx', c, red, Rest(ctx, t))
  {
    hide Holds, At, Plug, RedBlack, Places, Missing, Rest, Promoted;
    var succ;
    ghost var path, ts, q;
    succ, path, ts, q := FindSuccessor(node, root, m, ctx, t);
    child, parent, red, m' := Promote(node, succ, root, m, ParentIn(ctx), t.l.n, t.r.n, RootOf(ts.r), q);
    PromotedMissing(m, m', ctx, t, path, ts, q);
    FirstOfAllLeft(path, ts);
    ctx', c := Graft(path, Outside(ctx, t.(n := succ))), ts.r;
  }

  /** The repair, where a black node is missing. */
  method Rebalance(child: Node?, parent: Node?, red: bool, root: Root, ghost m: Mem, ghost ctx: Ctx, ghost c: Tree,
                   ghost s: seq<Node>)
    returns (ghost m': Mem, ghost tree: Tree)
    requires Holds(root, m) && Missing(m, ctx, c, red, s) && child == RootOf(c) && parent == ParentIn(ctx)
    modifies root, m.cells.Keys
    ensures Holds(root, m') && m'.cells.Keys == m.cells.Keys && At(m', Top, tree)
    ensures RedBlack(tree) && InOrder(tree) == s
  {
    hide Holds, At, InOrder, Plug, RedBlack, Balanced, CtxBalanced, BlackHeight;
    if !red {
      m', tree := EraseColor(child, parent, root, m, ctx, c, s);
    } else {
      m', tree := m, Plug(ctx, c);
      WholeTree(m, ctx, c);
    }
  }

  lemma RestLeftOut(ctx: Ctx, t: Tree)
    requires t.Bin?
    ensures LeftOut(InOrder(Plug(ctx, t)), Rest(ctx, t), t.n)
  {
    InOrderPlug(ctx, t);
    var b, l, r, a := Before(ctx), InOrder(t.l), InOrder(t.r), After(ctx);
    assert InOrder(t) == l + [t.n] + r;
    assert Rest(ctx, t) == b + (l + r) + a;
    hide *;
    LeftOutJoin(b + l, t.n, r + a);
    RegroupOuter(b, l, [t.n], r, a);
  }

  /** Leaving out a node from distinct ones leaves the others. */
  lemma NodesLeft(tree: Tree, tree': Tree, x: Node)
    requires Proper(tree) && LeftOut(InOrder(tree), InOrder(tree'), x)
    ensures Nodes(tree') == Nodes(tree) - {x}
  {
    ProperDistinct(tree);
    NodesInOrder(tree);
    NodesInOrder(tree');
    LeftOutElements(InOrder(tree), InOrder(tree'), x, Nodes(tree), Nodes(tree'));
  }

  /** rb_erase: removes exactly the given node from a valid tree, keeps the order of the others, and
      leaves a valid tree. */
  method Erase(node: Node, root: Root, ghost m: Mem, ghost tree: Tree) returns (ghost m': Mem, ghost tree': Tree)
    requires Holds(root, m) && At(m, Top, tree) && RedBlack(tree) && node in Nodes(tree)
    modifies root, m.cells.Keys
    ensures Holds(root, m') && m'.cells.Keys == m.cells.Keys && At(m', Top, tree') && RedBlack(tree')
    ensures LeftOut(InOrder(tree), InOrder(tree'), node) && Nodes(tree') == Nodes(tree) - {node}
  {
    assert Proper(tree);
    ghost var ctx, t := Locate(Top, tree, node);
    WholeTree(m, ctx, t);
    Look(m, ctx, t);
    RestLeftOut(ctx, t);
    var child, parent, red;
    ghost var ctx', c;
    var left, right := node.left, node.right;
    assert Plug(ctx, t) == tree;
    hide Holds, At, InOrder, Plug, RedBlack, Nodes, Proper, Rest, LeftOut, Missing;
    if left == null {
      child, ctx', c := right, ctx, t.r;
      parent, red, m' := SpliceOut(node, child, root, m, ctx, t, c);
    } else if right == null {
      child, ctx', c := left, ctx, t.l;
      parent, red, m' := SpliceOut(node, child, root, m, ctx, t, c);
    } else {
      child, parent, red, m', ctx', c := PromoteSuccessor(node, root, m, ctx, t);
    }
    m', tree' := Rebalance(child, parent, red, root, m', ctx', c, Rest(ctx, t));
    NodesLeft(tree, tree', node);
  }
}
