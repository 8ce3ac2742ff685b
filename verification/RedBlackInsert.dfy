/** Linking a new node and rebalancing after it (rb_link_node and rb_insert_color in bintree.c). */
module RedBlackInsert {
  import opened RedBlackTree
  import opened RedBlackHeap

  /** What the rebalancing loop keeps: the only possible fault is a red node below a red parent, at the
      focus; the order of the nodes never changes. */
  ghost predicate Rising(m: Mem, ctx: Ctx, t: Tree, s: seq<Node>)
  {
    && At(m, ctx, t) && t.Bin? && t.red && Balanced(t)
    && CtxBalanced(ctx, BlackHeight(t))
    && InOrder(Plug(ctx, t)) == s
  }

  /** A red node below a red parent: the parent is not the root, and the grandparent is black. */
  ghost predicate Fault(ctx: Ctx, t: Tree)
  {
    && t.Bin? && t.red && Balanced(t) && CtxBalanced(ctx, BlackHeight(t))
    && !ctx.Top? && ctx.red && !ctx.up.Top? && !ctx.up.red
  }

  /** The red uncle case: parent and uncle turn black and the grandparent red, two levels up. */
  ghost function Flipped(ctx: Ctx, t: Tree): Tree
    requires Fault(ctx, t) && Sibling(ctx.up).Bin?
  {
    var tp, unc, g := Below(ctx, t), Sibling(ctx.up), ctx.up.n;
    if ctx.up.InL? then Bin(tp.(red := false), g, true, unc.(red := false))
    else Bin(unc.(red := false), g, true, tp.(red := false))
  }

  lemma FlippedBalanced(ctx: Ctx, t: Tree)
    requires Fault(ctx, t) && Sibling(ctx.up).Bin? && Sibling(ctx.up).red
    ensures Balanced(Flipped(ctx, t)) && CtxBalanced(ctx.up.up, BlackHeight(Flipped(ctx, t)))
  {
    assert CtxBalanced(ctx.up, BlackHeight(t));
    var tp := Below(ctx, t);
    assert Balanced(tp.(red := false));
  }

  /** The position is a fault, and the levels above it are where the fields say. */
  lemma RisingFault(m: Mem, ctx: Ctx, t: Tree, s: seq<Node>)
    requires Rising(m, ctx, t, s) && !ctx.Top? && ctx.red
    ensures Fault(ctx, t)
    ensures At(m, ctx.up, Below(ctx, t)) && At(m, ctx.up.up, Below(ctx.up, Below(ctx, t)))
    ensures InOrder(Plug(ctx.up.up, Below(ctx.up, Below(ctx, t)))) == s
    ensures var u, tp := ctx.up, Below(ctx, t);
      At(m, if u.InL? then InR(tp, u.n, u.red, u.up) else InL(u.n, u.red, tp, u.up), Sibling(u))
  {
    if ctx.InL? { MoveL(m, ctx.n, ctx.red, ctx.r, ctx.up, t); } else { MoveR(m, ctx.l, ctx.n, ctx.red, ctx.up, t); }
    var u, tp := ctx.up, Below(ctx, t);
    if u.InL? {
      MoveL(m, u.n, u.red, u.r, u.up, tp);
      MoveR(m, tp, u.n, u.red, u.up, u.r);
    } else {
      MoveR(m, u.l, u.n, u.red, u.up, tp);
      MoveL(m, u.n, u.red, tp, u.up, u.l);
    }
  }

  /** Colours the two children of g black and g red. */
  method FlipColors(parent: Node, uncle: Node, gparent: Node, parentIsLeft: bool, root: Root, ghost m: Mem,
                    ghost gup: Ctx, ghost tg: Tree)
    returns (ghost m': Mem)
    requires Holds(root, m) && At(m, gup, tg) && tg.Bin? && tg.l.Bin? && tg.r.Bin? && tg.n == gparent
    requires if parentIsLeft then parent == tg.l.n && uncle == tg.r.n else uncle == tg.l.n && parent == tg.r.n
    modifies m.cells.Keys
    ensures Holds(root, m') && m'.cells.Keys == m.cells.Keys
    ensures At(m', gup, Bin(tg.l.(red := false), gparent, true, tg.r.(red := false)))
    ensures InOrder(Plug(gup, Bin(tg.l.(red := false), gparent, true, tg.r.(red := false)))) == InOrder(Plug(gup, tg))
  {
    ghost var l, r := tg.l, tg.r;
    ghost var l', r' := l.(red := false), r.(red := false);
    if parentIsLeft {
      m' := ColorRight(uncle, false, root, m, gup, tg);
      m' := ColorLeft(parent, false, root, m', gup, Bin(l, gparent, tg.red, r'));
    } else {
      m' := ColorLeft(uncle, false, root, m, gup, tg);
      m' := ColorRight(parent, false, root, m', gup, Bin(l', gparent, tg.red, r));
    }
    m' := ColorFocus(gparent, true, root, m', gup, Bin(l', gparent, tg.red, r'));
  }

  /** The red uncle case. */
  method InsertFlip(parent: Node, uncle: Node, gparent: Node, parentIsLeft: bool, root: Root,
                    ghost m: Mem, ghost ctx: Ctx, ghost t: Tree, ghost s: seq<Node>) returns (ghost m': Mem)
    requires Holds(root, m) && Rising(m, ctx, t, s) && Fault(ctx, t)
    requires ctx.n == parent && ctx.up.n == gparent && parentIsLeft == ctx.up.InL?
    requires Sibling(ctx.up).Bin? && Sibling(ctx.up).red && Sibling(ctx.up).n == uncle
    modifies m.cells.Keys
    ensures Holds(root, m') && m'.cells.Keys == m.cells.Keys && Rising(m', ctx.up.up, Flipped(ctx, t), s)
  {
    RisingFault(m, ctx, t, s);
    FlippedBalanced(ctx, t);
    hide Holds, At, Balanced, CtxBalanced, BlackHeight, InOrder, Plug;
    m' := FlipColors(parent, uncle, gparent, parentIsLeft, root, m, ctx.up.up, Below(ctx.up, Below(ctx, t)));
  }

  /** The parent's subtree when the parent is a left child, with the red node brought to the outside. */
  ghost function OuterL(ctx: Ctx, t: Tree): (r: Tree)
    requires Fault(ctx, t)
    ensures r.Bin? && r.l.Bin? && r.red && r.l.red
  {
    if ctx.InR? then RotL(Below(ctx, t)) else Below(ctx, t)
  }

  ghost function OuterR(ctx: Ctx, t: Tree): (r: Tree)
    requires Fault(ctx, t)
    ensures r.Bin? && r.r.Bin? && r.red && r.r.red
  {
    if ctx.InL? then RotR(Below(ctx, t)) else Below(ctx, t)
  }

  /** The black uncle case: after the rotation at the grandparent nothing is wrong any more. */
  lemma OuterBalanced(ctx: Ctx, t: Tree)
    requires Fault(ctx, t) && IsBlack(Sibling(ctx.up))
    ensures var g, unc, gup := ctx.up.n, Sibling(ctx.up), ctx.up.up;
      && (var o := OuterL(ctx, t);
          Balanced(o.l) && CtxBalanced(InL(o.n, false, Bin(o.r, g, true, unc), gup), BlackHeight(o.l)))
      && (var o := OuterR(ctx, t);
          Balanced(o.r) && CtxBalanced(InR(Bin(unc, g, true, o.l), o.n, false, gup), BlackHeight(o.r)))
  {
    assert CtxBalanced(ctx.up, BlackHeight(t));
  }

  /** Turns the parent p black and the grandparent g red, and rotates p above g. */
  method RaiseL(p: Node, g: Node, root: Root, ghost m: Mem, ghost unc: Tree, ghost gup: Ctx, ghost o: Tree)
    returns (ghost m': Mem)
    requires Holds(root, m) && At(m, InL(g, false, unc, gup), o) && o.Bin? && o.n == p
    modifies root, m.cells.Keys
    ensures Holds(root, m') && m'.cells.Keys == m.cells.Keys
    ensures At(m', InL(p, false, Bin(o.r, g, true, unc), gup), o.l)
    ensures InOrder(Plug(InL(p, false, Bin(o.r, g, true, unc), gup), o.l)) == InOrder(Plug(InL(g, false, unc, gup), o))
  {
    ghost var up, o' := InL(g, false, unc, gup), o.(red := false);
    ghost var tg := Bin(o', g, false, unc);
    Look(m, up, o);
    assert Plug(up, o') == Plug(gup, tg);
    assert Plug(InL(p, false, Bin(o.r, g, true, unc), gup), o.l) == Plug(gup, RotR(tg.(red := true)));
    hide Holds, At, InOrder, Plug;
    m' := ColorFocus(p, false, root, m, up, o);
    MoveL(m', g, false, unc, gup, o');
    m' := ColorFocus(g, true, root, m', gup, tg);
    m' := RotateRightFocus(g, root, m', gup, tg.(red := true));
    MoveL(m', p, false, Bin(o.r, g, true, unc), gup, o.l);
  }

  method RaiseR(p: Node, g: Node, root: Root, ghost m: Mem, ghost unc: Tree, ghost gup: Ctx, ghost o: Tree)
    returns (ghost m': Mem)
    requires Holds(root, m) && At(m, InR(unc, g, false, gup), o) && o.Bin? && o.n == p
    modifies root, m.cells.Keys
    ensures Holds(root, m') && m'.cells.Keys == m.cells.Keys
    ensures At(m', InR(Bin(unc, g, true, o.l), p, false, gup), o.r)
    ensures InOrder(Plug(InR(Bin(unc, g, true, o.l), p, false, gup), o.r)) == InOrder(Plug(InR(unc, g, false, gup), o))
  {
    ghost var up, o' := InR(unc, g, false, gup), o.(red := false);
    ghost var tg := Bin(unc, g, false, o');
    Look(m, up, o);
    assert Plug(up, o') == Plug(gup, tg);
    assert Plug(InR(Bin(unc, g, true, o.l), p, false, gup), o.r) == Plug(gup, RotL(tg.(red := true)));
    hide Holds, At, InOrder, Plug;
    m' := ColorFocus(p, false, root, m, up, o);
    MoveR(m', unc, g, false, gup, o');
    m' := ColorFocus(g, true, root, m', gup, tg);
    m' := RotateLeftFocus(g, root, m', gup, tg.(red := true));
    MoveR(m', Bin(unc, g, true, o.l), p, false, gup, o.r);
  }

  /** The black uncle case with the parent a left child. */
  method InsertRotateL(node: Node, parent: Node, gparent: Node, root: Root,
                       ghost m: Mem, ghost ctx: Ctx, ghost t: Tree, ghost s: seq<Node>)
    returns (node': Node, ghost m': Mem, ghost ctx': Ctx, ghost t': Tree)
    requires Holds(root, m) && Rising(m, ctx, t, s) && Fault(ctx, t) && t.n == node
    requires ctx.n == parent && ctx.up.n == gparent && ctx.up.InL? && IsBlack(ctx.up.r)
    modifies root, m.cells.Keys
    ensures Holds(root, m') && m'.cells.Keys == m.cells.Keys && Rising(m', ctx', t', s) && t'.n == node'
    ensures !ctx'.Top? && !ctx'.red && Depth(ctx') < Depth(ctx)
  {
    RisingFault(m, ctx, t, s);
    OuterBalanced(ctx, t);
    Look(m, ctx, t);
    ChildSide(m, ctx, t);
    ghost var up, o := ctx.up, OuterL(ctx, t);
    var p := parent;
    node', m' := node, m;
    if parent.right == node {
      hide Holds, At, InOrder, Plug, Balanced, CtxBalanced, BlackHeight;
      m' := RotateLeftFocus(parent, root, m, up, Below(ctx, t));
      p, node' := node, parent;
    }
    hide Holds, At, InOrder, Plug, Balanced, CtxBalanced, BlackHeight;
    m' := RaiseL(p, gparent, root, m', up.r, up.up, o);
    ctx', t' := InL(o.n, false, Bin(o.r, gparent, true, up.r), up.up), o.l;
  }

  /** The black uncle case with the parent a right child. */
  method InsertRotateR(node: Node, parent: Node, gparent: Node, root: Root,
                       ghost m: Mem, ghost ctx: Ctx, ghost t: Tree, ghost s: seq<Node>)
    returns (node': Node, ghost m': Mem, ghost ctx': Ctx, ghost t': Tree)
    requires Holds(root, m) && Rising(m, ctx, t, s) && Fault(ctx, t) && t.n == node
    requires ctx.n == parent && ctx.up.n == gparent && ctx.up.InR? && IsBlack(ctx.up.l)
    modifies root, m.cells.Keys
    ensures Holds(root, m') && m'.cells.Keys == m.cells.Keys && Rising(m', ctx', t', s) && t'.n == node'
    ensures !ctx'.Top? && !ctx'.red && Depth(ctx') < Depth(ctx)
  {
    RisingFault(m, ctx, t, s);
    OuterBalanced(ctx, t);
    Look(m, ctx, t);
    ChildSide(m, ctx, t);
    ghost var up, o := ctx.up, OuterR(ctx, t);
    var p := parent;
    node', m' := node, m;
    if parent.left == node {
      hide Holds, At, InOrder, Plug, Balanced, CtxBalanced, BlackHeight;
      m' := RotateRightFocus(parent, root, m, up, Below(ctx, t));
      p, node' := node, parent;
    }
    hide Holds, At, InOrder, Plug, Balanced, CtxBalanced, BlackHeight;
    m' := RaiseR(p, gparent, root, m', up.l, up.up, o);
    ctx', t' := InR(Bin(up.l, gparent, true, o.l), o.n, false, up.up), o.r;
  }

  /** One round of the loop: the fault moves towards the root or is gone. */
  method InsertStep(node: Node, parent: Node, root: Root, ghost m: Mem, ghost ctx: Ctx, ghost t: Tree,
                    ghost s: seq<Node>)
    returns (node': Node, ghost m': Mem, ghost ctx': Ctx, ghost t': Tree)
    requires Holds(root, m) && Rising(m, ctx, t, s) && t.n == node && !ctx.Top? && ctx.red && ctx.n == parent
    modifies root, m.cells.Keys
    ensures Holds(root, m') && m'.cells.Keys == m.cells.Keys && Rising(m', ctx', t', s) && t'.n == node'
    ensures Depth(ctx') < Depth(ctx)
  {
    ghost var up, tp := ctx.up, Below(ctx, t);
    RisingFault(m, ctx, t, s);
    RisingNode(m, ctx, t, s);
    Look(m, up, tp);
    ChildSide(m, up, tp);
    Look(m, if up.InL? then InR(tp, up.n, up.red, up.up) else InL(up.n, up.red, tp, up.up), Sibling(up));
    hide At, InOrder, Plug, Balanced, CtxBalanced, BlackHeight, Rising;
    var gparent := parent.parent;
    var onLeft := parent == gparent.left;
    var uncle := if onLeft then gparent.right else gparent.left;
    if uncle != null && uncle.red {
      m' := InsertFlip(parent, uncle, gparent, onLeft, root, m, ctx, t, s);
      node', ctx', t' := gparent, up.up, Flipped(ctx, t);
    } else if onLeft {
      node', m', ctx', t' := InsertRotateL(node, parent, gparent, root, m, ctx, t, s);
    } else {
      node', m', ctx', t' := InsertRotateR(node, parent, gparent, root, m, ctx, t, s);
    }
  }

  /** rb_insert_color: from one red leaf in an otherwise valid tree to a valid tree, with the nodes in
      the same order. */
  method InsertColor(node0: Node, root: Root, ghost m0: Mem, ghost ctx0: Ctx) returns (ghost m: Mem, ghost tree: Tree)
    requires Holds(root, m0) && At(m0, ctx0, Bin(Leaf, node0, true, Leaf)) && RedBlack(Plug(ctx0, Leaf))
    modifies root, m0.cells.Keys
    ensures Holds(root, m) && m.cells.Keys == m0.cells.Keys && At(m, Top, tree)
    ensures RedBlack(tree) && InOrder(tree) == Before(ctx0) + [node0] + After(ctx0)
  {
    var node := node0;
    ghost var ctx, t, s := ctx0, Bin(Leaf, node0, true, Leaf), Before(ctx0) + [node0] + After(ctx0);
    m := m0;
    StartRising(m, ctx0, node0);
    hide At, InOrder, Plug, Balanced, CtxBalanced, BlackHeight, Rising;
    RisingNode(m, ctx, t, s);
    while node.parent != null && node.parent.red
      invariant Holds(root, m) && m.cells.Keys == m0.cells.Keys && Rising(m, ctx, t, s) && t.Bin? && t.n == node
      invariant t.n in m.cells && m.cells[t.n].parent == ParentIn(ctx)
      invariant !ctx.Top? ==> ctx.n in m.cells && m.cells[ctx.n].red == ctx.red
      decreases Depth(ctx)
    {
      node, m, ctx, t := InsertStep(node, node.parent, root, m, ctx, t, s);
      RisingNode(m, ctx, t, s);
    }
    m, tree := BlackenRoot(root, m, ctx, t, s);
  }

  lemma StartRising(m: Mem, ctx: Ctx, node: Node)
    requires At(m, ctx, Bin(Leaf, node, true, Leaf)) && RedBlack(Plug(ctx, Leaf))
    ensures Rising(m, ctx, Bin(Leaf, node, true, Leaf), Before(ctx) + [node] + After(ctx))
  {
    var t := Bin(Leaf, node, true, Leaf);
    InOrderPlug(ctx, t);
    assert InOrder(t) == [node];
    UnplugRedBlack(ctx, Leaf);
  }

  lemma RisingNode(m: Mem, ctx: Ctx, t: Tree, s: seq<Node>)
    requires Rising(m, ctx, t, s)
    ensures t.Bin? && t.n in m.cells && m.cells[t.n].parent == ParentIn(ctx)
    ensures !ctx.Top? ==> ctx.n in m.cells && m.cells[ctx.n].red == ctx.red && m.cells[ctx.n].parent == ParentIn(ctx.up)
  {
    Look(m, ctx, t);
  }

  /** Colouring the root black repairs the last possible fault, a red root. */
  method BlackenRoot(root: Root, ghost m: Mem, ghost ctx: Ctx, ghost t: Tree, ghost s: seq<Node>)
    returns (ghost m': Mem, ghost tree: Tree)
    requires Holds(root, m) && Rising(m, ctx, t, s) && (ctx.Top? || !ctx.red)
    modifies m.cells.Keys
    ensures Holds(root, m') && m'.cells.Keys == m.cells.Keys && At(m', Top, tree)
    ensures RedBlack(tree) && InOrder(tree) == s
  {
    ghost var whole := Plug(ctx, t);
    WholeTree(m, ctx, t);
    BlackRoot(ctx, t);
    Look(m, Top, whole);
    tree := whole.(red := false);
    m' := ColorFocus(root.node, false, root, m, Top, whole);
  }

  lemma BlackRoot(ctx: Ctx, t: Tree)
    requires t.Bin? && Balanced(t) && CtxBalanced(ctx, BlackHeight(t)) && (ctx.Top? || !ctx.red)
    ensures var whole := Plug(ctx, t); whole.Bin? && RedBlack(whole.(red := false))
  {
    if !ctx.Top? {
      PlugRedBlack(ctx, t);
      PlugBin(ctx, t);
      assert Plug(ctx, t).(red := false) == Plug(ctx, t);
    }
  }

  lemma {:induction false} PlugBin(ctx: Ctx, t: Tree)
    requires t.Bin?
    ensures Plug(ctx, t).Bin?
    decreases ctx
  {
    match ctx
    case Top =>
    case InL(n, red, r, up) => PlugBin(up, Bin(t, n, red, r));
    case InR(l, n, red, up) => PlugBin(up, Bin(l, n, red, t));
  }

  /** The memory after a new red node without children is hung below parent, or made the root. */
  ghost function Linked(m: Mem, node: Node, parent: Node?, asLeft: bool): (m': Mem)
    requires node !in m.cells && (parent != null ==> parent in m.cells)
    ensures m'.cells.Keys == m.cells.Keys + {node}
  {
    var m1 := m.(cells := m.cells[node := Cell(null, null, parent, true)]);
    if parent == null then m1.(root := node)
    else if asLeft then Put(m1, parent, m1.cells[parent].(left := node))
    else Put(m1, parent, m1.cells[parent].(right := node))
  }

  /** rb_link_node: hangs a new red node without children into an empty place. */
  method LinkNode(node: Node, parent: Node?, asLeft: bool, root: Root, ghost m: Mem, ghost ctx: Ctx)
    returns (ghost m': Mem)
    requires Holds(root, m) && At(m, ctx, Leaf) && node !in m.cells
    requires parent == ParentIn(ctx) && (parent != null ==> asLeft == ctx.InL?)
    modifies node, root, m.cells.Keys
    ensures Holds(root, m') && m'.cells.Keys == m.cells.Keys + {node}
    ensures At(m', ctx, Bin(Leaf, node, true, Leaf))
  {
    Look(m, ctx, Leaf);
    m' := Linked(m, node, parent, asLeft);
    LinkedAt(m, m', ctx, node, asLeft);
    hide At;
    SetLinks(node, parent, asLeft, root, m);
  }

  method SetLinks(node: Node, parent: Node?, asLeft: bool, root: Root, ghost m: Mem)
    requires Holds(root, m) && node !in m.cells && (parent != null ==> parent in m.cells)
    modifies node, root, if parent == null then {} else {parent}
    ensures Holds(root, Linked(m, node, parent, asLeft))
  {
    ghost var m1, m' := m.(cells := m.cells[node := Cell(null, null, parent, true)]), Linked(m, node, parent, asLeft);
    node.parent, node.red := parent, true;
    node.left, node.right := null, null;
    if parent == null {
      root.node := node;
    } else if asLeft {
      m' := SetLeft(parent, node, root, m1);
    } else {
      m' := SetRight(parent, node, root, m1);
    }
  }

  lemma LinkedAt(m: Mem, m': Mem, ctx: Ctx, node: Node, asLeft: bool)
    requires At(m, ctx, Leaf) && node !in m.cells && (!ctx.Top? ==> ctx.n in m.cells && asLeft == ctx.InL?)
    requires m' == Linked(m, node, ParentIn(ctx), asLeft)
    ensures At(m', ctx, Bin(Leaf, node, true, Leaf))
  {
    CtxInCells(m, ctx, null);
    match ctx
    case Top =>
    case InL(n, _, r, up) =>
      RepFrame(m.cells, m'.cells, r, n);
      CtxFrame(m, m', up, n);
    case InR(l, n, _, up) =>
      RepFrame(m.cells, m'.cells, l, n);
      CtxFrame(m, m', up, n);
  }

  lemma EmptyPlaceOrder(ctx: Ctx)
    ensures InOrder(Plug(ctx, Leaf)) == Before(ctx) + After(ctx)
  {
    InOrderPlug(ctx, Leaf);
    assert Before(ctx) + [] + After(ctx) == Before(ctx) + After(ctx);
  }

  /** Inserting a node at an empty place of a valid tree: link it and rebalance. */
  method Insert(node: Node, parent: Node?, asLeft: bool, root: Root, ghost m: Mem, ghost ctx: Ctx)
    returns (ghost m': Mem, ghost tree: Tree)
    requires Holds(root, m) && At(m, ctx, Leaf) && RedBlack(Plug(ctx, Leaf)) && node !in m.cells
    requires parent == ParentIn(ctx) && (parent != null ==> asLeft == ctx.InL?)
    modifies node, root, m.cells.Keys
    ensures Holds(root, m') && m'.cells.Keys == m.cells.Keys + {node} && At(m', Top, tree)
    ensures RedBlack(tree)
    ensures InOrder(Plug(ctx, Leaf)) == Before(ctx) + After(ctx)
    ensures InOrder(tree) == Before(ctx) + [node] + After(ctx)
  {
    hide *;
    EmptyPlaceOrder(ctx);
    m' := LinkNode(node, parent, asLeft, root, m, ctx);
    m', tree := InsertColor(node, root, m', ctx);
  }
}
