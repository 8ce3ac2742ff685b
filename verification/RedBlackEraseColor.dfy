/** Repairing a tree in which one position lacks a black node (__rb_erase_color in bintree.c). */
module RedBlackEraseColor {
  import opened RedBlackTree
  import opened RedBlackHeap

  ghost function Blackened(t: Tree): Tree
  {
    if t.Leaf? then t else t.(red := false)
  }

  /** What the repair loop keeps: every path through the focus is one black node short, and apart from
      the colour of its root the focus is balanced; the order of the nodes never changes. */
  ghost predicate Short(m: Mem, ctx: Ctx, t: Tree, s: seq<Node>)
  {
    && At(m, ctx, t)
    && Balanced(Blackened(t)) && CtxBalanced(ctx, BlackHeight(t) + 1)
    && InOrder(Plug(ctx, t)) == s
  }

  /** A black focus that is one black node short has a parent, and a sibling that is not empty. */
  ghost predicate Deficit(ctx: Ctx, t: Tree)
  {
    && !ctx.Top? && IsBlack(t) && Balanced(t) && CtxBalanced(ctx, BlackHeight(t) + 1)
    && Sibling(ctx).Bin?
  }

  lemma ShortDeficit(m: Mem, ctx: Ctx, t: Tree, s: seq<Node>)
    requires Short(m, ctx, t, s) && !ctx.Top? && IsBlack(t)
    ensures Deficit(ctx, t)
    ensures At(m, ctx.up, Below(ctx, t)) && InOrder(Plug(ctx.up, Below(ctx, t))) == s
    ensures var u, o := ctx.up, Sibling(ctx);
      At(m, if ctx.InL? then InR(t, ctx.n, ctx.red, u) else InL(ctx.n, ctx.red, t, u), o)
  {
    assert Blackened(t) == t;
    if ctx.InL? {
      MoveL(m, ctx.n, ctx.red, ctx.r, ctx.up, t);
      MoveR(m, t, ctx.n, ctx.red, ctx.up, ctx.r);
    } else {
      MoveR(m, ctx.l, ctx.n, ctx.red, ctx.up, t);
      MoveL(m, ctx.n, ctx.red, t, ctx.up, ctx.l);
    }
  }

  /** The root pointer equals the pointer to the focus only at the top. */
  lemma {:induction false} RootAbove(m: Mem, ctx: Ctx, hole: Node?)
    requires CtxRep(m, ctx, hole) && !ctx.Top?
    ensures m.root != null && m.root in CtxNodes(ctx)
  {
    if ctx.up.Top? { } else { RootAbove(m, ctx.up, ctx.n); }
  }

  lemma AtRoot(m: Mem, ctx: Ctx, t: Tree)
    requires At(m, ctx, t)
    ensures m.root == RootOf(t) <==> ctx.Top?
  {
    if !ctx.Top? {
      RootAbove(m, ctx, RootOf(t));
      RootInTree(t);
    }
  }

  /** A red sibling on the right: recolour and rotate, so that the sibling is black. */
  method RedSiblingL(parent: Node, other: Node, root: Root, ghost m: Mem, ghost up: Ctx, ghost tp: Tree)
    returns (ghost m': Mem)
    requires Holds(root, m) && At(m, up, tp) && tp.Bin? && tp.n == parent && tp.r.Bin? && tp.r.n == other
    modifies root, m.cells.Keys
    ensures Holds(root, m') && m'.cells.Keys == m.cells.Keys
    ensures At(m', InL(parent, true, tp.r.l, InL(other, false, tp.r.r, up)), tp.l)
    ensures InOrder(Plug(InL(parent, true, tp.r.l, InL(other, false, tp.r.r, up)), tp.l)) == InOrder(Plug(up, tp))
  {
    ghost var t1 := tp.(r := tp.r.(red := false));
    ghost var t2 := t1.(red := true);
    ghost var below := InL(parent, true, tp.r.l, InL(other, false, tp.r.r, up));
    Look(m, up, tp);
    assert Plug(below, tp.l) == Plug(up, RotL(t2));
    hide Holds, At, InOrder, Plug;
    m' := ColorRight(other, false, root, m, up, tp);
    m' := ColorFocus(parent, true, root, m', up, t1);
    m' := RotateLeftFocus(parent, root, m', up, t2);
    MoveL(m', other, false, tp.r.r, up, Bin(tp.l, parent, true, tp.r.l));
    MoveL(m', parent, true, tp.r.l, InL(other, false, tp.r.r, up), tp.l);
  }

  method RedSiblingR(parent: Node, other: Node, root: Root, ghost m: Mem, ghost up: Ctx, ghost tp: Tree)
    returns (ghost m': Mem)
    requires Holds(root, m) && At(m, up, tp) && tp.Bin? && tp.n == parent && tp.l.Bin? && tp.l.n == other
    modifies root, m.cells.Keys
    ensures Holds(root, m') && m'.cells.Keys == m.cells.Keys
    ensures At(m', InR(tp.l.r, parent, true, InR(tp.l.l, other, false, up)), tp.r)
    ensures InOrder(Plug(InR(tp.l.r, parent, true, InR(tp.l.l, other, false, up)), tp.r)) == InOrder(Plug(up, tp))
  {
    ghost var t1 := tp.(l := tp.l.(red := false));
    ghost var t2 := t1.(red := true);
    ghost var below := InR(tp.l.r, parent, true, InR(tp.l.l, other, false, up));
    Look(m, up, tp);
    assert Plug(below, tp.r) == Plug(up, RotR(t2));
    hide Holds, At, InOrder, Plug;
    m' := ColorLeft(other, false, root, m, up, tp);
    m' := ColorFocus(parent, true, root, m', up, t1);
    m' := RotateRightFocus(parent, root, m', up, t2);
    MoveR(m', tp.l.l, other, false, up, Bin(tp.l.r, parent, true, tp.r));
    MoveR(m', tp.l.r, parent, true, InR(tp.l.l, other, false, up), tp.r);
  }

  /** After the red sibling step the focus is as short as before, and its sibling is black. */
  lemma RedSiblingShort(ctx: Ctx, t: Tree)
    requires Deficit(ctx, t) && Sibling(ctx).red
    ensures var o := Sibling(ctx);
      if ctx.InL? then
        var below := InL(ctx.n, true, o.l, InL(o.n, false, o.r, ctx.up)); Deficit(below, t) && !Sibling(below).red
      else
        var below := InR(o.r, ctx.n, true, InR(o.l, o.n, false, ctx.up)); Deficit(below, t) && !Sibling(below).red
  {}

  /** Both nephews black: the sibling turns red and the shortage moves to the parent. */
  lemma BlackNephews(ctx: Ctx, t: Tree)
    requires Deficit(ctx, t) && !Sibling(ctx).red && IsBlack(Sibling(ctx).l) && IsBlack(Sibling(ctx).r)
    ensures var o := Sibling(ctx).(red := true);
      var t' := if ctx.InL? then Bin(t, ctx.n, ctx.red, o) else Bin(o, ctx.n, ctx.red, t);
      Balanced(Blackened(t')) && CtxBalanced(ctx.up, BlackHeight(t') + 1)
  {}

  /** The sibling on the right, with a red outer child: from the sibling as it is, or after a rotation. */
  ghost function OuterNephewL(o: Tree): (r: Tree)
    requires o.Bin? && (IsBlack(o.r) ==> o.l.Bin?)
    ensures r.Bin? && r.r.Bin?
  {
    if IsBlack(o.r) then Bin(o.l.l, o.l.n, false, Bin(o.l.r, o.n, true, o.r)) else o
  }

  ghost function OuterNephewR(o: Tree): (r: Tree)
    requires o.Bin? && (IsBlack(o.l) ==> o.r.Bin?)
    ensures r.Bin? && r.l.Bin?
  {
    if IsBlack(o.l) then Bin(Bin(o.l, o.n, true, o.r.l), o.r.n, false, o.r.r) else o
  }

  /** The parent's subtree after the last rotation. */
  ghost function RepairedL(ctx: Ctx, t: Tree): Tree
    requires Deficit(ctx, t) && ctx.InL? && (IsBlack(ctx.r.r) ==> ctx.r.l.Bin?)
  {
    var o := OuterNephewL(ctx.r);
    Bin(Bin(t, ctx.n, false, o.l), o.n, ctx.red, o.r.(red := false))
  }

  ghost function RepairedR(ctx: Ctx, t: Tree): Tree
    requires Deficit(ctx, t) && ctx.InR? && (IsBlack(ctx.l.l) ==> ctx.l.r.Bin?)
  {
    var o := OuterNephewR(ctx.l);
    Bin(o.l.(red := false), o.n, ctx.red, Bin(o.r, ctx.n, false, t))
  }

  lemma BalancedBin(t: Tree)
    requires t.Bin?
    ensures Balanced(t) <==>
      && Balanced(t.l) && Balanced(t.r) && BlackHeight(t.l) == BlackHeight(t.r)
      && (t.red ==> IsBlack(t.l) && IsBlack(t.r))
    ensures BlackHeight(t) == BlackHeight(t.l) + if t.red then 0 else 1
  {}

  lemma RedNephewL(ctx: Ctx, t: Tree)
    requires Deficit(ctx, t) && ctx.InL? && !ctx.r.red && !(IsBlack(ctx.r.l) && IsBlack(ctx.r.r))
    ensures RedBlack(Plug(ctx.up, RepairedL(ctx, t)))
  {
    var h, o := BlackHeight(t), OuterNephewL(ctx.r);
    assert CtxBalanced(ctx.up, if ctx.red then h + 1 else h + 2);
    BalancedBin(ctx.r);
    if IsBlack(ctx.r.r) {
      BalancedBin(ctx.r.l);
      BalancedBin(o.r.(red := false));
    } else {
      BalancedBin(ctx.r.r);
      BalancedBin(ctx.r.r.(red := false));
    }
    assert Balanced(o.l) && BlackHeight(o.l) == h;
    assert Balanced(o.r.(red := false)) && BlackHeight(o.r.(red := false)) == h + 1;
    PlugRedBlack(ctx.up, RepairedL(ctx, t));
  }

  lemma RedNephewR(ctx: Ctx, t: Tree)
    requires Deficit(ctx, t) && ctx.InR? && !ctx.l.red && !(IsBlack(ctx.l.l) && IsBlack(ctx.l.r))
    ensures RedBlack(Plug(ctx.up, RepairedR(ctx, t)))
  {
    var h, o := BlackHeight(t), OuterNephewR(ctx.l);
    assert CtxBalanced(ctx.up, if ctx.red then h + 1 else h + 2);
    BalancedBin(ctx.l);
    if IsBlack(ctx.l.l) {
      BalancedBin(ctx.l.r);
      BalancedBin(o.l.(red := false));
    } else {
      BalancedBin(ctx.l.l);
      BalancedBin(ctx.l.l.(red := false));
    }
    assert Balanced(o.r) && BlackHeight(o.r) == h;
    assert Balanced(o.l.(red := false)) && BlackHeight(o.l.(red := false)) == h + 1;
    PlugRedBlack(ctx.up, RepairedR(ctx, t));
  }

  /** Brings the red nephew to the outside, by a rotation at the sibling. */
  method TurnNephewL(parent: Node, other: Node, root: Root, ghost m: Mem, ghost up: Ctx, ghost tp: Tree)
    returns (ghost m': Mem)
    requires Holds(root, m) && At(m, up, tp) && tp.Bin? && tp.n == parent && tp.r.Bin? && tp.r.n == other
    requires IsBlack(tp.r.r) && tp.r.l.Bin?
    modifies root, m.cells.Keys
    ensures Holds(root, m') && m'.cells.Keys == m.cells.Keys
    ensures At(m', up, tp.(r := OuterNephewL(tp.r)))
    ensures InOrder(Plug(up, tp.(r := OuterNephewL(tp.r)))) == InOrder(Plug(up, tp))
  {
    ghost var at, o := InR(tp.l, parent, tp.red, up), tp.r;
    ghost var o1 := o.(l := o.l.(red := false));
    ghost var o2 := o1.(red := true);
    MoveR(m, tp.l, parent, tp.red, up, o);
    Look(m, at, o);
    assert RotR(o2) == OuterNephewL(o);
    assert Plug(at, o) == Plug(up, tp);
    assert Plug(at, RotR(o2)) == Plug(up, tp.(r := OuterNephewL(o)));
    hide At, InOrder, Plug;
    var inner := other.left;
    hide Holds;
    m' := ColorLeft(inner, false, root, m, at, o);
    m' := ColorFocus(other, true, root, m', at, o1);
    m' := RotateRightFocus(other, root, m', at, o2);
    MoveR(m', tp.l, parent, tp.red, up, RotR(o2));
  }

  method TurnNephewR(parent: Node, other: Node, root: Root, ghost m: Mem, ghost up: Ctx, ghost tp: Tree)
    returns (ghost m': Mem)
    requires Holds(root, m) && At(m, up, tp) && tp.Bin? && tp.n == parent && tp.l.Bin? && tp.l.n == other
    requires IsBlack(tp.l.l) && tp.l.r.Bin?
    modifies root, m.cells.Keys
    ensures Holds(root, m') && m'.cells.Keys == m.cells.Keys
    ensures At(m', up, tp.(l := OuterNephewR(tp.l)))
    ensures InOrder(Plug(up, tp.(l := OuterNephewR(tp.l)))) == InOrder(Plug(up, tp))
  {
    ghost var at, o := InL(parent, tp.red, tp.r, up), tp.l;
    ghost var o1 := o.(r := o.r.(red := false));
    ghost var o2 := o1.(red := true);
    MoveL(m, parent, tp.red, tp.r, up, o);
    Look(m, at, o);
    assert RotL(o2) == OuterNephewR(o);
    assert Plug(at, o) == Plug(up, tp);
    assert Plug(at, RotL(o2)) == Plug(up, tp.(l := OuterNephewR(o)));
    hide At, InOrder, Plug;
    var inner := other.right;
    hide Holds;
    m' := ColorRight(inner, false, root, m, at, o);
    m' := ColorFocus(other, true, root, m', at, o1);
    m' := RotateLeftFocus(other, root, m', at, o2);
    MoveL(m', parent, tp.red, tp.r, up, RotL(o2));
  }

  /** Blackens the outer nephew on the right. */
  method BlackenOuterL(other: Node, root: Root, ghost m: Mem, ghost up: Ctx, ghost t: Tree)
    returns (ghost m': Mem)
    requires Holds(root, m) && At(m, up, t) && t.Bin? && t.r.Bin? && t.r.n == other && t.r.r.Bin?
    modifies m.cells.Keys
    ensures Holds(root, m') && m'.cells.Keys == m.cells.Keys
    ensures At(m', up, t.(r := t.r.(r := t.r.r.(red := false))))
    ensures InOrder(Plug(up, t.(r := t.r.(r := t.r.r.(red := false))))) == InOrder(Plug(up, t))
  {
    ghost var o := t.r.(r := t.r.r.(red := false));
    ghost var at := InR(t.l, t.n, t.red, up);
    assert Plug(at, t.r) == Plug(up, t) && Plug(at, o) == Plug(up, t.(r := o));
    hide At, Holds, InOrder, Plug;
    MoveR(m, t.l, t.n, t.red, up, t.r);
    Look(m, at, t.r);
    var outer := RightOf(other, root, m);
    m' := ColorRight(outer, false, root, m, at, t.r);
    MoveR(m', t.l, t.n, t.red, up, o);
  }

  /** Hands the parent's colour to the sibling, blackens the parent and the outer nephew, and rotates. */
  method RaiseSiblingL(parent: Node, other: Node, root: Root, ghost m: Mem, ghost up: Ctx, ghost tp: Tree)
    returns (ghost m': Mem)
    requires Holds(root, m) && At(m, up, tp) && tp.Bin? && tp.n == parent
    requires tp.r.Bin? && tp.r.n == other && tp.r.r.Bin?
    modifies root, m.cells.Keys
    ensures Holds(root, m') && m'.cells.Keys == m.cells.Keys
    ensures At(m', up, Bin(Bin(tp.l, parent, false, tp.r.l), other, tp.red, tp.r.r.(red := false)))
    ensures InOrder(Plug(up, Bin(Bin(tp.l, parent, false, tp.r.l), other, tp.red, tp.r.r.(red := false))))
      == InOrder(Plug(up, tp))
  {
    ghost var t1 := tp.(r := tp.r.(red := tp.red));
    ghost var t2 := t1.(red := false);
    Look(m, up, tp);
    var color := parent.red;
    hide At, Holds, InOrder, Plug;
    m' := ColorRight(other, color, root, m, up, tp);
    m' := ColorFocus(parent, false, root, m', up, t1);
    m' := BlackenOuterL(other, root, m', up, t2);
    m' := RotateLeftFocus(parent, root, m', up, t2.(r := t2.r.(r := t2.r.r.(red := false))));
  }

  /** Blackens the outer nephew on the left. */
  method BlackenOuterR(other: Node, root: Root, ghost m: Mem, ghost up: Ctx, ghost t: Tree)
    returns (ghost m': Mem)
    requires Holds(root, m) && At(m, up, t) && t.Bin? && t.l.Bin? && t.l.n == other && t.l.l.Bin?
    modifies m.cells.Keys
    ensures Holds(root, m') && m'.cells.Keys == m.cells.Keys
    ensures At(m', up, t.(l := t.l.(l := t.l.l.(red := false))))
    ensures InOrder(Plug(up, t.(l := t.l.(l := t.l.l.(red := false))))) == InOrder(Plug(up, t))
  {
    ghost var o := t.l.(l := t.l.l.(red := false));
    ghost var at := InL(t.n, t.red, t.r, up);
    assert Plug(at, t.l) == Plug(up, t) && Plug(at, o) == Plug(up, t.(l := o));
    hide At, Holds, InOrder, Plug;
    MoveL(m, t.n, t.red, t.r, up, t.l);
    Look(m, at, t.l);
    var outer := LeftOf(other, root, m);
    m' := ColorLeft(outer, false, root, m, at, t.l);
    MoveL(m', t.n, t.red, t.r, up, o);
  }

  method RaiseSiblingR(parent: Node, other: Node, root: Root, ghost m: Mem, ghost up: Ctx, ghost tp: Tree)
    returns (ghost m': Mem)
    requires Holds(root, m) && At(m, up, tp) && tp.Bin? && tp.n == parent
    requires tp.l.Bin? && tp.l.n == other && tp.l.l.Bin?
    modifies root, m.cells.Keys
    ensures Holds(root, m') && m'.cells.Keys == m.cells.Keys
    ensures At(m', up, Bin(tp.l.l.(red := false), other, tp.red, Bin(tp.l.r, parent, false, tp.r)))
    ensures InOrder(Plug(up, Bin(tp.l.l.(red := false), other, tp.red, Bin(tp.l.r, parent, false, tp.r))))
      == InOrder(Plug(up, tp))
  {
    ghost var t1 := tp.(l := tp.l.(red := tp.red));
    ghost var t2 := t1.(red := false);
    Look(m, up, tp);
    var color := parent.red;
    hide At, Holds, InOrder, Plug;
    m' := ColorLeft(other, color, root, m, up, tp);
    m' := ColorFocus(parent, false, root, m', up, t1);
    m' := BlackenOuterR(other, root, m', up, t2);
    m' := RotateRightFocus(parent, root, m', up, t2.(l := t2.l.(l := t2.l.l.(red := false))));
  }

  method LeftOf(node: Node, ghost root: Root, ghost m: Mem) returns (v: Node?)
    requires Holds(root, m) && node in m.cells
    ensures v == m.cells[node].left
  {
    v := node.left;
  }

  method RightOf(node: Node, ghost root: Root, ghost m: Mem) returns (v: Node?)
    requires Holds(root, m) && node in m.cells
    ensures v == m.cells[node].right
  {
    v := node.right;
  }

  ghost function Rounds(ctx: Ctx, t: Tree): nat
  {
    if IsBlack(t) then Depth(ctx) + 1 else 0
  }

  /** The first half of a round, on the left: makes sure that the sibling is black. */
  method BlackSiblingL(parent: Node, root: Root, ghost m: Mem, ghost ctx: Ctx, ghost t: Tree, ghost s: seq<Node>)
    returns (other: Node, ghost m': Mem, ghost ctx': Ctx)
    requires Holds(root, m) && Short(m, ctx, t, s) && IsBlack(t) && ctx.InL? && ctx.n == parent
    modifies root, m.cells.Keys
    ensures Holds(root, m') && m'.cells.Keys == m.cells.Keys && Short(m', ctx', t, s)
    ensures ctx'.InL? && ctx'.n == parent && Deficit(ctx', t) && ctx'.r.n == other && !ctx'.r.red
    ensures ctx' == ctx || ctx'.red
  {
    ShortDeficit(m, ctx, t, s);
    Look(m, ctx, t);
    Look(m, InR(t, ctx.n, ctx.red, ctx.up), ctx.r);
    other, m', ctx' := parent.right, m, ctx;
    if other.red {
      RedSiblingShort(ctx, t);
      hide Holds, At, InOrder, Plug, Balanced, CtxBalanced, BlackHeight;
      m' := RedSiblingL(parent, other, root, m, ctx.up, Below(ctx, t));
      ctx' := InL(parent, true, ctx.r.l, InL(other, false, ctx.r.r, ctx.up));
      Look(m', ctx', t);
      other := RightOf(parent, root, m');
    }
  }

  method BlackSiblingR(parent: Node, root: Root, ghost m: Mem, ghost ctx: Ctx, ghost t: Tree, ghost s: seq<Node>)
    returns (other: Node, ghost m': Mem, ghost ctx': Ctx)
    requires Holds(root, m) && Short(m, ctx, t, s) && IsBlack(t) && ctx.InR? && ctx.n == parent
    modifies root, m.cells.Keys
    ensures Holds(root, m') && m'.cells.Keys == m.cells.Keys && Short(m', ctx', t, s)
    ensures ctx'.InR? && ctx'.n == parent && Deficit(ctx', t) && ctx'.l.n == other && !ctx'.l.red
    ensures ctx' == ctx || ctx'.red
  {
    ShortDeficit(m, ctx, t, s);
    Look(m, ctx, t);
    Look(m, InL(ctx.n, ctx.red, t, ctx.up), ctx.l);
    other, m', ctx' := parent.left, m, ctx;
    if other.red {
      RedSiblingShort(ctx, t);
      hide Holds, At, InOrder, Plug, Balanced, CtxBalanced, BlackHeight;
      m' := RedSiblingR(parent, other, root, m, ctx.up, Below(ctx, t));
      ctx' := InR(ctx.l.r, parent, true, InR(ctx.l.l, other, false, ctx.up));
      Look(m', ctx', t);
      other := LeftOf(parent, root, m');
    }
  }

  /** Whether a child is missing or black. */
  method ChildIsBlack(child: Node?, ghost root: Root, ghost m: Mem, ghost ctx: Ctx, ghost t: Tree) returns (b: bool)
    requires Holds(root, m) && At(m, ctx, t) && child == RootOf(t)
    ensures b == IsBlack(t)
  {
    Look(m, ctx, t);
    b := child == null || !child.red;
  }

  /** The colours of the two children of the focus. */
  method ChildColors(other: Node, ghost root: Root, ghost m: Mem, ghost ctx: Ctx, ghost o: Tree)
    returns (l: bool, r: bool)
    requires Holds(root, m) && At(m, ctx, o) && o.Bin? && o.n == other
    ensures l == IsBlack(o.l) && r == IsBlack(o.r)
  {
    Look(m, ctx, o);
    MoveL(m, o.n, o.red, o.r, ctx, o.l);
    MoveR(m, o.l, o.n, o.red, ctx, o.r);
    l := ChildIsBlack(other.left, root, m, InL(o.n, o.red, o.r, ctx), o.l);
    r := ChildIsBlack(other.right, root, m, InR(o.l, o.n, o.red, ctx), o.r);
  }

  /** The end of the repair: the whole tree is valid. */
  lemma Finished(m: Mem, up: Ctx, t: Tree, s: seq<Node>)
    requires At(m, up, t) && RedBlack(Plug(up, t)) && InOrder(Plug(up, t)) == s
    ensures Short(m, Top, Plug(up, t), s)
  {
    WholeTree(m, up, t);
    assert Blackened(Plug(up, t)) == Plug(up, t);
  }

  /** A red nephew, on the left: the shortage is repaired here. */
  method RepairL(parent: Node, other: Node, outerBlack: bool, root: Root, ghost m: Mem, ghost ctx: Ctx, ghost t: Tree,
                 ghost s: seq<Node>)
    returns (ghost m': Mem)
    requires Holds(root, m) && Short(m, ctx, t, s) && Deficit(ctx, t) && ctx.InL? && ctx.n == parent
    requires ctx.r.n == other && !ctx.r.red && !(IsBlack(ctx.r.l) && IsBlack(ctx.r.r)) && outerBlack == IsBlack(ctx.r.r)
    modifies root, m.cells.Keys
    ensures Holds(root, m') && m'.cells.Keys == m.cells.Keys && Short(m', Top, Plug(ctx.up, RepairedL(ctx, t)), s)
  {
    ShortDeficit(m, ctx, t, s);
    RedNephewL(ctx, t);
    hide Holds, At, InOrder, Plug, Balanced, CtxBalanced, BlackHeight, Short, RedBlack;
    ghost var tp := Below(ctx, t);
    var o := other;
    m' := m;
    if outerBlack {
      m' := TurnNephewL(parent, other, root, m, ctx.up, tp);
      tp := tp.(r := OuterNephewL(tp.r));
      Look(m', ctx.up, tp);
      o := RightOf(parent, root, m');
    }
    m' := RaiseSiblingL(parent, o, root, m', ctx.up, tp);
    Finished(m', ctx.up, RepairedL(ctx, t), s);
  }

  method RepairR(parent: Node, other: Node, outerBlack: bool, root: Root, ghost m: Mem, ghost ctx: Ctx, ghost t: Tree,
                 ghost s: seq<Node>)
    returns (ghost m': Mem)
    requires Holds(root, m) && Short(m, ctx, t, s) && Deficit(ctx, t) && ctx.InR? && ctx.n == parent
    requires ctx.l.n == other && !ctx.l.red && !(IsBlack(ctx.l.l) && IsBlack(ctx.l.r)) && outerBlack == IsBlack(ctx.l.l)
    modifies root, m.cells.Keys
    ensures Holds(root, m') && m'.cells.Keys == m.cells.Keys && Short(m', Top, Plug(ctx.up, RepairedR(ctx, t)), s)
  {
    ShortDeficit(m, ctx, t, s);
    RedNephewR(ctx, t);
    hide Holds, At, InOrder, Plug, Balanced, CtxBalanced, BlackHeight, Short, RedBlack;
    ghost var tp := Below(ctx, t);
    var o := other;
    m' := m;
    if outerBlack {
      m' := TurnNephewR(parent, other, root, m, ctx.up, tp);
      tp := tp.(l := OuterNephewR(tp.l));
      Look(m', ctx.up, tp);
      o := LeftOf(parent, root, m');
    }
    m' := RaiseSiblingR(parent, o, root, m', ctx.up, tp);
    Finished(m', ctx.up, RepairedR(ctx, t), s);
  }

  /** The second half of a round: the shortage moves up, or is gone. */
  method Resolve(parent: Node, other: Node, onLeft: bool, root: Root, ghost m: Mem, ghost ctx: Ctx, ghost t: Tree,
                 ghost s: seq<Node>)
    returns (done: bool, ghost m': Mem, ghost ctx': Ctx, ghost t': Tree)
    requires Holds(root, m) && Short(m, ctx, t, s) && Deficit(ctx, t) && onLeft == ctx.InL? && ctx.n == parent
    requires Sibling(ctx).n == other && !Sibling(ctx).red
    modifies root, m.cells.Keys
    ensures Holds(root, m') && m'.cells.Keys == m.cells.Keys && Short(m', ctx', t', s)
    ensures done ==> ctx'.Top?
    ensures !done ==> ctx' == ctx.up && t'.Bin? && t'.n == parent && t'.red == ctx.red
  {
    ghost var o, up, tp := Sibling(ctx), ctx.up, Below(ctx, t);
    ghost var at := if onLeft then InR(t, ctx.n, ctx.red, up) else InL(ctx.n, ctx.red, t, up);
    ShortDeficit(m, ctx, t, s);
    hide Holds, At, InOrder, Plug, Balanced, CtxBalanced, BlackHeight, RedBlack, Deficit;
    var leftBlack, rightBlack := ChildColors(other, root, m, at, o);
    done := !(leftBlack && rightBlack);
    if done {
      if onLeft {
        m' := RepairL(parent, other, rightBlack, root, m, ctx, t, s);
        ctx', t' := Top, Plug(up, RepairedL(ctx, t));
      } else {
        m' := RepairR(parent, other, leftBlack, root, m, ctx, t, s);
        ctx', t' := Top, Plug(up, RepairedR(ctx, t));
      }
    } else {
      BlackNephews(ctx, t);
      if onLeft {
        m' := ColorRight(other, true, root, m, up, tp);
      } else {
        m' := ColorLeft(other, true, root, m, up, tp);
      }
      o := o.(red := true);
      ctx', t' := up, if onLeft then Bin(t, ctx.n, ctx.red, o) else Bin(o, ctx.n, ctx.red, t);
    }
  }

  /** Which side of the parent the focus is on, also when the focus is empty. */
  lemma EmptySide(m: Mem, ctx: Ctx, t: Tree)
    requires At(m, ctx, t) && Deficit(ctx, t)
    ensures ctx.n in m.cells
    ensures m.cells[ctx.n].left == RootOf(t) <==> ctx.InL?
  {
    Look(m, ctx, t);
    RootInTree(Sibling(ctx));
    RootInTree(t);
  }

  /** One round of the loop. */
  method EraseStep(node: Node?, parent: Node, root: Root, ghost m: Mem, ghost ctx: Ctx, ghost t: Tree,
                   ghost s: seq<Node>)
    returns (done: bool, ghost m': Mem, ghost ctx': Ctx, ghost t': Tree)
    requires Holds(root, m) && Short(m, ctx, t, s) && IsBlack(t) && !ctx.Top? && ctx.n == parent && node == RootOf(t)
    modifies root, m.cells.Keys
    ensures Holds(root, m') && m'.cells.Keys == m.cells.Keys && Short(m', ctx', t', s)
    ensures done ==> ctx'.Top?
    ensures !done ==> RootOf(t') == parent && Rounds(ctx', t') < Rounds(ctx, t)
  {
    ShortDeficit(m, ctx, t, s);
    EmptySide(m, ctx, t);
    hide At, InOrder, Plug, Balanced, CtxBalanced, BlackHeight, RedBlack, Short;
    var onLeft := parent.left == node;
    hide Holds, Deficit;
    var other: Node;
    ghost var c: Ctx;
    if onLeft {
      other, m', c := BlackSiblingL(parent, root, m, ctx, t, s);
    } else {
      other, m', c := BlackSiblingR(parent, root, m, ctx, t, s);
    }
    done, m', ctx', t' := Resolve(parent, other, onLeft, root, m', c, t, s);
  }

  lemma ShortNode(m: Mem, ctx: Ctx, t: Tree, s: seq<Node>)
    requires Short(m, ctx, t, s)
    ensures m.root == RootOf(t) <==> ctx.Top?
    ensures t.Bin? ==> t.n in m.cells && m.cells[t.n].red == t.red && m.cells[t.n].parent == ParentIn(ctx)
  {
    Look(m, ctx, t);
    AtRoot(m, ctx, t);
  }

  /** __rb_erase_color: from a tree that is one black node short at the focus to a valid tree, with the
      nodes in the same order. */
  method EraseColor(node0: Node?, parent0: Node?, root: Root, ghost m0: Mem, ghost ctx0: Ctx, ghost t0: Tree,
                    ghost s: seq<Node>)
    returns (ghost m: Mem, ghost tree: Tree)
    requires Holds(root, m0) && Short(m0, ctx0, t0, s) && node0 == RootOf(t0) && parent0 == ParentIn(ctx0)
    modifies root, m0.cells.Keys
    ensures Holds(root, m) && m.cells.Keys == m0.cells.Keys && At(m, Top, tree)
    ensures RedBlack(tree) && InOrder(tree) == s
  {
    var node, parent := node0, parent0;
    ghost var ctx, t := ctx0, t0;
    m := m0;
    hide At, InOrder, Plug, Balanced, CtxBalanced, BlackHeight, Short;
    ShortNode(m, ctx, t, s);
    while (node == null || !node.red) && node != root.node
      invariant Holds(root, m) && m.cells.Keys == m0.cells.Keys && Short(m, ctx, t, s)
      invariant node == RootOf(t) && parent == ParentIn(ctx)
      invariant m.root == RootOf(t) <==> ctx.Top?
      invariant t.Bin? ==> t.n in m.cells && m.cells[t.n].red == t.red
      decreases Rounds(ctx, t)
    {
      var done: bool;
      done, m, ctx, t := EraseStep(node, parent, root, m, ctx, t, s);
      ShortNode(m, ctx, t, s);
      if done {
        node := root.node;
        break;
      }
      node := parent;
      parent := node.parent;
    }
    m, tree := BlackenFocus(node, root, m, ctx, t, s);
  }

  /** The last step of the repair. */
  method BlackenFocus(node: Node?, root: Root, ghost m: Mem, ghost ctx: Ctx, ghost t: Tree, ghost s: seq<Node>)
    returns (ghost m': Mem, ghost tree: Tree)
    requires Holds(root, m) && Short(m, ctx, t, s) && node == RootOf(t) && (ctx.Top? || !IsBlack(t))
    modifies m.cells.Keys
    ensures Holds(root, m') && m'.cells.Keys == m.cells.Keys && At(m', Top, tree)
    ensures RedBlack(tree) && InOrder(tree) == s
  {
    tree := Plug(ctx, Blackened(t));
    BlackenedValid(ctx, t);
    Look(m, ctx, t);
    m' := m;
    hide Holds, At, InOrder, Plug, Balanced, CtxBalanced, BlackHeight;
    if node != null {
      m' := ColorFocus(node, false, root, m, ctx, t);
    }
    WholeTree(m', ctx, Blackened(t));
  }

  lemma BlackenedValid(ctx: Ctx, t: Tree)
    requires Balanced(Blackened(t)) && CtxBalanced(ctx, BlackHeight(t) + 1) && (ctx.Top? || !IsBlack(t))
    ensures RedBlack(Plug(ctx, Blackened(t)))
  {
    if !ctx.Top? { PlugRedBlack(ctx, Blackened(t)); }
  }
}
