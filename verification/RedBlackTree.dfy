/** Red-black trees as values: trees, the contexts around a subtree, and what balance means. */
module RedBlackTree {

  class Node {
    var left: Node?
    var right: Node?
    var parent: Node?
    var red: bool

    constructor ()
    {
      left, right, parent, red := null, null, null, true;
    }
  }

  datatype Tree = Leaf | Bin(l: Tree, n: Node, red: bool, r: Tree)

  /** What surrounds a subtree: InL when it is the left child of n, InR when it is the right one. */
  datatype Ctx = Top | InL(n: Node, red: bool, r: Tree, up: Ctx) | InR(l: Tree, n: Node, red: bool, up: Ctx)

  ghost function RootOf(t: Tree): Node?
  {
    if t.Leaf? then null else t.n
  }

  ghost function ParentIn(ctx: Ctx): Node?
  {
    if ctx.Top? then null else ctx.n
  }

  ghost function Plug(ctx: Ctx, t: Tree): Tree
    decreases ctx
  {
    match ctx
    case Top => t
    case InL(n, red, r, up) => Plug(up, Bin(t, n, red, r))
    case InR(l, n, red, up) => Plug(up, Bin(l, n, red, t))
  }

  ghost function Depth(ctx: Ctx): nat
  {
    if ctx.Top? then 0 else 1 + Depth(ctx.up)
  }

  ghost function Nodes(t: Tree): set<Node>
  {
    if t.Leaf? then {} else Nodes(t.l) + {t.n} + Nodes(t.r)
  }

  ghost function CtxNodes(ctx: Ctx): set<Node>
  {
    match ctx
    case Top => {}
    case InL(n, _, r, up) => {n} + Nodes(r) + CtxNodes(up)
    case InR(l, n, _, up) => {n} + Nodes(l) + CtxNodes(up)
  }

  ghost function InOrder(t: Tree): seq<Node>
  {
    if t.Leaf? then [] else InOrder(t.l) + [t.n] + InOrder(t.r)
  }

  /** The nodes before and after the hole of a context. */
  ghost function Before(ctx: Ctx): seq<Node>
  {
    match ctx
    case Top => []
    case InL(_, _, _, up) => Before(up)
    case InR(l, n, _, up) => Before(up) + InOrder(l) + [n]
  }

  ghost function After(ctx: Ctx): seq<Node>
  {
    match ctx
    case Top => []
    case InL(n, _, r, up) => [n] + InOrder(r) + After(up)
    case InR(_, _, _, up) => After(up)
  }

  lemma Regroup<T>(a: seq<T>, b: seq<T>, c: seq<T>, d: seq<T>, e: seq<T>)
    ensures a + (b + c + d) + e == a + b + (c + d + e)
    ensures a + (b + c + d) + e == (a + b + c) + d + e
  {}

  lemma RegroupOuter<T>(a: seq<T>, b: seq<T>, x: seq<T>, c: seq<T>, d: seq<T>)
    ensures a + (b + x + c) + d == (a + b) + x + (c + d)
    ensures a + (b + c) + d == (a + b) + (c + d)
  {}

  lemma {:induction false} InOrderPlug(ctx: Ctx, t: Tree)
    ensures InOrder(Plug(ctx, t)) == Before(ctx) + InOrder(t) + After(ctx)
    decreases ctx
  {
    match ctx
    case Top =>
    case InL(n, red, r, up) =>
      InOrderPlug(up, Bin(t, n, red, r));
      Regroup(Before(up), InOrder(t), [n], InOrder(r), After(up));
    case InR(l, n, red, up) =>
      InOrderPlug(up, Bin(l, n, red, t));
      Regroup(Before(up), InOrder(l), [n], InOrder(t), After(up));
  }

  /** Black nodes on the way to the leftmost leaf. */
  ghost function BlackHeight(t: Tree): nat
  {
    if t.Leaf? then 0 else BlackHeight(t.l) + if t.red then 0 else 1
  }

  ghost predicate IsBlack(t: Tree)
  {
    t.Bin? ==> !t.red
  }

  /** Equal black heights everywhere and no red node with a red child. */
  ghost predicate Balanced(t: Tree)
  {
    t.Bin? ==>
      && Balanced(t.l) && Balanced(t.r)
      && BlackHeight(t.l) == BlackHeight(t.r)
      && (t.red ==> IsBlack(t.l) && IsBlack(t.r))
  }

  ghost predicate RedBlack(t: Tree)
  {
    Balanced(t) && IsBlack(t)
  }

  ghost predicate RedHole(ctx: Ctx)
  {
    !ctx.Top? && ctx.red
  }

  ghost predicate FrameBalanced(red: bool, sib: Tree, up: Ctx, h: nat)
  {
    && Balanced(sib) && BlackHeight(sib) == h
    && (red ==> IsBlack(sib) && !up.Top? && !up.red)
  }

  /** A context that a tree of black height h completes to a red-black tree, provided the tree is black
      where the hole's parent is red or missing. */
  ghost predicate CtxBalanced(ctx: Ctx, h: nat)
  {
    match ctx
    case Top => true
    case InL(_, red, r, up) => FrameBalanced(red, r, up, h) && CtxBalanced(up, if red then h else h + 1)
    case InR(l, _, red, up) => FrameBalanced(red, l, up, h) && CtxBalanced(up, if red then h else h + 1)
  }

  lemma {:induction false} PlugRedBlack(ctx: Ctx, t: Tree)
    requires Balanced(t) && CtxBalanced(ctx, BlackHeight(t))
    requires RedHole(ctx) || ctx.Top? ==> IsBlack(t)
    ensures RedBlack(Plug(ctx, t))
    decreases ctx
  {
    match ctx
    case Top =>
    case InL(n, red, r, up) => PlugRedBlack(up, Bin(t, n, red, r));
    case InR(l, n, red, up) => PlugRedBlack(up, Bin(l, n, red, t));
  }

  /** Taking a subtree out of a red-black tree leaves a balanced context. */
  lemma {:induction false} UnplugRedBlack(ctx: Ctx, t: Tree)
    requires RedBlack(Plug(ctx, t))
    ensures Balanced(t) && CtxBalanced(ctx, BlackHeight(t))
    ensures RedHole(ctx) || ctx.Top? ==> IsBlack(t)
    decreases ctx
  {
    match ctx
    case Top =>
    case InL(n, red, r, up) => UnplugRedBlack(up, Bin(t, n, red, r));
    case InR(l, n, red, up) => UnplugRedBlack(up, Bin(l, n, red, t));
  }

  /** No node occurs twice. */
  ghost predicate Proper(t: Tree)
  {
    t.Bin? ==>
      && Proper(t.l) && Proper(t.r)
      && t.n !in Nodes(t.l) && t.n !in Nodes(t.r) && Nodes(t.l) !! Nodes(t.r)
  }

  ghost predicate CtxProper(ctx: Ctx)
  {
    match ctx
    case Top => true
    case InL(n, _, r, up) =>
      Proper(r) && CtxProper(up) && n !in Nodes(r) && n !in CtxNodes(up) && Nodes(r) !! CtxNodes(up)
    case InR(l, n, _, up) =>
      Proper(l) && CtxProper(up) && n !in Nodes(l) && n !in CtxNodes(up) && Nodes(l) !! CtxNodes(up)
  }

  ghost predicate ZipProper(ctx: Ctx, t: Tree)
  {
    CtxProper(ctx) && Proper(t) && Nodes(t) !! CtxNodes(ctx)
  }

  lemma {:induction false} PlugProper(ctx: Ctx, t: Tree)
    ensures Proper(Plug(ctx, t)) <==> ZipProper(ctx, t)
    ensures Nodes(Plug(ctx, t)) == Nodes(t) + CtxNodes(ctx)
    decreases ctx
  {
    match ctx
    case Top =>
    case InL(n, red, r, up) => PlugProper(up, Bin(t, n, red, r));
    case InR(l, n, red, up) => PlugProper(up, Bin(l, n, red, t));
  }

  ghost predicate Elements(s: seq<Node>, nodes: set<Node>)
  {
    (forall x <- nodes :: x in s) && (forall x <- s :: x in nodes)
  }

  lemma {:induction false} NodesInOrder(t: Tree)
    ensures Elements(InOrder(t), Nodes(t))
  {
    if t.Bin? {
      NodesInOrder(t.l);
      NodesInOrder(t.r);
    }
  }

  ghost predicate Distinct(s: seq<Node>)
  {
    forall i, j :: 0 <= i < j < |s| ==> s[i] != s[j]
  }

  lemma {:induction false} ProperDistinct(t: Tree)
    requires Proper(t)
    ensures Distinct(InOrder(t))
  {
    if t.Bin? {
      ProperDistinct(t.l);
      ProperDistinct(t.r);
      NodesInOrder(t.l);
      NodesInOrder(t.r);
      DistinctJoin(InOrder(t.l), t.n, InOrder(t.r));
    }
  }

  ghost predicate Apart(a: seq<Node>, b: seq<Node>)
  {
    forall x <- a :: x !in b
  }

  lemma DistinctJoin(a: seq<Node>, x: Node, b: seq<Node>)
    requires Distinct(a) && Distinct(b) && x !in a && x !in b && Apart(a, b)
    ensures Distinct(a + [x] + b)
  {
    var s := a + [x] + b;
    forall i, j | 0 <= i < j < |s|
      ensures s[i] != s[j]
    {
      assert i < |a| ==> s[i] == a[i] && a[i] in a;
      assert j < |a| ==> s[j] == a[j];
      assert j > |a| ==> s[j] == b[j - |a| - 1] && s[j] in b;
      assert i > |a| ==> s[i] == b[i - |a| - 1];
    }
  }

  /** s' is s with x left out, once. */
  ghost predicate LeftOut(s: seq<Node>, s': seq<Node>, x: Node)
  {
    exists i :: 0 <= i < |s| && s[i] == x && s' == s[..i] + s[i + 1..]
  }

  lemma LeftOutJoin(a: seq<Node>, x: Node, b: seq<Node>)
    ensures LeftOut(a + [x] + b, a + b, x)
  {
    var s, i := a + [x] + b, |a|;
    assert s[..i] == a && s[i + 1..] == b && s[i] == x;
  }

  lemma LeftOutElements(s: seq<Node>, s': seq<Node>, x: Node, nodes: set<Node>, nodes': set<Node>)
    requires Distinct(s) && LeftOut(s, s', x) && Elements(s, nodes) && Elements(s', nodes')
    ensures nodes' == nodes - {x}
  {
    var i :| 0 <= i < |s| && s[i] == x && s' == s[..i] + s[i + 1..];
    forall y <- nodes'
      ensures y in nodes && y != x
    {
      LeftOutBack(s, i, y);
    }
    forall y <- nodes | y != x
      ensures y in nodes'
    {
      LeftOutStays(s, i, y);
    }
    hide *;
  }

  lemma LeftOutBack(s: seq<Node>, i: nat, y: Node)
    requires i < |s| && Distinct(s) && y in s[..i] + s[i + 1..]
    ensures y in s && y != s[i]
  {
    var s' := s[..i] + s[i + 1..];
    var k :| 0 <= k < |s'| && s'[k] == y;
    assert y == s[if k < i then k else k + 1];
  }

  lemma LeftOutStays(s: seq<Node>, i: nat, y: Node)
    requires i < |s| && y in s && y != s[i]
    ensures y in s[..i] + s[i + 1..]
  {
    var s' := s[..i] + s[i + 1..];
    var k :| 0 <= k < |s| && s[k] == y;
    assert y == s'[if k < i then k else k - 1];
  }

  /** Every node of a tree is at the root of a subtree in some context. */
  lemma {:induction false} Locate(base: Ctx, tree: Tree, n: Node) returns (ctx: Ctx, t: Tree)
    requires n in Nodes(tree)
    ensures Plug(ctx, t) == Plug(base, tree) && t.Bin? && t.n == n
    decreases tree
  {
    if tree.n == n {
      ctx, t := base, tree;
    } else if n in Nodes(tree.l) {
      ctx, t := Locate(InL(tree.n, tree.red, tree.r, base), tree.l, n);
    } else {
      ctx, t := Locate(InR(tree.l, tree.n, tree.red, base), tree.r, n);
    }
  }
}
