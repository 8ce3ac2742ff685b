/** Walking through a tree in order by its links (rb_first, rb_last, rb_next and rb_prev in bintree.c). */
module RedBlackIterate {
  import opened RedBlackTree
  import opened RedBlackHeap
  import opened RedBlackErase

  ghost predicate NextAt(s: seq<Node>, i: int, x: Node, y: Node?)
  {
    0 <= i < |s| && s[i] == x && y == if i + 1 < |s| then s[i + 1] else null
  }

  ghost predicate PrevAt(s: seq<Node>, i: int, x: Node, y: Node?)
  {
    0 <= i < |s| && s[i] == x && y == if i > 0 then s[i - 1] else null
  }

  /** y comes right after x in s, or is null if x is the last. */
  ghost predicate NextIn(s: seq<Node>, x: Node, y: Node?)
  {
    exists i :: NextAt(s, i, x, y)
  }

  /** y comes right before x in s, or is null if x is the first. */
  ghost predicate PrevIn(s: seq<Node>, x: Node, y: Node?)
  {
    exists i :: PrevAt(s, i, x, y)
  }

  ghost function Head(s: seq<Node>): Node?
  {
    if s == [] then null else s[0]
  }

  ghost function Final(s: seq<Node>): Node?
  {
    if s == [] then null else s[|s| - 1]
  }

  /** On distinct nodes each of the two walks undoes the other. */
  lemma WalksInverse(s: seq<Node>, x: Node, y: Node)
    requires Distinct(s)
    ensures NextIn(s, x, y) <==> PrevIn(s, y, x)
    ensures NextIn(s, x, y) ==> forall z: Node? :: NextIn(s, x, z) ==> z == y
    ensures PrevIn(s, y, x) ==> forall z: Node? :: PrevIn(s, y, z) ==> z == x
  {
    if NextIn(s, x, y) {
      var i :| NextAt(s, i, x, y);
      assert PrevAt(s, i + 1, y, x);
    }
    if PrevIn(s, y, x) {
      var i :| PrevAt(s, i, y, x);
      assert NextAt(s, i - 1, x, y);
    }
  }

  /** The neighbours of the node at the focus. */
  lemma Neighbours(ctx: Ctx, t: Tree)
    requires t.Bin?
    ensures NextIn(InOrder(Plug(ctx, t)), t.n, Head(InOrder(t.r) + After(ctx)))
    ensures PrevIn(InOrder(Plug(ctx, t)), t.n, Final(Before(ctx) + InOrder(t.l)))
  {
    InOrderPlug(ctx, t);
    var b, l, r, a := Before(ctx), InOrder(t.l), InOrder(t.r), After(ctx);
    assert InOrder(t) == l + [t.n] + r;
    RegroupOuter(b, l, [t.n], r, a);
    hide *;
    Middle(b + l, t.n, r + a);
  }

  lemma Middle(a: seq<Node>, x: Node, b: seq<Node>)
    ensures NextIn(a + [x] + b, x, Head(b)) && PrevIn(a + [x] + b, x, Final(a))
  {
    var s, i := a + [x] + b, |a|;
    assert s[i] == x;
    assert b != [] ==> s[i + 1] == b[0];
    assert a != [] ==> s[i - 1] == a[i - 1];
    assert NextAt(s, i, x, Head(b)) && PrevAt(s, i, x, Final(a));
  }

  ghost predicate AllRight(path: Ctx)
  {
    !path.Top? ==> path.InR? && AllRight(path.up)
  }

  lemma {:induction false} AllRightAfter(path: Ctx)
    requires AllRight(path)
    ensures After(path) == []
  {
    if !path.Top? { AllRightAfter(path.up); }
  }

  method Rightmost(start: Node, ghost root: Root, ghost m: Mem, ghost base: Ctx, ghost t0: Tree)
    returns (node: Node, ghost path: Ctx, ghost t: Tree)
    requires Holds(root, m) && At(m, base, t0) && t0.Bin? && t0.n == start
    ensures AllRight(path) && Plug(path, t) == t0 && At(m, Graft(path, base), t)
    ensures t.Bin? && t.n == node && t.r.Leaf?
  {
    node, path, t := start, Top, t0;
    Look(m, base, t);
    while node.right != null
      invariant AllRight(path) && Plug(path, t) == t0 && At(m, Graft(path, base), t)
      invariant t.Bin? && t.n == node && node in m.cells && m.cells[node].right == RootOf(t.r)
      decreases t
    {
      node := node.right;
      MoveR(m, t.l, t.n, t.red, Graft(path, base), t.r);
      path, t := InR(t.l, t.n, t.red, path), t.r;
      Look(m, Graft(path, base), t);
    }
  }

  lemma LeftmostFirst(path: Ctx, t: Tree)
    requires AllLeft(path) && t.Bin? && t.l.Leaf?
    ensures InOrder(Plug(path, t)) != [] && InOrder(Plug(path, t))[0] == t.n
  {
    InOrderPlug(path, t);
    AllLeftBefore(path);
  }

  lemma RightmostLast(path: Ctx, t: Tree)
    requires AllRight(path) && t.Bin? && t.r.Leaf?
    ensures InOrder(Plug(path, t)) != [] && Final(InOrder(Plug(path, t))) == t.n
  {
    InOrderPlug(path, t);
    AllRightAfter(path);
  }

  /** rb_first */
  method First(root: Root, ghost m: Mem, ghost tree: Tree) returns (n: Node?)
    requires Holds(root, m) && At(m, Top, tree)
    ensures n == Head(InOrder(tree))
  {
    Look(m, Top, tree);
    n := root.node;
    if n != null {
      ghost var path, t;
      n, path, t := Leftmost(n, root, m, Top, tree);
      LeftmostFirst(path, t);
    }
  }

  /** rb_last */
  method Last(root: Root, ghost m: Mem, ghost tree: Tree) returns (n: Node?)
    requires Holds(root, m) && At(m, Top, tree)
    ensures n == Final(InOrder(tree))
  {
    Look(m, Top, tree);
    n := root.node;
    if n != null {
      ghost var path, t;
      n, path, t := Rightmost(n, root, m, Top, tree);
      RightmostLast(path, t);
    }
  }

  /** Climbing while coming from the right. */
  method ClimbRight(start: Node, ghost root: Root, ghost m: Mem, ghost ctx0: Ctx, ghost t0: Tree)
    returns (parent: Node?)
    requires Holds(root, m) && At(m, ctx0, t0) && t0.Bin? && t0.n == start
    ensures parent == Head(After(ctx0))
  {
    var node := start;
    ghost var ctx, t := ctx0, t0;
    Look(m, ctx, t);
    parent := node.parent;
    if !ctx.Top? { ChildSide(m, ctx, t); }
    while parent != null && node == parent.right
      invariant At(m, ctx, t) && t.Bin? && t.n == node && parent == ParentIn(ctx) && After(ctx) == After(ctx0)
      invariant !ctx.Top? ==> ctx.n in m.cells && (m.cells[ctx.n].right == node <==> ctx.InR?)
      decreases ctx
    {
      node := parent;
      MoveR(m, ctx.l, ctx.n, ctx.red, ctx.up, t);
      ctx, t := ctx.up, Bin(ctx.l, ctx.n, ctx.red, t);
      Look(m, ctx, t);
      parent := node.parent;
      if !ctx.Top? { ChildSide(m, ctx, t); }
    }
  }

  /** Climbing while coming from the left. */
  method ClimbLeft(start: Node, ghost root: Root, ghost m: Mem, ghost ctx0: Ctx, ghost t0: Tree) returns (parent: Node?)
    requires Holds(root, m) && At(m, ctx0, t0) && t0.Bin? && t0.n == start
    ensures parent == Final(Before(ctx0))
  {
    var node := start;
    ghost var ctx, t := ctx0, t0;
    Look(m, ctx, t);
    parent := node.parent;
    if !ctx.Top? { ChildSide(m, ctx, t); }
    while parent != null && node == parent.left
      invariant At(m, ctx, t) && t.Bin? && t.n == node && parent == ParentIn(ctx) && Before(ctx) == Before(ctx0)
      invariant !ctx.Top? ==> ctx.n in m.cells && (m.cells[ctx.n].left == node <==> ctx.InL?)
      decreases ctx
    {
      node := parent;
      MoveL(m, ctx.n, ctx.red, ctx.r, ctx.up, t);
      ctx, t := ctx.up, Bin(t, ctx.n, ctx.red, ctx.r);
      Look(m, ctx, t);
      parent := node.parent;
      if !ctx.Top? { ChildSide(m, ctx, t); }
    }
  }

  /** A node of a tree is not its own parent. */
  lemma NotOwnParent(m: Mem, ctx: Ctx, t: Tree)
    requires At(m, ctx, t) && t.Bin?
    ensures t.n != ParentIn(ctx)
  {
    ParentInCtx(ctx);
  }

  /** rb_next: the node that follows in order, null after the last; a node that is its own parent is in
      no tree and has none. */
  method Next(node: Node, ghost root: Root, ghost m: Mem, ghost tree: Tree) returns (next: Node?)
    requires Holds(root, m) && At(m, Top, tree) && node in m.cells
    requires node in Nodes(tree) || m.cells[node].parent == node
    ensures node in Nodes(tree) ==> NextIn(InOrder(tree), node, next)
    ensures node !in Nodes(tree) ==> next == null
  {
    ghost var ctx: Ctx, t: Tree := Top, tree;
    if node in Nodes(tree) {
      ctx, t := Locate(Top, tree, node);
      WholeTree(m, ctx, t);
      Look(m, ctx, t);
      NotOwnParent(m, ctx, t);
      Neighbours(ctx, t);
      MoveR(m, t.l, t.n, t.red, ctx, t.r);
    }
    if node.parent == node {
      return null;
    }
    hide At, NextIn;
    if node.right != null {
      ghost var path, ts;
      next, path, ts := Leftmost(node.right, root, m, InR(t.l, t.n, t.red, ctx), t.r);
      LeftmostFirst(path, ts);
    } else {
      next := ClimbRight(node, root, m, ctx, t);
    }
  }

  /** rb_prev: the node that comes before in order, null before the first. */
  method Prev(node: Node, ghost root: Root, ghost m: Mem, ghost tree: Tree) returns (prev: Node?)
    requires Holds(root, m) && At(m, Top, tree) && node in m.cells
    requires node in Nodes(tree) || m.cells[node].parent == node
    ensures node in Nodes(tree) ==> PrevIn(InOrder(tree), node, prev)
    ensures node !in Nodes(tree) ==> prev == null
  {
    ghost var ctx: Ctx, t: Tree := Top, tree;
    if node in Nodes(tree) {
      ctx, t := Locate(Top, tree, node);
      WholeTree(m, ctx, t);
      Look(m, ctx, t);
      NotOwnParent(m, ctx, t);
      Neighbours(ctx, t);
      MoveL(m, t.n, t.red, t.r, ctx, t.l);
    }
    if node.parent == node {
      return null;
    }
    hide At, PrevIn;
    if node.left != null {
      ghost var path, ts;
      prev, path, ts := Rightmost(node.left, root, m, InL(t.n, t.red, t.r, ctx), t.l);
      RightmostLast(path, ts);
    } else {
      prev := ClimbLeft(node, root, m, ctx, t);
    }
  }

  /** The whole walk: rb_first and then rb_next until it gives null visits every node exactly once, in
      order. */
  method Walk(root: Root, ghost m: Mem, ghost tree: Tree) returns (visited: seq<Node>)
    requires Holds(root, m) && At(m, Top, tree)
    ensures visited == InOrder(tree) && Distinct(visited) && Elements(visited, Nodes(tree))
  {
    ghost var s := InOrder(tree);
    ProperDistinct(tree);
    NodesInOrder(tree);
    RepInCells(m.cells, tree, null);
    var node := First(root, m, tree);
    visited := [];
    while node != null
      invariant |visited| <= |s| && visited == s[..|visited|]
      invariant node == if |visited| < |s| then s[|visited|] else null
      decreases |s| - |visited|
    {
      ghost var i := |visited|;
      assert s[i] in s;
      visited := visited + [node];
      var next := Next(node, root, m, tree);
      NextUnique(s, i, next);
      node := next;
    }
  }

  lemma NextUnique(s: seq<Node>, i: nat, y: Node?)
    requires i < |s| && Distinct(s) && NextIn(s, s[i], y)
    ensures y == if i + 1 < |s| then s[i + 1] else null
  {}

  /** Going to the next node and back, or to the previous node and back, leads to where it started. */
  method StepAndBack(node: Node, ghost root: Root, ghost m: Mem, ghost tree: Tree) returns (back: Node?, again: Node?)
    requires Holds(root, m) && At(m, Top, tree) && node in Nodes(tree)
    ensures back == if node == Final(InOrder(tree)) then null else node
    ensures again == if node == Head(InOrder(tree)) then null else node
  {
    ProperDistinct(tree);
    NodesInOrder(tree);
    RepInCells(m.cells, tree, null);
    var next := Next(node, root, m, tree);
    var prev := Prev(node, root, m, tree);
    hide At, Holds, Nodes, InOrder;
    EndsAre(InOrder(tree), node, next, prev);
    back, again := null, null;
    if next != null {
      WalksInverse(InOrder(tree), node, next);
      back := Prev(next, root, m, tree);
    }
    if prev != null {
      WalksInverse(InOrder(tree), prev, node);
      again := Next(prev, root, m, tree);
    }
  }

  lemma EndsAre(s: seq<Node>, x: Node, next: Node?, prev: Node?)
    requires Distinct(s) && NextIn(s, x, next) && PrevIn(s, x, prev)
    ensures next == null <==> x == Final(s)
    ensures prev == null <==> x == Head(s)
    ensures next != null ==> next in s
    ensures prev != null ==> prev in s
  {}
}
