/**
 Walking a tree along its links: the neighbours of a node in order, and the order that
 visits children before their parents.
 */
module RbWalk {
  import opened RbShape
  import opened RbLinks
  import opened RbSteps
  import opened RbSplice
  import opened RbTree

  ghost function FirstOf(s: seq<Node>): Node? {
    if s == [] then null else s[0]
  }

  ghost function LastOf(s: seq<Node>): Node? {
    if s == [] then null else s[|s| - 1]
  }

  /** The entry after `x`, and the entry before it. */
  ghost predicate IsNext(s: seq<Node>, x: Node, y: Node?) {
    forall i :: 0 <= i < |s| && s[i] == x ==> y == if i + 1 < |s| then s[i + 1] else null
  }

  ghost predicate IsPrevious(s: seq<Node>, x: Node, y: Node?) {
    forall i :: 0 <= i < |s| && s[i] == x ==> y == if i > 0 then s[i - 1] else null
  }

  lemma OnlyAt(a: seq<Node>, x: Node, b: seq<Node>)
    requires multiset(a + [x] + b)[x] == 1
    ensures IsNext(a + [x] + b, x, FirstOf(b)) && IsPrevious(a + [x] + b, x, LastOf(a))
  {
    forall i | 0 <= i < |a + [x] + b| && (a + [x] + b)[i] == x ensures i == |a| {
      if i != |a| { Twice(a, x, b, i); }
    }
  }

  lemma Twice(a: seq<Node>, x: Node, b: seq<Node>, i: nat)
    requires i < |a + [x] + b| && i != |a| && (a + [x] + b)[i] == x
    ensures multiset(a + [x] + b)[x] >= 2
  {
    assert multiset(a + [x] + b) == multiset(a) + multiset{x} + multiset(b);
    if i < |a| {
      assert a[i] in multiset(a);
    } else {
      assert b[i - |a| - 1] in multiset(b);
    }
  }

  // ---------- standing at a node ----------

  ghost predicate Standing(m: Mem, root: Node?, ctx: Ctx, t: Tree) {
    At(m, root, ctx, t) && t.Tree?
  }

  lemma StandingView(m: Mem, root: Node?, ctx: Ctx, t: Tree)
    requires Standing(m, root, ctx, t)
    ensures t.Tree? && t.n in m && m[t.n].parent == Above(ctx) && m[t.n].left == Root(t.left) && m[t.n].right == Root(t.right)
    ensures Linked(m, t.left, t.n) && Linked(m, t.right, t.n)
    ensures ctx.In? ==> ctx.n in m && ctx.n != t.n && Linked(m, ctx.other, ctx.n)
    ensures ctx.In? ==> m[ctx.n].left == (if ctx.dir then t.n else Root(ctx.other))
    ensures ctx.In? ==> m[ctx.n].right == (if ctx.dir then Root(ctx.other) else t.n)
    ensures ctx.In? ==> Root(ctx.other) != t.n
  {
    CtxOccurs(ctx);
    Occurs(t);
    if ctx.In? { Occurs(ctx.other); }
    assert Count(t, t.n) + CtxCount(ctx, t.n) == 1;
  }

  lemma StepUp(m: Mem, root: Node?, ctx: Ctx, t: Tree) returns (t': Tree)
    requires Standing(m, root, ctx, t) && ctx.In?
    ensures Standing(m, root, ctx.up, t') && t'.Tree? && t'.n == ctx.n
  {
    t' := Mk(ctx.dir, t, ctx.n, ctx.black, ctx.sub, ctx.other);
    Up(m, root, ctx.dir, ctx.up, ctx.n, ctx.black, ctx.sub, ctx.other, t);
  }

  lemma Find(m: Mem, root: Node?, tree: Tree, node: Node) returns (ctx: Ctx, t: Tree)
    requires Sound(m, root, tree) && node in m
    ensures Standing(m, root, ctx, t) && t.n == node && Plug(ctx, t) == tree
  {
    assert Count(tree, node) > 0;
    ctx, t := FindIn(m, root, Top, tree, node);
  }

  lemma {:induction false} FindIn(m: Mem, root: Node?, ctx0: Ctx, t0: Tree, node: Node) returns (ctx: Ctx, t: Tree)
    requires At(m, root, ctx0, t0) && Count(t0, node) > 0
    ensures Standing(m, root, ctx, t) && t.n == node && Plug(ctx, t) == Plug(ctx0, t0)
    decreases t0
  {
    if t0.n == node {
      return ctx0, t0;
    }
    var dir := Count(t0.left, node) > 0;
    TreeMk(dir, t0);
    Up(m, root, dir, ctx0, t0.n, t0.black, t0.sub, Child(t0, !dir), Child(t0, dir));
    ctx, t := FindIn(m, root, Below(ctx0, t0, dir), Child(t0, dir), node);
  }

  /** What is before and after the node at the focus. */
  lemma Neighbours(m: Mem, root: Node?, ctx: Ctx, t: Tree)
    requires Standing(m, root, ctx, t)
    ensures IsNext(Inorder(Plug(ctx, t)), t.n, FirstOf(Inorder(t.right) + After(ctx)))
    ensures IsPrevious(Inorder(Plug(ctx, t)), t.n, LastOf(Before(ctx) + Inorder(t.left)))
  {
    StandingView(m, root, ctx, t);
    FocusOnce(m, root, ctx, t);
    FocusOrder(ctx, t);
    hide *;
    OnlyAt(Before(ctx) + Inorder(t.left), t.n, Inorder(t.right) + After(ctx));
  }

  lemma FocusOnce(m: Mem, root: Node?, ctx: Ctx, t: Tree)
    requires Standing(m, root, ctx, t)
    ensures multiset(Inorder(Plug(ctx, t)))[t.n] == 1
  {
    assert t.n in m;
    hide Inorder, Order, Count, CtxCount;
    OrderCount(ctx, t, t.n);
    PlugOrder(ctx, t);
  }

  lemma FocusOrder(ctx: Ctx, t: Tree)
    requires t.Tree?
    ensures Inorder(Plug(ctx, t)) == (Before(ctx) + Inorder(t.left)) + [t.n] + (Inorder(t.right) + After(ctx))
  {
    PlugOrder(ctx, t);
    Regroup(Before(ctx), Inorder(t.left), t.n, Inorder(t.right), After(ctx));
  }

  // ---------- in order ----------

  lemma LeftEnd(t: Tree)
    requires t.Tree?
    ensures FirstOf(Inorder(t)) == if t.left.Tree? then FirstOf(Inorder(t.left)) else t.n
    ensures LastOf(Inorder(t)) == if t.right.Tree? then LastOf(Inorder(t.right)) else t.n
  {
  }

  /** `while (n->rb_left) n = n->rb_left` */
  method Leftmost(r: RbRoot, top: Node, ghost t0: Tree, ghost p: Node?) returns (node: Node)
    requires r.Agrees() && Linked(r.mem, t0, p) && Root(t0) == top
    ensures node == FirstOf(Inorder(t0))
  {
    node := top;
    ghost var t := t0;
    LeftEnd(t);
    hide RbRoot.Agrees, Inorder;
    var left := r.LeftOf(node);
    while left != null
      invariant t.Tree? && t.n == node && Linked(r.mem, t.left, node) && left == Root(t.left)
      invariant FirstOf(Inorder(t0)) == if t.left.Tree? then FirstOf(Inorder(t.left)) else t.n
      decreases t
    {
      t, node := t.left, left;
      LeftEnd(t);
      left := r.LeftOf(node);
    }
  }

  /** `while (n->rb_right) n = n->rb_right` */
  method Rightmost(r: RbRoot, top: Node, ghost t0: Tree, ghost p: Node?) returns (node: Node)
    requires r.Agrees() && Linked(r.mem, t0, p) && Root(t0) == top
    ensures node == LastOf(Inorder(t0))
  {
    node := top;
    ghost var t := t0;
    LeftEnd(t);
    hide RbRoot.Agrees, Inorder;
    var right := r.RightOf(node);
    while right != null
      invariant t.Tree? && t.n == node && Linked(r.mem, t.right, node) && right == Root(t.right)
      invariant LastOf(Inorder(t0)) == if t.right.Tree? then LastOf(Inorder(t.right)) else t.n
      decreases t
    {
      t, node := t.right, right;
      LeftEnd(t);
      right := r.RightOf(node);
    }
  }

  /** `rb_first` */
  method First(r: RbRoot) returns (n: Node?)
    requires r.Valid()
    ensures n == FirstOf(r.Contents())
  {
    n := r.root;
    if n == null {
      return null;
    }
    n := Leftmost(r, n, r.tree, null);
  }

  /** `rb_last` */
  method Last(r: RbRoot) returns (n: Node?)
    requires r.Valid()
    ensures n == LastOf(r.Contents())
  {
    n := r.root;
    if n == null {
      return null;
    }
    n := Rightmost(r, n, r.tree, null);
  }

  /** `RB_EMPTY_NODE`: parent word and address are equal, so the node is its own parent, and red. */
  method EmptyNode(r: RbRoot, node: Node, ghost ctx: Ctx, ghost t: Tree) returns (empty: bool)
    requires r.Agrees() && Standing(r.mem, r.root, ctx, t) && t.n == node
    ensures !empty
  {
    StandingView(r.mem, r.root, ctx, t);
    var p := r.ParentOf(node);
    var black := r.IsBlack(node);
    empty := p == node && !black;
  }

  /** `rb_next` */
  method Next(r: RbRoot, node: Node) returns (res: Node?)
    requires r.Valid() && node in r.mem
    ensures IsNext(r.Contents(), node, res)
  {
    ghost var ctx, t := Find(r.mem, r.root, r.tree, node);
    hide RbRoot.Agrees, Standing, IsNext, IsPrevious, Sound;
    StandingView(r.mem, r.root, ctx, t);
    Neighbours(r.mem, r.root, ctx, t);
    NextParts(ctx, t);
    var empty := EmptyNode(r, node, ctx, t);
    if empty {
      return null;
    }
    var right := r.RightOf(node);
    if right != null {
      res := Leftmost(r, right, t.right, node);
      return;
    }
    res := ClimbRight(r, node, ctx, t);
  }

  lemma NextParts(ctx: Ctx, t: Tree)
    requires t.Tree?
    ensures FirstOf(Inorder(t.right) + After(ctx)) == if t.right.Tree? then FirstOf(Inorder(t.right)) else FirstOf(After(ctx))
    ensures LastOf(Before(ctx) + Inorder(t.left)) == if t.left.Tree? then LastOf(Inorder(t.left)) else LastOf(Before(ctx))
  {
    assert [] + After(ctx) == After(ctx) && Before(ctx) + [] == Before(ctx);
  }

  /** Up while the node is a right child. */
  method ClimbRight(r: RbRoot, from: Node, ghost ctx0: Ctx, ghost t0: Tree) returns (parent: Node?)
    requires r.Agrees() && Standing(r.mem, r.root, ctx0, t0) && t0.n == from
    ensures parent == FirstOf(After(ctx0))
  {
    hide RbRoot.Agrees, Standing;
    ghost var ctx, t := ctx0, t0;
    var node := from;
    StandingView(r.mem, r.root, ctx, t);
    while true
      invariant Standing(r.mem, r.root, ctx, t) && t.Tree? && t.n == node && FirstOf(After(ctx)) == FirstOf(After(ctx0))
      decreases ctx
    {
      StandingView(r.mem, r.root, ctx, t);
      parent := r.ParentOf(node);
      if parent == null {
        return;
      }
      var right := r.RightOf(parent);
      if node != right {
        return;
      }
      t := StepUp(r.mem, r.root, ctx, t);
      node, ctx := parent, ctx.up;
    }
  }

  /** Up while the node is a left child. */
  method ClimbLeft(r: RbRoot, from: Node, ghost ctx0: Ctx, ghost t0: Tree) returns (parent: Node?)
    requires r.Agrees() && Standing(r.mem, r.root, ctx0, t0) && t0.n == from
    ensures parent == LastOf(Before(ctx0))
  {
    hide RbRoot.Agrees, Standing;
    ghost var ctx, t := ctx0, t0;
    var node := from;
    StandingView(r.mem, r.root, ctx, t);
    while true
      invariant Standing(r.mem, r.root, ctx, t) && t.Tree? && t.n == node && LastOf(Before(ctx)) == LastOf(Before(ctx0))
      decreases ctx
    {
      StandingView(r.mem, r.root, ctx, t);
      parent := r.ParentOf(node);
      if parent == null {
        return;
      }
      var left := r.LeftOf(parent);
      if node != left {
        return;
      }
      t := StepUp(r.mem, r.root, ctx, t);
      node, ctx := parent, ctx.up;
    }
  }

  /** `rb_prev` */
  method Prev(r: RbRoot, node: Node) returns (res: Node?)
    requires r.Valid() && node in r.mem
    ensures IsPrevious(r.Contents(), node, res)
  {
    ghost var ctx, t := Find(r.mem, r.root, r.tree, node);
    hide RbRoot.Agrees, Standing, IsNext, IsPrevious, Sound;
    StandingView(r.mem, r.root, ctx, t);
    Neighbours(r.mem, r.root, ctx, t);
    NextParts(ctx, t);
    var empty := EmptyNode(r, node, ctx, t);
    if empty {
      return null;
    }
    var left := r.LeftOf(node);
    if left != null {
      res := Rightmost(r, left, t.left, node);
      return;
    }
    res := ClimbLeft(r, node, ctx, t);
  }

  // ---------- children first ----------

  ghost function Postorder(t: Tree): seq<Node> {
    match t
    case Leaf => []
    case Tree(l, n, _, _, r) => Postorder(l) + Postorder(r) + [n]
  }

  ghost function PostBefore(ctx: Ctx): seq<Node> {
    match ctx
    case Top => []
    case In(dir, up, _, _, _, o) => if dir then PostBefore(up) else PostBefore(up) + Postorder(o)
  }

  ghost function PostAfter(ctx: Ctx): seq<Node> {
    match ctx
    case Top => []
    case In(dir, up, n, _, _, o) => (if dir then Postorder(o) + [n] else [n]) + PostAfter(up)
  }

  lemma {:induction false} PlugPostorder(ctx: Ctx, t: Tree)
    ensures Postorder(Plug(ctx, t)) == PostBefore(ctx) + Postorder(t) + PostAfter(ctx)
    decreases ctx
  {
    match ctx
    case Top =>
      assert [] + Postorder(t) + [] == Postorder(t);
    case In(dir, up, n, b, s, o) =>
      PlugPostorder(up, Mk(dir, t, n, b, s, o));
      PostZip(dir, PostBefore(up), Postorder(t), n, Postorder(o), PostAfter(up));
  }

  lemma PostZip(dir: bool, a: seq<Node>, x: seq<Node>, n: Node, y: seq<Node>, z: seq<Node>)
    ensures dir ==> a + (x + y + [n]) + z == a + x + ((y + [n]) + z)
    ensures !dir ==> a + (y + x + [n]) + z == (a + y) + x + ([n] + z)
  {}

  /** The same nodes, in another order. */
  lemma {:induction false} SameNodes(t: Tree)
    ensures multiset(Postorder(t)) == multiset(Inorder(t))
  {
    match t
    case Leaf =>
    case Tree(l, n, _, _, r) =>
      SameNodes(l);
      SameNodes(r);
  }

  /** A parent comes after everything below it. */
  lemma {:induction false} ChildrenFirst(ctx: Ctx, t: Tree)
    requires t.Tree?
    ensures var s := Postorder(Plug(ctx, t)); var k := |PostBefore(ctx)| + |Postorder(t)| - 1;
      0 <= k < |s| && s[k] == t.n && s[|PostBefore(ctx)|..k] == Postorder(t.left) + Postorder(t.right)
  {
    PlugPostorder(ctx, t);
    var kids := Postorder(t.left) + Postorder(t.right);
    assert Postorder(t) == kids + [t.n];
    hide *;
    assert (PostBefore(ctx) + (kids + [t.n]) + PostAfter(ctx))[|PostBefore(ctx)|..|PostBefore(ctx)| + |kids|] == kids;
  }

  lemma PostEnds(t: Tree)
    requires t.Tree?
    ensures Postorder(t) != []
    ensures FirstOf(Postorder(t)) == if t.left.Tree? then FirstOf(Postorder(t.left)) else if t.right.Tree? then FirstOf(Postorder(t.right)) else t.n
  {
  }

  /** `rb_left_deepest_node` */
  method LeftDeepest(r: RbRoot, top: Node, ghost t0: Tree, ghost p: Node?) returns (node: Node)
    requires r.Agrees() && Linked(r.mem, t0, p) && Root(t0) == top
    ensures node == FirstOf(Postorder(t0))
  {
    node := top;
    ghost var t, above := t0, p;
    hide RbRoot.Agrees, Postorder;
    while true
      invariant Linked(r.mem, t, above) && t.Tree? && t.n == node && FirstOf(Postorder(t)) == FirstOf(Postorder(t0))
      decreases t
    {
      PostEnds(t);
      var left := r.LeftOf(node);
      if left != null {
        t, above, node := t.left, node, left;
      } else {
        var right := r.RightOf(node);
        if right != null {
          t, above, node := t.right, node, right;
        } else {
          return;
        }
      }
    }
  }

  /** `rb_first_postorder` */
  method FirstPostorder(r: RbRoot) returns (n: Node?)
    requires r.Valid()
    ensures n == FirstOf(Postorder(r.tree))
  {
    n := r.root;
    if n == null {
      return null;
    }
    n := LeftDeepest(r, n, r.tree, null);
  }

  /** `rb_next_postorder` */
  method NextPostorder(r: RbRoot, node: Node?) returns (res: Node?)
    requires r.Valid() && (node != null ==> node in r.mem)
    ensures node == null ==> res == null
    ensures node != null ==> IsNext(Postorder(r.tree), node, res)
  {
    if node == null {
      return null;
    }
    ghost var ctx, t := Find(r.mem, r.root, r.tree, node);
    hide RbRoot.Agrees, Standing, IsNext, Sound, Postorder;
    StandingView(r.mem, r.root, ctx, t);
    PostNeighbour(r.mem, r.root, ctx, t);
    var parent := r.ParentOf(node);
    if parent == null {
      return null;
    }
    var left := r.LeftOf(parent);
    var right := r.RightOf(parent);
    if node == left && right != null {
      res := LeftDeepest(r, right, ctx.other, parent);
      return;
    }
    return parent;
  }

  /** With the subtree at the focus visited, its sibling is next, or its parent. */
  lemma PostNeighbour(m: Mem, root: Node?, ctx: Ctx, t: Tree)
    requires Standing(m, root, ctx, t)
    ensures IsNext(Postorder(Plug(ctx, t)), t.n,
              if ctx.Top? then null else if ctx.dir && ctx.other.Tree? then FirstOf(Postorder(ctx.other)) else ctx.n)
  {
    hide Inorder, Count, CtxCount, At, IsNext, IsPrevious, PostBefore, PostAfter, Plug;
    PlugPostorder(ctx, t);
    SameNodes(Plug(ctx, t));
    FocusOnce(m, root, ctx, t);
    PostHere(ctx);
    var a, kids, z := PostBefore(ctx), Postorder(t.left) + Postorder(t.right), PostAfter(ctx);
    assert Postorder(t) == kids + [t.n];
    PostShift(a, kids, t.n, z);
    OnlyAt(a + kids, t.n, z);
  }

  lemma PostShift(a: seq<Node>, kids: seq<Node>, x: Node, z: seq<Node>)
    ensures a + (kids + [x]) + z == (a + kids) + [x] + z
  {}

  lemma PostHere(ctx: Ctx)
    ensures FirstOf(PostAfter(ctx)) ==
      if ctx.Top? then null else if ctx.dir && ctx.other.Tree? then FirstOf(Postorder(ctx.other)) else ctx.n
  {
    if ctx.In? {
      var o, z := Postorder(ctx.other), PostAfter(ctx.up);
      if ctx.dir && o != [] {
        assert (o + [ctx.n] + z)[0] == o[0];
      } else if ctx.dir {
        assert ([] + [ctx.n] + z)[0] == ctx.n;
      }
    }
  }

  // ---------- the loops ----------

  lemma {:induction false} InMemory(m: Mem, t: Tree, p: Node?)
    requires Linked(m, t, p)
    ensures forall x :: x in Inorder(t) ==> x in m
  {
    if t.Tree? {
      InMemory(m, t.left, t.n);
      InMemory(m, t.right, t.n);
    }
  }

  lemma PostInMemory(m: Mem, t: Tree, p: Node?)
    requires Linked(m, t, p)
    ensures forall x :: x in Postorder(t) ==> x in m
  {
    InMemory(m, t, p);
    SameNodes(t);
    forall x | x in Postorder(t) ensures x in m { assert x in multiset(Postorder(t)); }
  }

  lemma NextAt(s: seq<Node>, k: nat, x: Node, y: Node?)
    requires IsNext(s, x, y) && k < |s| && s[k] == x
    ensures y == if k + 1 < |s| then s[k + 1] else null
  {}

  /** `for (n = rb_first(tree); n; n = rb_next(n))` */
  method InOrder(r: RbRoot) returns (s: seq<Node>)
    requires r.Valid()
    ensures s == r.Contents()
  {
    InMemory(r.mem, r.tree, null);
    hide Sound, RbRoot.Agrees, Inorder, IsNext;
    s := [];
    var node := First(r);
    while node != null
      invariant |s| <= |r.Contents()| && s == r.Contents()[..|s|]
      invariant node == if |s| < |r.Contents()| then r.Contents()[|s|] else null
      decreases |r.Contents()| - |s|
    {
      var next := Next(r, node);
      NextAt(r.Contents(), |s|, node, next);
      s, node := s + [node], next;
    }
  }

  /** `rbtree_postorder_for_each_entry_safe` */
  method ChildrenBeforeParents(r: RbRoot) returns (s: seq<Node>)
    requires r.Valid()
    ensures s == Postorder(r.tree) && multiset(s) == multiset(r.Contents())
  {
    PostInMemory(r.mem, r.tree, null);
    SameNodes(r.tree);
    hide Sound, RbRoot.Agrees, Inorder, Postorder, IsNext;
    ghost var all := Postorder(r.tree);
    s := [];
    var pos := FirstPostorder(r);
    while pos != null
      invariant |s| <= |all| && s == all[..|s|] && pos == if |s| < |all| then all[|s|] else null
      decreases |all| - |s|
    {
      var n := NextPostorder(r, pos);
      NextAt(all, |s|, pos, n);
      s, pos := s + [pos], n;
    }
  }
}
