/**
 The abstract side of the augmented red-black tree: nodes, the functional tree a
 linked structure stands for, and the zipper that the fix-up loops climb.

 Every definition that distinguishes left from right takes a direction: `true` means
 the left child.  One lemma then serves a case of the fix-up code and its mirror image.
 */
module RbShape {
  import opened Powers

  /** `struct interval_tree_node` with its embedded `struct rb_node`.  The packed
      parent/colour word is two fields; the interval endpoints never change here. */
  class Node {
    const start: nat
    const last: nat
    var left: Node?
    var right: Node?
    var parent: Node?
    var black: bool
    var sub: nat  // __subtree_last

    constructor (start: nat, last: nat)
      ensures this.start == start && this.last == last
    {
      this.start, this.last := start, last;
      left, right, parent, black, sub := null, null, null, false, last;
    }
  }

  /** A colour and a cached subtree maximum decorate every node of the tree. */
  datatype Tree = Leaf | Tree(left: Tree, n: Node, black: bool, sub: nat, right: Tree)

  /** A path to a hole: `dir` says on which side of `n` the hole is, `other` hangs on
      the opposite side. */
  datatype Ctx = Top | In(dir: bool, up: Ctx, n: Node, black: bool, sub: nat, other: Tree)

  ghost function Mk(dir: bool, near: Tree, n: Node, black: bool, sub: nat, far: Tree): Tree {
    if dir then Tree(near, n, black, sub, far) else Tree(far, n, black, sub, near)
  }

  ghost function Root(t: Tree): Node? {
    if t.Leaf? then null else t.n
  }

  ghost function Above(ctx: Ctx): Node? {
    if ctx.Top? then null else ctx.n
  }

  /** Fill the hole. */
  ghost function Plug(ctx: Ctx, t: Tree): Tree
    decreases ctx
  {
    match ctx
    case Top => t
    case In(dir, up, n, b, s, o) => Plug(up, Mk(dir, t, n, b, s, o))
  }

  // ---------- the in-order sequence ----------

  ghost function Inorder(t: Tree): seq<Node> {
    match t
    case Leaf => []
    case Tree(l, n, _, _, r) => Inorder(l) + [n] + Inorder(r)
  }

  ghost function Before(ctx: Ctx): seq<Node> {
    match ctx
    case Top => []
    case In(dir, up, n, _, _, o) => if dir then Before(up) else Before(up) + (Inorder(o) + [n])
  }

  ghost function After(ctx: Ctx): seq<Node> {
    match ctx
    case Top => []
    case In(dir, up, n, _, _, o) => if dir then ([n] + Inorder(o)) + After(up) else After(up)
  }

  ghost function Order(ctx: Ctx, t: Tree): seq<Node> {
    Before(ctx) + Inorder(t) + After(ctx)
  }

  lemma {:induction false} PlugOrder(ctx: Ctx, t: Tree)
    ensures Inorder(Plug(ctx, t)) == Order(ctx, t)
    decreases ctx
  {
    match ctx
    case Top =>
      assert Order(ctx, t) == Inorder(t);
    case In(dir, up, n, b, s, o) =>
      PlugOrder(up, Mk(dir, t, n, b, s, o));
      ZipOrder(dir, up, t, n, b, s, o);
  }

  /** Moving the focus between a node and its child leaves the order alone. */
  lemma ZipOrder(dir: bool, up: Ctx, t: Tree, n: Node, b: bool, s: nat, o: Tree)
    ensures Order(In(dir, up, n, b, s, o), t) == Order(up, Mk(dir, t, n, b, s, o))
  {
    var x, y, z, w := Before(up), Inorder(t), Inorder(o), After(up);
    if dir {
      assert x + y + ([n] + z + w) == x + (y + [n] + z) + w;
      assert [n] + z + w == ([n] + z) + w;
    } else {
      assert x + (z + [n]) + y + w == x + (z + [n] + y) + w;
    }
  }

  lemma InorderMk(dir: bool, near: Tree, n: Node, b: bool, s: nat, far: Tree)
    ensures Inorder(Mk(dir, near, n, b, s, far)) ==
      if dir then Inorder(near) + [n] + Inorder(far) else Inorder(far) + [n] + Inorder(near)
  {}

  /** Rotations keep the in-order sequence, whatever happens to colours and cached values. */
  lemma RotateOrder(dir: bool, a: Tree, p: Node, pb: bool, ps: nat, c: Tree, g: Node, gb: bool, gs: nat, u: Tree,
                    pb': bool, ps': nat, gb': bool, gs': nat)
    ensures Inorder(Mk(dir, a, p, pb', ps', Mk(dir, c, g, gb', gs', u))) ==
            Inorder(Mk(dir, Mk(dir, a, p, pb, ps, c), g, gb, gs, u))
  {
    hide Mk, Inorder;
    InorderMk(dir, c, g, gb', gs', u);
    InorderMk(dir, a, p, pb, ps, c);
    InorderMk(dir, a, p, pb', ps', Mk(dir, c, g, gb', gs', u));
    InorderMk(dir, Mk(dir, a, p, pb, ps, c), g, gb, gs, u);
    var x, y, z := Inorder(a), Inorder(c), Inorder(u);
    if dir {
      assert x + [p] + (y + [g] + z) == (x + [p] + y) + [g] + z;
    } else {
      assert (z + [g] + y) + [p] + x == z + [g] + (y + [p] + x);
    }
  }

  lemma Regroup(a: seq<Node>, l: seq<Node>, x: Node, r: seq<Node>, z: seq<Node>)
    ensures a + (l + [x] + r) + z == (a + l) + [x] + (r + z)
  {}

  lemma SameOrder(ctx: Ctx, t: Tree, t': Tree)
    requires Inorder(t) == Inorder(t')
    ensures Order(ctx, t) == Order(ctx, t')
  {}

  // ---------- the nodes ----------

  /** How often a node occurs. */
  ghost function Count(t: Tree, x: Node): nat {
    match t
    case Leaf => 0
    case Tree(l, n, _, _, r) => Count(l, x) + (if x == n then 1 else 0) + Count(r, x)
  }

  ghost function CtxCount(ctx: Ctx, x: Node): nat {
    match ctx
    case Top => 0
    case In(_, up, n, _, _, o) => Count(o, x) + (if x == n then 1 else 0) + CtxCount(up, x)
  }

  lemma {:induction false} InorderCount(t: Tree, x: Node)
    ensures multiset(Inorder(t))[x] == Count(t, x)
  {
    match t
    case Leaf =>
    case Tree(l, n, _, _, r) =>
      InorderCount(l, x);
      InorderCount(r, x);
  }

  lemma {:induction false} OrderCount(ctx: Ctx, t: Tree, x: Node)
    ensures multiset(Order(ctx, t))[x] == Count(t, x) + CtxCount(ctx, x)
    decreases ctx
  {
    match ctx
    case Top =>
      InorderCount(t, x);
    case In(dir, up, n, b, s, o) =>
      OrderCount(up, Mk(dir, t, n, b, s, o), x);
      assert Count(Mk(dir, t, n, b, s, o), x) + CtxCount(up, x) == Count(t, x) + CtxCount(ctx, x);
      hide *;
      ZipOrder(dir, up, t, n, b, s, o);
  }

  // ---------- red-black rules ----------

  ghost predicate BlackRoot(t: Tree) {
    t.Tree? ==> t.black
  }

  ghost function Weight(black: bool): nat {
    if black then 1 else 0
  }

  /** Rules 4 and 5: no red node has a red child, and every path down holds `h`
      black nodes. */
  ghost predicate Rb(t: Tree, h: nat) {
    match t
    case Leaf => h == 0
    case Tree(l, _, b, _, r) =>
      && Weight(b) <= h
      && Rb(l, h - Weight(b)) && Rb(r, h - Weight(b))
      && (!b ==> BlackRoot(l) && BlackRoot(r))
  }

  /** The context obeys the rules provided its hole gets a subtree of black height `h`
      (and, where the node above the hole is red, a black one). */
  ghost predicate CtxRb(ctx: Ctx, h: nat) {
    match ctx
    case Top => true
    case In(_, up, _, b, _, o) =>
      Rb(o, h) && (!b ==> BlackRoot(o) && up.In? && up.black) && CtxRb(up, h + Weight(b))
  }

  /** Rules 2, 4 and 5 together. */
  ghost predicate RedBlack(t: Tree) {
    BlackRoot(t) && exists h: nat :: Rb(t, h)
  }

  lemma {:induction false} PlugRb(ctx: Ctx, t: Tree, h: nat)
    requires Rb(t, h) && CtxRb(ctx, h)
    requires BlackRoot(t) || (ctx.In? && ctx.black)
    ensures RedBlack(Plug(ctx, t))
    decreases ctx
  {
    match ctx
    case Top =>
    case In(dir, up, n, b, s, o) =>
      PlugRb(up, Mk(dir, t, n, b, s, o), h + Weight(b));
  }

  ghost function Paint(t: Tree, black: bool): Tree {
    if t.Leaf? then Leaf else t.(black := black)
  }

  /** The comment's claim about height: a tree of black height h is at most twice as
      deep, and it holds at least 2^h - 1 nodes. */
  ghost function Height(t: Tree): nat {
    match t
    case Leaf => 0
    case Tree(l, _, _, _, r) => 1 + if Height(l) < Height(r) then Height(r) else Height(l)
  }

  lemma {:induction false} HeightBound(t: Tree, h: nat)
    requires Rb(t, h)
    ensures Height(t) <= 2 * h + (if BlackRoot(t) then 0 else 1)
    ensures |Inorder(t)| + 1 >= Pow2(h)
  {
    match t
    case Leaf =>
    case Tree(l, _, b, _, r) =>
      HeightBound(l, h - Weight(b));
      HeightBound(r, h - Weight(b));
  }

  // ---------- the augmentation ----------

  ghost function Sub(t: Tree): nat {
    if t.Leaf? then 0 else t.sub
  }

  function Max(a: nat, b: nat): nat {
    if a < b then b else a
  }

  ghost function Best(n: Node, a: nat, b: nat): nat {
    Max(Max(n.last, a), b)
  }

  /** Every cached value is the maximum of the node's own endpoint and its children's
      cached values. */
  ghost predicate Exact(t: Tree) {
    match t
    case Leaf => true
    case Tree(l, n, _, s, r) => s == Best(n, Sub(l), Sub(r)) && Exact(l) && Exact(r)
  }

  ghost predicate CtxExact(ctx: Ctx, s: nat) {
    match ctx
    case Top => true
    case In(_, up, n, _, sub, o) => sub == Best(n, s, Sub(o)) && Exact(o) && CtxExact(up, sub)
  }

  /** What exactness means: the cached value is attained in the subtree and bounds it. */
  lemma {:induction false} ExactIsMaximum(t: Tree)
    requires Exact(t)
    ensures forall x :: x in Inorder(t) ==> x.last <= Sub(t)
    ensures t.Tree? ==> exists x :: x in Inorder(t) && x.last == t.sub
  {
    match t
    case Leaf =>
    case Tree(l, n, _, s, r) =>
      ExactIsMaximum(l);
      ExactIsMaximum(r);
      assert n in Inorder(t);
  }

  lemma {:induction false} PlugExact(ctx: Ctx, t: Tree)
    requires Exact(t) && CtxExact(ctx, Sub(t))
    ensures Exact(Plug(ctx, t))
    decreases ctx
  {
    match ctx
    case Top =>
    case In(dir, up, n, b, s, o) =>
      PlugExact(up, Mk(dir, t, n, b, s, o));
  }

  /** The rotate callback hands the old subtree's value to the node that moves up. */
  lemma RotateBest(g: Node, p: Node, a: nat, c: nat, u: nat)
    ensures Best(g, Best(p, a, c), u) == Best(p, a, Best(g, c, u))
  {}

  lemma BestSwap(n: Node, a: nat, b: nat)
    ensures Best(n, a, b) == Best(n, b, a)
  {}

  lemma ExactMk(dir: bool, near: Tree, n: Node, b: bool, s: nat, far: Tree)
    ensures Exact(Mk(dir, near, n, b, s, far)) <==> s == Best(n, Sub(near), Sub(far)) && Exact(near) && Exact(far)
    ensures Sub(Mk(dir, near, n, b, s, far)) == s
  {}
}
