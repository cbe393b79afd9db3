/**
 Interval trees: red-black trees ordered by interval start, whose cached subtree maxima
 prune the search for the intervals that meet a query [S;L].
 */
module IntervalTree {
  import opened RbShape
  import opened RbLinks
  import opened RbSteps
  import opened RbSplice
  import opened RbTree

  // ---------- the sequence a tree stands for ----------

  ghost predicate Sorted(s: seq<Node>) {
    forall i, j :: 0 <= i < j < |s| ==> s[i].start <= s[j].start
  }

  /** Insertion after every node that does not start later. */
  ghost function InsertSorted(s: seq<Node>, x: Node): seq<Node> {
    if s == [] || x.start < s[0].start then [x] + s else [s[0]] + InsertSorted(s[1..], x)
  }

  lemma {:induction false} InsertBetween(a: seq<Node>, b: seq<Node>, x: Node)
    requires forall i :: 0 <= i < |a| ==> a[i].start <= x.start
    requires forall i :: 0 <= i < |b| ==> x.start < b[i].start
    ensures InsertSorted(a + b, x) == a + [x] + b
  {
    if a == [] {
      assert a + b == b;
      assert a + [x] + b == [x] + b;
    } else {
      InsertBetween(a[1..], b, x);
      assert (a + b)[1..] == a[1..] + b;
      assert [a[0]] + (a[1..] + [x] + b) == a + [x] + b;
    }
  }

  lemma SortedCons(x: Node, s: seq<Node>)
    requires Sorted(s) && (forall y :: y in s ==> x.start <= y.start)
    ensures Sorted([x] + s)
  {}

  lemma SortedTail(s: seq<Node>)
    requires Sorted(s) && s != []
    ensures Sorted(s[1..]) && (forall y :: y in s[1..] ==> s[0].start <= y.start)
    ensures multiset(s) == multiset{s[0]} + multiset(s[1..])
  {
    assert s == [s[0]] + s[1..];
  }

  lemma {:induction false} InsertSortedKeeps(s: seq<Node>, x: Node)
    requires Sorted(s)
    ensures Sorted(InsertSorted(s, x)) && multiset(InsertSorted(s, x)) == multiset(s) + multiset{x}
  {
    if s == [] || x.start < s[0].start {
      SortedCons(x, s);
    } else {
      SortedTail(s);
      InsertSortedKeeps(s[1..], x);
      var r := InsertSorted(s[1..], x);
      forall y | y in r ensures s[0].start <= y.start {
        assert y in multiset(r);
        assert y in multiset(s[1..]) || y == x;
      }
      hide Sorted, InsertSorted;
      SortedCons(s[0], r);
    }
  }

  /** A sequence without its only occurrence of `x`. */
  ghost function Drop(s: seq<Node>, x: Node): seq<Node> {
    if s == [] then [] else if s[0] == x then s[1..] else [s[0]] + Drop(s[1..], x)
  }

  lemma {:induction false} DropBetween(a: seq<Node>, b: seq<Node>, x: Node)
    requires x !in a
    ensures Drop(a + [x] + b, x) == a + b
  {
    if a == [] {
      assert (a + [x] + b)[1..] == b;
      assert a + b == b;
    } else {
      DropBetween(a[1..], b, x);
      assert (a + [x] + b)[1..] == a[1..] + [x] + b;
      assert [a[0]] + (a[1..] + b) == a + b;
    }
  }

  lemma {:induction false} DropKeeps(s: seq<Node>, x: Node)
    requires Sorted(s) && x in s
    ensures Sorted(Drop(s, x)) && multiset(Drop(s, x)) + multiset{x} == multiset(s)
    ensures forall y :: y in Drop(s, x) ==> y in s
  {
    SortedTail(s);
    if s[0] != x {
      DropKeeps(s[1..], x);
      var r := Drop(s[1..], x);
      forall y | y in r ensures s[0].start <= y.start { assert y in s[1..]; }
      hide Sorted, Drop;
      SortedCons(s[0], r);
    }
  }

  // ---------- insertion ----------

  /** On the way down, the path already counts the new node in. */
  ghost predicate Descending(m: Mem, root: Node?, ctx: Ctx, t: Tree, h: nat, start: nat, last: nat, order: seq<Node>) {
    && At(m, root, ctx, t) && Rb(t, h) && CtxRb(ctx, h) && (BlackRoot(t) || (ctx.In? && ctx.black))
    && Exact(t) && CtxExact(ctx, Max(Sub(t), last)) && Order(ctx, t) == order
    && (forall i :: 0 <= i < |Before(ctx)| ==> Before(ctx)[i].start <= start)
    && (forall i :: 0 <= i < |After(ctx)| ==> start < After(ctx)[i].start)
  }

  lemma DescendStart(m: Mem, root: Node?, t: Tree, start: nat, last: nat) returns (h: nat)
    requires Sound(m, root, t)
    ensures Descending(m, root, Top, t, h, start, last, Inorder(t))
  {
    h := PlacedAtTop(m, root, t);
  }

  ghost function Descended(ctx: Ctx, t: Tree, dir: bool, last: nat): Ctx
    requires t.Tree?
  {
    In(dir, ctx, t.n, t.black, Max(t.sub, last), Child(t, !dir))
  }

  lemma DescendStep(m: Mem, m': Mem, root: Node?, ctx: Ctx, t: Tree, h: nat, start: nat, last: nat, order: seq<Node>)
    requires Descending(m, root, ctx, t, h, start, last, order) && t.Tree? && Sorted(order)
    requires t.n in m
    requires if t.sub < last then m' == m[t.n := m[t.n].(sub := last)] else m' == m
    ensures var dir := start < t.n.start;
      Weight(t.black) <= h && Descending(m', root, Descended(ctx, t, dir, last), Child(t, dir), h - Weight(t.black), start, last, order)
  {
    hide At, Order, Before, After, Sorted, Exact, CtxExact, Rb, CtxRb, Descended;
    var dir := start < t.n.start;
    DescendLinks(m, m', root, ctx, t, dir, last);
    DescendOrder(ctx, t, dir, start, last, order);
    DescendExact(ctx, t, dir, last);
    DescendRb(ctx, t, h, dir, last);
  }

  lemma DescendRb(ctx: Ctx, t: Tree, h: nat, dir: bool, last: nat)
    requires t.Tree? && Rb(t, h) && CtxRb(ctx, h) && (BlackRoot(t) || (ctx.In? && ctx.black))
    ensures var ctx', t' := Descended(ctx, t, dir, last), Child(t, dir);
      && Weight(t.black) <= h && Rb(t', h - Weight(t.black)) && CtxRb(ctx', h - Weight(t.black))
      && (BlackRoot(t') || (ctx'.In? && ctx'.black))
  {}

  lemma DescendExact(ctx: Ctx, t: Tree, dir: bool, last: nat)
    requires t.Tree? && Exact(t) && CtxExact(ctx, Max(Sub(t), last))
    ensures Exact(Child(t, dir)) && CtxExact(Descended(ctx, t, dir, last), Max(Sub(Child(t, dir)), last))
  {}

  lemma DescendLinks(m: Mem, m': Mem, root: Node?, ctx: Ctx, t: Tree, dir: bool, last: nat)
    requires At(m, root, ctx, t) && t.Tree? && t.n in m
    requires if t.sub < last then m' == m[t.n := m[t.n].(sub := last)] else m' == m
    ensures At(m', root, Descended(ctx, t, dir, last), Child(t, dir))
  {
    var near, far := Child(t, dir), Child(t, !dir);
    TreeMk(dir, t);
    TreeCell(m, root, ctx, t);
    hide At, Mk;
    if t.sub < last {
      assert m' == m[t.n := m[t.n].(black := t.black, sub := last)];
      RetouchedMk(m, m', root, ctx, dir, near, t.n, t.black, t.sub, far, t.black, last);
    }
    Up(m', root, dir, ctx, t.n, t.black, Max(t.sub, last), far, near);
  }

  lemma DescendOrder(ctx: Ctx, t: Tree, dir: bool, start: nat, last: nat, order: seq<Node>)
    requires t.Tree? && dir == (start < t.n.start) && Sorted(order) && Order(ctx, t) == order
    requires forall i :: 0 <= i < |Before(ctx)| ==> Before(ctx)[i].start <= start
    requires forall i :: 0 <= i < |After(ctx)| ==> start < After(ctx)[i].start
    ensures var ctx' := Descended(ctx, t, dir, last);
      && Order(ctx', Child(t, dir)) == order
      && (forall i :: 0 <= i < |Before(ctx')| ==> Before(ctx')[i].start <= start)
      && (forall i :: 0 <= i < |After(ctx')| ==> start < After(ctx')[i].start)
  {
    var ctx' := Descended(ctx, t, dir, last);
    TreeMk(dir, t);
    ZipOrder(dir, ctx, Child(t, dir), t.n, t.black, Max(t.sub, last), Child(t, !dir));
    InorderMk(dir, Child(t, dir), t.n, t.black, Max(t.sub, last), Child(t, !dir));
    InorderMk(dir, Child(t, dir), t.n, t.black, t.sub, Child(t, !dir));
    var a, l, r, z := Before(ctx), Inorder(t.left), Inorder(t.right), After(ctx);
    assert order == a + (l + [t.n] + r) + z;
    assert dir ==> After(ctx') == ([t.n] + r) + z && Before(ctx') == a;
    assert !dir ==> Before(ctx') == a + (l + [t.n]) && After(ctx') == z;
    hide *;
    SidesOrder(order, a, l, t.n, r, z, start);
  }

  lemma SidesOrder(order: seq<Node>, a: seq<Node>, l: seq<Node>, n: Node, r: seq<Node>, z: seq<Node>, start: nat)
    requires Sorted(order) && order == a + (l + [n] + r) + z
    requires (forall i :: 0 <= i < |a| ==> a[i].start <= start) && (forall i :: 0 <= i < |z| ==> start < z[i].start)
    ensures start < n.start ==> forall i :: 0 <= i < |([n] + r) + z| ==> start < (([n] + r) + z)[i].start
    ensures n.start <= start ==> forall i :: 0 <= i < |a + (l + [n])| ==> (a + (l + [n]))[i].start <= start
  {
    var k := |a| + |l|;
    assert order[k] == n;
    forall i | 0 <= i < |r| ensures n.start <= r[i].start { assert order[k + 1 + i] == r[i]; }
    forall i | 0 <= i < |l| ensures l[i].start <= n.start { assert order[|a| + i] == l[i]; }
  }

  /** At the empty place, the new leaf completes the picture. */
  lemma DescendEnd(m0: Mem, root0: Node?, m: Mem, root: Node?, ctx: Ctx, node: Node, h: nat, order: seq<Node>)
    requires Descending(m0, root0, ctx, Leaf, h, node.start, node.last, order)
    requires At(m, root, ctx, Tree(Leaf, node, false, node.last, Leaf))
    ensures var leaf := Tree(Leaf, node, false, node.last, Leaf);
      Fixing(m, root, ctx, leaf, h, Order(ctx, leaf)) && Order(ctx, leaf) == InsertSorted(order, node)
  {
    var leaf := Tree(Leaf, node, false, node.last, Leaf);
    assert Inorder(leaf) == [node];
    assert order == Before(ctx) + After(ctx);
    InsertBetween(Before(ctx), After(ctx), node);
  }

  lemma DescendView(m: Mem, root: Node?, ctx: Ctx, t: Tree, h: nat, start: nat, last: nat, order: seq<Node>)
    requires Descending(m, root, ctx, t, h, start, last, order)
    ensures At(m, root, ctx, t)
    ensures t.Tree? ==> t.n in m && m[t.n].sub == t.sub && m[t.n].left == Root(t.left) && m[t.n].right == Root(t.right)
  {}

  /** One node of the descent: count the new interval in, and choose a side. */
  method Pass(r: RbRoot, node: Node, start: nat, last: nat, ghost ctx: Ctx, ghost t: Tree, ghost h: nat,
              ghost order: seq<Node>)
    returns (left: bool, link: Node?, ghost ctx': Ctx, ghost t': Tree, ghost h': nat)
    requires r.Agrees() && Sorted(order) && Descending(r.mem, r.root, ctx, t, h, start, last, order) && Root(t) == node
    modifies r`mem, node
    ensures r.Agrees() && r.mem.Keys == old(r.mem.Keys)
    ensures Descending(r.mem, r.root, ctx', t', h', start, last, order) && t' < t
    ensures link == Root(t') && node == Above(ctx') && ctx'.In? && left == ctx'.dir
  {
    hide RbRoot.Agrees, Sorted, Descending;
    DescendView(r.mem, r.root, ctx, t, h, start, last, order);
    ghost var m0 := r.mem;
    var sub := r.SubtreeLast(node);
    if sub < last {
      r.SetSub(node, last);
    }
    DescendStep(m0, r.mem, r.root, ctx, t, h, start, last, order);
    left := start < node.start;
    ctx', t', h' := Descended(ctx, t, left, last), Child(t, left), h - Weight(t.black);
    DescendView(r.mem, r.root, ctx', t', h', start, last, order);
    if left {
      link := r.LeftOf(node);
    } else {
      link := r.RightOf(node);
    }
  }

  /** The descent of `_insert`: finds the empty place and counts the new interval in on the way. */
  method Descend(r: RbRoot, start: nat, last: nat, ghost order: seq<Node>, ghost h0: nat)
    returns (parent: Node?, left: bool, ghost ctx: Ctx, ghost h: nat)
    requires r.Agrees() && Sorted(order) && Descending(r.mem, r.root, Top, r.tree, h0, start, last, order)
    modifies r`mem, r.mem.Keys
    ensures r.Agrees() && r.mem.Keys == old(r.mem.Keys)
    ensures Descending(r.mem, r.root, ctx, Leaf, h, start, last, order)
    ensures parent == Above(ctx) && (ctx.In? ==> left == ctx.dir)
  {
    ghost var t := r.tree;
    ctx, h := Top, h0;
    DescendView(r.mem, r.root, ctx, t, h, start, last, order);
    var link := r.root;
    assert link == Root(t);
    parent, left := null, true;
    hide *;
    while link != null
      invariant r.Agrees() && r.mem.Keys == old(r.mem.Keys)
      invariant Descending(r.mem, r.root, ctx, t, h, start, last, order)
      invariant link == Root(t) && parent == Above(ctx) && (ctx.In? ==> left == ctx.dir)
      decreases t
    {
      parent := link;
      DescendView(r.mem, r.root, ctx, t, h, start, last, order);
      left, link, ctx, t, h := Pass(r, link, start, last, ctx, t, h, order);
    }
  }

  /** `_insert` */
  method Insert(r: RbRoot, node: Node)
    requires r.Valid() && Sorted(r.Contents()) && node !in r.mem
    modifies r, r.mem.Keys, node
    ensures r.Valid() && r.mem.Keys == old(r.mem.Keys) + {node}
    ensures r.Contents() == InsertSorted(old(r.Contents()), node) && Sorted(r.Contents())
  {
    hide Sorted, InsertSorted, Descending, Fixing, Sound, At, Order, Inorder;
    ghost var order := r.Contents();
    ghost var h0: nat := DescendStart(r.mem, r.root, r.tree, node.start, node.last);
    var parent, left;
    ghost var ctx, h;
    parent, left, ctx, h := Descend(r, node.start, node.last, order, h0);
    DescendView(r.mem, r.root, ctx, Leaf, h, node.start, node.last, order);
    ghost var m1, root1 := r.mem, r.root;
    r.LinkNode(node, parent, left, node.last, ctx);
    DescendEnd(m1, root1, r.mem, r.root, ctx, node, h, order);
    r.tree := r.InsertColor(node, ctx, Tree(Leaf, node, false, node.last, Leaf), h);
    InsertSortedKeeps(order, node);
  }

  // ---------- removal ----------

  lemma OnceBefore(a: seq<Node>, b: seq<Node>, x: Node)
    requires multiset(a + [x] + b)[x] == 1
    ensures x !in a
  {
    assert multiset(a + [x] + b) == multiset(a) + multiset{x} + multiset(b);
    assert x !in multiset(a);
  }

  lemma WithoutIsDrop(m: Mem, root: Node?, tree: Tree, ctx: Ctx, t: Tree, x: Node)
    requires At(m, root, Top, tree) && At(m, root, ctx, t) && t.Tree? && t.n == x && Order(ctx, t) == Inorder(tree)
    ensures Without(ctx, t) == Drop(Inorder(tree), x)
  {
    var a, l, r, z := Before(ctx), Inorder(t.left), Inorder(t.right), After(ctx);
    assert Inorder(t) == l + [x] + r;
    assert x in m;
    InorderCount(tree, x);
    assert multiset(Inorder(tree))[x] == 1;
    hide Inorder, Before, After, Drop;
    Regroup(a, l, x, r, z);
    OnceBefore(a + l, r + z, x);
    DropBetween(a + l, r + z, x);
  }

  /** The node's place in the tree, and what the sequence is without it. */
  lemma FindForRemoval(m: Mem, root: Node?, tree: Tree, node: Node) returns (ctx: Ctx, t: Tree, h: nat)
    requires Sound(m, root, tree) && Sorted(Inorder(tree)) && node in m
    ensures Placed(m, root, ctx, t, h, Inorder(tree)) && t.Tree? && t.n == node
    ensures Without(ctx, t) == Drop(Inorder(tree), node) && Sorted(Drop(Inorder(tree), node))
  {
    var h0 := PlacedAtTop(m, root, tree);
    assert Count(tree, node) > 0;
    InorderCount(tree, node);
    assert node in Inorder(tree) by { assert multiset(Inorder(tree))[node] > 0; }
    DropKeeps(Inorder(tree), node);
    hide Sorted, Drop, Inorder, Rb, CtxRb, Exact, CtxExact, Count, CtxCount, Linked, CtxLinked;
    ctx, t, h := PathTo(m, root, Top, tree, h0, Inorder(tree), node);
    WithoutIsDrop(m, root, tree, ctx, t, node);
  }

  /** `_remove` */
  method Remove(r: RbRoot, node: Node)
    requires r.Valid() && Sorted(r.Contents()) && node in r.mem
    modifies r, r.mem.Keys
    ensures r.Valid() && r.mem.Keys == old(r.mem.Keys) - {node}
    ensures r.Contents() == Drop(old(r.Contents()), node) && Sorted(r.Contents())
  {
    ghost var order := r.Contents();
    ghost var ctx, t, h := FindForRemoval(r.mem, r.root, r.tree, node);
    hide RbRoot.Agrees, At, Sorted, Placed, Without, Drop, Inorder, Sound;
    r.tree := r.Erase(node, ctx, t, h, order);
  }
}
