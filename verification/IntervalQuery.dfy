/**
 Interval queries: the search for the leftmost interval that meets [start;last], pruned by
 the cached subtree maxima, and the climb along parent links to the next one.
 */
module IntervalQuery {
  import opened RbShape
  import opened RbLinks
  import opened RbSteps
  import opened RbSplice
  import opened RbTree
  import opened IntervalTree

  // ---------- queries ----------

  /** Cond1 and Cond2. */
  predicate Meets(n: Node, start: nat, last: nat) {
    n.start <= last && start <= n.last
  }

  /** All matches, in order. */
  ghost function Matches(s: seq<Node>, start: nat, last: nat): seq<Node> {
    if s == [] then [] else (if Meets(s[0], start, last) then [s[0]] else []) + Matches(s[1..], start, last)
  }

  /** The first match. */
  ghost function First(s: seq<Node>, start: nat, last: nat): Node? {
    if s == [] then null else if Meets(s[0], start, last) then s[0] else First(s[1..], start, last)
  }

  lemma {:induction false} FirstConcat(a: seq<Node>, b: seq<Node>, start: nat, last: nat)
    ensures First(a + b, start, last) == if First(a, start, last) != null then First(a, start, last) else First(b, start, last)
  {
    if a == [] {
      assert a + b == b;
    } else {
      assert (a + b)[1..] == a[1..] + b;
      FirstConcat(a[1..], b, start, last);
    }
  }

  lemma {:induction false} NoneEndsEarly(a: seq<Node>, start: nat, last: nat)
    requires forall i :: 0 <= i < |a| ==> a[i].last < start
    ensures First(a, start, last) == null
  {
    if a != [] { NoneEndsEarly(a[1..], start, last); }
  }

  lemma {:induction false} NoneStartsLate(a: seq<Node>, start: nat, last: nat)
    requires forall i :: 0 <= i < |a| ==> last < a[i].start
    ensures First(a, start, last) == null
  {
    if a != [] { NoneStartsLate(a[1..], start, last); }
  }

  lemma {:induction false} FirstIsMatch(a: seq<Node>, start: nat, last: nat) returns (i: nat)
    requires First(a, start, last) != null
    ensures i < |a| && a[i] == First(a, start, last) && Meets(a[i], start, last) && First(a[..i], start, last) == null
    ensures Matches(a, start, last) == [a[i]] + Matches(a[i + 1..], start, last)
  {
    if Meets(a[0], start, last) {
      i := 0;
    } else {
      i := FirstIsMatch(a[1..], start, last);
      assert a[..i + 1][1..] == a[1..][..i];
      assert a[1..][i + 1..] == a[i + 2..];
      i := i + 1;
    }
  }

  lemma {:induction false} NoFirst(a: seq<Node>, start: nat, last: nat)
    requires First(a, start, last) == null
    ensures Matches(a, start, last) == []
  {
    if a != [] { NoFirst(a[1..], start, last); }
  }

  /** Some node of the subtree ends late enough; if it starts too late, so does everything
      after it, and nothing after the subtree matches either. */
  lemma PrunedRest(t: Tree, rest: seq<Node>, start: nat, last: nat)
    requires Exact(t) && t.Tree? && start <= t.sub && Sorted(Inorder(t) + rest)
    requires First(Inorder(t), start, last) == null
    ensures First(rest, start, last) == null
  {
    ExactIsMaximum(t);
    var s := Inorder(t);
    var x :| x in s && x.last == t.sub;
    var k :| 0 <= k < |s| && s[k] == x;
    NotFirst(s, k, start, last);
    forall i | 0 <= i < |rest| ensures last < rest[i].start {
      assert (s + rest)[k] == x && (s + rest)[|s| + i] == rest[i];
    }
    NoneStartsLate(rest, start, last);
  }

  lemma {:induction false} NotFirst(a: seq<Node>, k: nat, start: nat, last: nat)
    requires k < |a| && First(a, start, last) == null
    ensures !Meets(a[k], start, last)
  {
    if k > 0 { NotFirst(a[1..], k - 1, start, last); }
  }

  /** The search may go left when the left subtree's maximum allows it. */
  lemma GoLeft(t: Tree, start: nat, last: nat)
    requires t.Tree? && t.left.Tree? && Exact(t) && Sorted(Inorder(t)) && start <= t.left.sub
    ensures First(Inorder(t), start, last) == First(Inorder(t.left), start, last)
  {
    var l, rest := Inorder(t.left), [t.n] + Inorder(t.right);
    assert Inorder(t) == l + rest;
    FirstConcat(l, rest, start, last);
    if First(l, start, last) == null {
      PrunedRest(t.left, rest, start, last);
    }
  }

  /** Otherwise no match is in the left subtree. */
  lemma SkipLeft(t: Tree, start: nat, last: nat)
    requires t.Tree? && Exact(t) && Sorted(Inorder(t)) && (t.left.Tree? ==> t.left.sub < start)
    ensures First(Inorder(t), start, last) ==
      if last < t.n.start then null
      else if start <= t.n.last then t.n
      else First(Inorder(t.right), start, last)
  {
    var l, r := Inorder(t.left), Inorder(t.right);
    ExactIsMaximum(t.left);
    NoneEndsEarly(l, start, last);
    assert Inorder(t) == l + ([t.n] + r);
    FirstConcat(l, [t.n] + r, start, last);
    assert ([t.n] + r)[1..] == r;
    if last < t.n.start {
      forall i | 0 <= i < |r| ensures last < r[i].start {
        assert Inorder(t)[|l|] == t.n && Inorder(t)[|l| + 1 + i] == r[i];
      }
      NoneStartsLate(r, start, last);
    }
  }

  lemma SkipAll(t: Tree, start: nat, last: nat)
    requires Exact(t) && (t.Tree? ==> t.sub < start)
    ensures First(Inorder(t), start, last) == null
  {
    ExactIsMaximum(t);
    NoneEndsEarly(Inorder(t), start, last);
  }

  lemma SortedParts(a: seq<Node>, b: seq<Node>)
    requires Sorted(a + b)
    ensures Sorted(a) && Sorted(b)
  {
    forall i, j | 0 <= i < j < |a| ensures a[i].start <= a[j].start {
      assert (a + b)[i] == a[i] && (a + b)[j] == a[j];
    }
    forall i, j | 0 <= i < j < |b| ensures b[i].start <= b[j].start {
      assert (a + b)[|a| + i] == b[i] && (a + b)[|a| + j] == b[j];
    }
  }

  lemma SortedChildren(t: Tree)
    requires Sorted(Inorder(t))
    ensures t.Tree? ==> Sorted(Inorder(t.left)) && Sorted(Inorder(t.right))
  {
    if t.Tree? {
      SortedParts(Inorder(t.left) + [t.n], Inorder(t.right));
      SortedParts(Inorder(t.left), [t.n]);
    }
  }

  // ---------- the pointer code ----------

  /** `_subtree_search` */
  method SubtreeSearch(r: RbRoot, top: Node, start: nat, last: nat, ghost t0: Tree, ghost p: Node?) returns (res: Node?)
    requires r.Agrees() && Linked(r.mem, t0, p) && Root(t0) == top
    requires Exact(t0) && Sorted(Inorder(t0)) && start <= Sub(t0)
    ensures res == First(Inorder(t0), start, last)
  {
    var node: Node := top;
    ghost var t, above := t0, p;
    hide RbRoot.Agrees, Inorder, Sorted, First;
    while true
      invariant Linked(r.mem, t, above) && Root(t) == node && Exact(t) && Sorted(Inorder(t)) && start <= Sub(t)
      invariant First(Inorder(t), start, last) == First(Inorder(t0), start, last)
      decreases t
    {
      SortedChildren(t);
      var left := r.LeftOf(node);
      if left != null {
        var sub := r.SubtreeLast(left);
        if start <= sub {
          GoLeft(t, start, last);
          node, above, t := left, node, t.left;
          continue;
        }
      }
      SkipLeft(t, start, last);
      if node.start <= last {
        if start <= node.last {
          return node;
        }
        var right := r.RightOf(node);
        if right != null {
          above, node, t := node, right, t.right;
          var sub := r.SubtreeLast(node);
          if start <= sub {
            continue;
          }
        } else {
          t := Leaf;
        }
        SkipAll(t, start, last);
      }
      return null;
    }
  }

  /** `_iter_first` */
  method IterFirst(r: RbRoot, start: nat, last: nat) returns (res: Node?)
    requires r.Valid() && Sorted(r.Contents())
    ensures res == First(r.Contents(), start, last)
  {
    var node := r.root;
    if node == null {
      return null;
    }
    var sub := r.SubtreeLast(node);
    if sub < start {
      SkipAll(r.tree, start, last);
      return null;
    }
    res := SubtreeSearch(r, node, start, last, r.tree, null);
  }

  /** What follows `x`. */
  ghost function Rest(s: seq<Node>, x: Node): seq<Node> {
    if s == [] then [] else if s[0] == x then s[1..] else Rest(s[1..], x)
  }

  lemma {:induction false} RestBetween(a: seq<Node>, x: Node, b: seq<Node>)
    requires x !in a
    ensures Rest(a + [x] + b, x) == b
  {
    if a == [] {
      assert (a + [x] + b)[1..] == b;
    } else {
      RestBetween(a[1..], x, b);
      assert (a + [x] + b)[1..] == a[1..] + [x] + b;
    }
  }

  /** The focus of the climb. */
  ghost predicate Visiting(m: Mem, root: Node?, ctx: Ctx, t: Tree, order: seq<Node>) {
    At(m, root, ctx, t) && t.Tree? && Exact(t) && CtxExact(ctx, Sub(t)) && Order(ctx, t) == order
  }

  /** What is still ahead of the node at the focus. */
  ghost function Ahead(ctx: Ctx, t: Tree): seq<Node>
    requires t.Tree?
  {
    Inorder(t.right) + After(ctx)
  }

  lemma StartVisit(m: Mem, root: Node?, tree: Tree, node: Node) returns (ctx: Ctx, t: Tree)
    requires Sound(m, root, tree) && node in m
    ensures Visiting(m, root, ctx, t, Inorder(tree)) && t.n == node && Ahead(ctx, t) == Rest(Inorder(tree), node)
  {
    var h0 := PlacedAtTop(m, root, tree);
    assert Count(tree, node) > 0;
    InorderCount(tree, node);
    var h;
    ctx, t, h := PathTo(m, root, Top, tree, h0, Inorder(tree), node);
    RestHere(m, root, ctx, t, Inorder(tree));
  }

  lemma RestHere(m: Mem, root: Node?, ctx: Ctx, t: Tree, order: seq<Node>)
    requires Visiting(m, root, ctx, t, order)
    ensures Ahead(ctx, t) == Rest(order, t.n)
  {
    var a, l, r, z := Before(ctx), Inorder(t.left), Inorder(t.right), After(ctx);
    OrderCount(ctx, t, t.n);
    assert Inorder(t) == l + [t.n] + r;
    hide *;
    Regroup(a, l, t.n, r, z);
    OnceBefore(a + l, r + z, t.n);
    RestBetween(a + l, t.n, r + z);
  }

  lemma VisitView(m: Mem, root: Node?, ctx: Ctx, t: Tree, order: seq<Node>)
    requires Visiting(m, root, ctx, t, order)
    ensures t.n in m && m[t.n].parent == Above(ctx) && m[t.n].right == Root(t.right)
    ensures Linked(m, t.right, t.n) && Exact(t.right)
  {}

  /** One step up: coming from the right child means more climbing, coming from the left
      child means that the parent is next. */
  lemma ClimbStep(m: Mem, root: Node?, ctx: Ctx, t: Tree, order: seq<Node>) returns (t': Tree)
    requires Visiting(m, root, ctx, t, order) && ctx.In?
    ensures Visiting(m, root, ctx.up, t', order) && t'.n == ctx.n
    ensures ctx.n in m && (m[ctx.n].right == t.n <==> !ctx.dir)
    ensures After(ctx) == if ctx.dir then [ctx.n] + Ahead(ctx.up, t') else After(ctx.up)
  {
    t' := Mk(ctx.dir, t, ctx.n, ctx.black, ctx.sub, ctx.other);
    Up(m, root, ctx.dir, ctx.up, ctx.n, ctx.black, ctx.sub, ctx.other, t);
    ZipOrder(ctx.dir, ctx.up, t, ctx.n, ctx.black, ctx.sub, ctx.other);
    ExactMk(ctx.dir, t, ctx.n, ctx.black, ctx.sub, ctx.other);
    Occurs(ctx.other);
    Occurs(t);
    assert Count(t, t.n) + CtxCount(ctx, t.n) == 1;
    if ctx.dir {
      assert [ctx.n] + Inorder(ctx.other) + After(ctx.up) == [ctx.n] + (Inorder(ctx.other) + After(ctx.up));
    }
  }

  /** Move up until the step comes from a left child; `node` becomes that child's parent,
      or there is none and nothing is ahead. */
  method ClimbFromRight(r: RbRoot, from: Node, ghost ctx0: Ctx, ghost t0: Tree, ghost order: seq<Node>)
    returns (node: Node?, rb: Node?, ghost ctx: Ctx, ghost t: Tree)
    requires r.Agrees() && Visiting(r.mem, r.root, ctx0, t0, order) && t0.n == from
    ensures node == null ==> After(ctx0) == []
    ensures node != null ==> Visiting(r.mem, r.root, ctx, t, order) && t.n == node && rb == Root(t.right)
    ensures node != null ==> After(ctx0) == [node] + Ahead(ctx, t) && ctx < ctx0
  {
    var cur := from;
    ctx, t := ctx0, t0;
    hide RbRoot.Agrees, Ahead;
    while true
      invariant Visiting(r.mem, r.root, ctx, t, order) && t.n == cur
      invariant After(ctx) == After(ctx0) && (ctx == ctx0 || ctx < ctx0)
      decreases ctx
    {
      VisitView(r.mem, r.root, ctx, t, order);
      var above := r.ParentOf(cur);
      if above == null {
        return null, null, ctx, t;
      }
      ghost var t' := ClimbStep(r.mem, r.root, ctx, t, order);
      var prev := cur;
      cur := above;
      ctx, t := ctx.up, t';
      rb := r.RightOf(cur);
      if prev != rb {
        VisitView(r.mem, r.root, ctx, t, order);
        return cur, rb, ctx, t;
      }
    }
  }

  /** What the right subtree's maximum decides: either the next match is in it if anywhere,
      or nothing in it matches. */
  lemma RightDecides(m: Mem, root: Node?, ctx: Ctx, t: Tree, order: seq<Node>, start: nat, last: nat)
    requires Visiting(m, root, ctx, t, order) && Sorted(order)
    ensures Sorted(Inorder(t.right))
    ensures t.right.Tree? && start <= t.right.sub ==> First(Ahead(ctx, t), start, last) == First(Inorder(t.right), start, last)
    ensures !(t.right.Tree? && start <= t.right.sub) ==> First(Ahead(ctx, t), start, last) == First(After(ctx), start, last)
  {
    var a := Before(ctx) + (Inorder(t.left) + [t.n]);
    assert order == a + Ahead(ctx, t);
    SortedParts(a, Ahead(ctx, t));
    SortedParts(Inorder(t.right), After(ctx));
    FirstConcat(Inorder(t.right), After(ctx), start, last);
    if t.right.Tree? && start <= t.right.sub {
      if First(Inorder(t.right), start, last) == null { PrunedRest(t.right, After(ctx), start, last); }
    } else {
      SkipAll(t.right, start, last);
    }
  }

  lemma NextDecides(m: Mem, root: Node?, ctx: Ctx, t: Tree, order: seq<Node>, start: nat, last: nat)
    requires Visiting(m, root, ctx, t, order) && Sorted(order)
    ensures First([t.n] + Ahead(ctx, t), start, last) ==
      if last < t.n.start then null else if start <= t.n.last then t.n else First(Ahead(ctx, t), start, last)
  {
    var a, z := Before(ctx) + Inorder(t.left), Ahead(ctx, t);
    assert order == a + ([t.n] + z);
    SortedParts(a, [t.n] + z);
    assert ([t.n] + z)[0] == t.n && ([t.n] + z)[1..] == z;
    hide Visiting, Inorder, Before, Ahead;
    if last < t.n.start {
      forall i | 0 <= i < |z| ensures last < z[i].start { assert ([t.n] + z)[i + 1] == z[i]; }
      NoneStartsLate(z, start, last);
    }
  }

  /** `_iter_next` */
  method IterNext(r: RbRoot, from: Node, start: nat, last: nat) returns (res: Node?)
    requires r.Valid() && Sorted(r.Contents()) && from in r.mem
    ensures res == First(Rest(r.Contents(), from), start, last)
  {
    ghost var order := r.Contents();
    ghost var ctx, t := StartVisit(r.mem, r.root, r.tree, from);
    VisitView(r.mem, r.root, ctx, t, order);
    var node, rb := from, from.right;
    hide RbRoot.Agrees, Visiting, Sorted, First, Ahead, After, Rest;
    while true
      invariant Visiting(r.mem, r.root, ctx, t, order) && t.n == node && rb == Root(t.right)
      invariant First(Ahead(ctx, t), start, last) == First(Rest(order, from), start, last)
      decreases ctx
    {
      RightDecides(r.mem, r.root, ctx, t, order, start, last);
      VisitView(r.mem, r.root, ctx, t, order);
      if rb != null {
        var sub := r.SubtreeLast(rb);
        if start <= sub {
          res := SubtreeSearch(r, rb, start, last, t.right, node);
          return;
        }
      }
      var up, right;
      ghost var ctx', t';
      up, right, ctx', t' := ClimbFromRight(r, node, ctx, t, order);
      if up == null {
        return null;
      }
      ctx, t, node, rb := ctx', t', up, right;
      NextDecides(r.mem, r.root, ctx, t, order, start, last);
      if last < node.start {
        return null;
      } else if start <= node.last {
        return node;
      }
    }
  }

  // ---------- iterating ----------

  /** Each match is among the matches as often as it is in the sequence, and nothing else is. */
  lemma {:induction false} MatchCount(s: seq<Node>, start: nat, last: nat, x: Node)
    ensures multiset(Matches(s, start, last))[x] == if Meets(x, start, last) then multiset(s)[x] else 0
  {
    if s != [] {
      assert s == [s[0]] + s[1..];
      MatchCount(s[1..], start, last, x);
    }
  }

  lemma {:induction false} MatchesSorted(s: seq<Node>, start: nat, last: nat)
    requires Sorted(s)
    ensures Sorted(Matches(s, start, last))
  {
    if s != [] {
      SortedTail(s);
      MatchesSorted(s[1..], start, last);
      var rest := Matches(s[1..], start, last);
      forall y | y in rest ensures s[0].start <= y.start {
        MatchCount(s[1..], start, last, y);
        assert y in multiset(rest) && y in multiset(s[1..]);
      }
      hide Sorted;
      SortedCons(s[0], rest);
      assert [] + rest == rest;
    }
  }

  /** What the matches are: each match as often as it is in the sequence, nothing else, in order. */
  lemma MatchesExact(s: seq<Node>, start: nat, last: nat, x: Node)
    ensures multiset(Matches(s, start, last))[x] == if Meets(x, start, last) then multiset(s)[x] else 0
    ensures Sorted(s) ==> Sorted(Matches(s, start, last))
  {
    MatchCount(s, start, last, x);
    if Sorted(s) { MatchesSorted(s, start, last); }
  }

  /** The nodes of a sound tree are those of its memory, each once. */
  lemma ContentsOnce(m: Mem, root: Node?, tree: Tree, x: Node)
    requires Sound(m, root, tree)
    ensures multiset(Inorder(tree))[x] == if x in m then 1 else 0
  {
    InorderCount(tree, x);
    if x !in m && Count(tree, x) > 0 { TreeMembers(m, tree, null, x); }
  }

  /** No node twice, and each of them in memory. */
  ghost predicate Distinct(s: seq<Node>, m: Mem) {
    forall x :: x in s ==> x in m && multiset(s)[x] == 1
  }

  lemma AllOnce(m: Mem, root: Node?, tree: Tree)
    requires Sound(m, root, tree)
    ensures Distinct(Inorder(tree), m)
  {
    forall x | x in Inorder(tree) ensures x in m && multiset(Inorder(tree))[x] == 1 { ContentsOnce(m, root, tree, x); }
  }

  /** Having found the first match of what was ahead, the matches ahead of it remain. */
  lemma CollectStep(m: Mem, order: seq<Node>, done: seq<Node>, todo: seq<Node>, found: seq<Node>, start: nat, last: nat)
    returns (done': seq<Node>)
    requires order == done + todo && First(todo, start, last) != null && Distinct(order, m)
    ensures var x := First(todo, start, last); var rest := Rest(order, x);
      && x in m && order == done' + rest && |rest| < |todo|
      && found + Matches(todo, start, last) == found + [x] + Matches(rest, start, last)
  {
    hide First, Matches, Rest;
    var i := FirstIsMatch(todo, start, last);
    var x, z := todo[i], todo[i + 1..];
    var y := done + todo[..i];
    done' := y + [x];
    assert todo == todo[..i] + [x] + z && order == y + [x] + z;
    assert order[|y|] == x;
    OnceBefore(y, z, x);
    RestBetween(y, x, z);
    assert found + ([x] + Matches(z, start, last)) == found + [x] + Matches(z, start, last);
  }

  /** The iteration that the interface is made for. */
  method Collect(r: RbRoot, start: nat, last: nat) returns (found: seq<Node>)
    requires r.Valid() && Sorted(r.Contents())
    ensures found == Matches(r.Contents(), start, last)
  {
    ghost var order, done, todo := r.Contents(), [], r.Contents();
    AllOnce(r.mem, r.root, r.tree);
    hide *;
    found := [];
    var node := IterFirst(r, start, last);
    while node != null
      invariant node == First(todo, start, last) && order == done + todo
      invariant found + Matches(todo, start, last) == Matches(r.Contents(), start, last)
      decreases |todo|
    {
      done := CollectStep(r.mem, order, done, todo, found, start, last);
      todo, found := Rest(order, node), found + [node];
      node := IterNext(r, node, start, last);
    }
    NoFirst(todo, start, last);
    assert found + [] == found;
  }
}
