/**
 The pointer code over interval summaries: insertion in place, and the intersection of two
 trees with explicit stacks.
 */
module StridedTree {
  import opened Strided
  import opened Coverage

  // ---------- how a memory of nodes represents a tree ----------

  datatype Rec = Rec(address: nat, count: nat, diff: nat, max: nat, left: Interval?, right: Interval?)

  type Mem = map<Interval, Rec>

  ghost function RecOf(p: Progression, max: nat, left: Interval?, right: Interval?): Rec {
    Rec(p.address, p.count, p.diff, max, left, right)
  }

  /** A path to a subtree; `dir` is true when it lies to the left of `n`.  `was` is the
      maximum before the insertion under way. */
  datatype Ctx = Top | In(dir: bool, up: Ctx, n: Interval, p: Progression, was: nat, max: nat, other: Tree)

  ghost function Mk(dir: bool, near: Tree, n: Interval, p: Progression, max: nat, far: Tree): Tree {
    if dir then Tree(near, n, p, max, far) else Tree(far, n, p, max, near)
  }

  ghost function Plug(ctx: Ctx, t: Tree): Tree
    decreases ctx
  {
    if ctx.Top? then t else Plug(ctx.up, Mk(ctx.dir, t, ctx.n, ctx.p, ctx.max, ctx.other))
  }

  ghost predicate Linked(m: Mem, t: Tree) {
    t.Tree? ==> t.n in m && m[t.n] == RecOf(t.p, t.max, Root(t.left), Root(t.right)) && Linked(m, t.left) && Linked(m, t.right)
  }

  ghost predicate CtxLinked(m: Mem, ctx: Ctx, child: Interval?, root: Interval?) {
    match ctx
    case Top => root == child
    case In(dir, up, n, p, _, max, o) =>
      && n in m && m[n] == (if dir then RecOf(p, max, child, Root(o)) else RecOf(p, max, Root(o), child))
      && Linked(m, o) && CtxLinked(m, up, n, root)
  }

  ghost function Times(t: Tree, x: Interval): nat {
    if t.Leaf? then 0 else Times(t.left, x) + (if x == t.n then 1 else 0) + Times(t.right, x)
  }

  ghost function CtxTimes(ctx: Ctx, x: Interval): nat {
    if ctx.Top? then 0 else Times(ctx.other, x) + (if x == ctx.n then 1 else 0) + CtxTimes(ctx.up, x)
  }

  /** The whole memory is `t` plugged into `ctx`, every node once. */
  ghost predicate At(m: Mem, root: Interval?, ctx: Ctx, t: Tree) {
    Linked(m, t) && CtxLinked(m, ctx, Root(t), root) && forall x :: x in m ==> Times(t, x) + CtxTimes(ctx, x) == 1
  }

  lemma {:induction false} Frame(m: Mem, m': Mem, t: Tree, x: Interval)
    requires Linked(m, t) && Times(t, x) == 0 && (forall y :: y in m && y != x ==> y in m' && m'[y] == m[y])
    ensures Linked(m', t)
  {
    if t.Tree? {
      Frame(m, m', t.left, x);
      Frame(m, m', t.right, x);
    }
  }

  lemma {:induction false} CtxFrame(m: Mem, m': Mem, ctx: Ctx, child: Interval?, root: Interval?, x: Interval)
    requires CtxLinked(m, ctx, child, root) && CtxTimes(ctx, x) == 0
    requires forall y :: y in m && y != x ==> y in m' && m'[y] == m[y]
    ensures CtxLinked(m', ctx, child, root)
    decreases ctx
  {
    if ctx.In? {
      Frame(m, m', ctx.other, x);
      CtxFrame(m, m', ctx.up, ctx.n, root, x);
    }
  }

  lemma {:induction false} Absent(m: Mem, t: Tree, x: Interval)
    requires Linked(m, t) && x !in m
    ensures Times(t, x) == 0
  {
    if t.Tree? {
      Absent(m, t.left, x);
      Absent(m, t.right, x);
    }
  }

  lemma {:induction false} CtxAbsent(m: Mem, ctx: Ctx, child: Interval?, root: Interval?, x: Interval)
    requires CtxLinked(m, ctx, child, root) && x !in m
    ensures CtxTimes(ctx, x) == 0
    decreases ctx
  {
    if ctx.In? {
      Absent(m, ctx.other, x);
      CtxAbsent(m, ctx.up, ctx.n, root, x);
    }
  }

  /** Writing the data of the node at the focus. */
  lemma Rewrite(m: Mem, m': Mem, root: Interval?, ctx: Ctx, t: Tree, p: Progression, max: nat)
    requires At(m, root, ctx, t) && t.Tree? && m' == m[t.n := RecOf(p, max, Root(t.left), Root(t.right))]
    ensures At(m', root, ctx, t.(p := p, max := max))
  {
    assert Times(t, t.n) + CtxTimes(ctx, t.n) == 1;
    Frame(m, m', t.left, t.n);
    Frame(m, m', t.right, t.n);
    CtxFrame(m, m', ctx, t.n, root, t.n);
    forall x | x in m' ensures Times(t.(p := p, max := max), x) + CtxTimes(ctx, x) == 1 {}
  }

  ghost function Child(t: Tree, dir: bool): Tree
    requires t.Tree?
  {
    if dir then t.left else t.right
  }

  ghost function Below(ctx: Ctx, t: Tree, dir: bool, was: nat): Ctx
    requires t.Tree?
  {
    In(dir, ctx, t.n, t.p, was, t.max, Child(t, !dir))
  }

  lemma StepDown(m: Mem, root: Interval?, ctx: Ctx, t: Tree, dir: bool, was: nat)
    requires At(m, root, ctx, t) && t.Tree?
    ensures At(m, root, Below(ctx, t, dir, was), Child(t, dir))
  {
    var c := Below(ctx, t, dir, was);
    forall x | x in m ensures Times(Child(t, dir), x) + CtxTimes(c, x) == 1 {
      assert Times(t, x) + CtxTimes(ctx, x) == 1;
    }
  }

  lemma {:induction false} StepUp(m: Mem, root: Interval?, ctx: Ctx, t: Tree)
    requires At(m, root, ctx, t)
    ensures At(m, root, Top, Plug(ctx, t))
    decreases ctx
  {
    if ctx.In? {
      var t' := Mk(ctx.dir, t, ctx.n, ctx.p, ctx.max, ctx.other);
      forall x | x in m ensures Times(t', x) + CtxTimes(ctx.up, x) == 1 {
        assert Times(t, x) + CtxTimes(ctx, x) == 1;
      }
      StepUp(m, root, ctx.up, t');
    }
  }

  /** Hanging a new node into an empty place below the node above. */
  lemma Attach(m: Mem, m': Mem, root: Interval?, ctx: Ctx, x: Interval, p: Progression, max: nat)
    requires At(m, root, ctx, Leaf) && ctx.In? && x !in m && ctx.n in m
    requires m' == m[x := RecOf(p, max, null, null)][ctx.n := if ctx.dir then m[ctx.n].(left := x) else m[ctx.n].(right := x)]
    ensures At(m', root, ctx, Tree(Leaf, x, p, max, Leaf))
  {
    var t := Tree(Leaf, x, p, max, Leaf);
    var m1: Mem := m[x := RecOf(p, max, null, null)];
    assert Times(Leaf, ctx.n) + CtxTimes(ctx, ctx.n) == 1;
    CtxAbsent(m, ctx, null, root, x);
    Frame(m, m', ctx.other, ctx.n);
    CtxFrame(m, m', ctx.up, ctx.n, root, ctx.n);
    forall y | y in m' ensures Times(t, y) + CtxTimes(ctx, y) == 1 {
      if y != x { assert Times(Leaf, y) + CtxTimes(ctx, y) == 1; }
    }
  }

  // ---------- the way down ----------

  /** The access is neither folded into the node nor dropped there. */
  ghost predicate PassesOn(n: Interval, p: Progression, item: Access) {
    SameKey(n, item) ==> Fold(p, item.address).Elsewhere?
  }

  /** The path is the one that insertion takes from `tree`, with the maxima raised. */
  ghost predicate Routed(ctx: Ctx, t: Tree, tree: Tree, item: Access)
    decreases ctx
  {
    match ctx
    case Top => t == tree
    case In(dir, up, n, p, was, max, o) =>
      && max == Max(was, item.address) && PassesOn(n, p, item) && dir == !(p.address < item.address)
      && Routed(up, Mk(dir, t, n, p, was, o), tree, item)
  }

  /** Inserting at the end of the path is inserting into the whole tree. */
  lemma {:induction false} Replay(ctx: Ctx, t: Tree, tree: Tree, item: Access, leaf: Interval)
    requires Routed(ctx, t, tree, item)
    ensures Plug(ctx, Insert(t, item, leaf)) == Insert(tree, item, leaf)
    decreases ctx
  {
    if ctx.In? {
      var t' := Mk(ctx.dir, t, ctx.n, ctx.p, ctx.was, ctx.other);
      Replay(ctx.up, t', tree, item, leaf);
      assert Insert(t', item, leaf) == Mk(ctx.dir, Insert(t, item, leaf), ctx.n, ctx.p, ctx.max, ctx.other);
    }
  }

  class IntervalTree {
    var root: Interval?
    ghost var mem: Mem
    ghost var tree: Tree
    /** The accesses inserted so far. */
    ghost var made: set<Access>

    ghost predicate Agrees()
      reads this, mem.Keys
    {
      forall n :: n in mem ==> Rec(n.address, n.count, n.diff, n.max, n.left, n.right) == mem[n]
    }

    ghost predicate Valid()
      reads this, mem.Keys
    {
      Agrees() && At(mem, root, Top, tree) && Bounded(tree) && AllGenuine(tree, made)
    }

    constructor ()
      ensures Valid() && tree == Leaf && mem.Keys == {} && made == {}
    {
      root, mem, tree, made := null, map[], Leaf, {};
    }

    method SetMax(n: Interval, max: nat)
      requires Agrees() && n in mem
      modifies this`mem, n`max
      ensures Agrees() && mem == old(mem)[n := old(mem)[n].(max := max)]
    {
      n.max := max;
      mem := mem[n := mem[n].(max := max)];
    }

    method SetProgression(n: Interval, address: nat, count: nat, diff: nat, max: nat)
      requires Agrees() && n in mem
      modifies this`mem, n
      ensures Agrees() && mem == old(mem)[n := old(mem)[n].(address := address, count := count, diff := diff, max := max)]
    {
      n.address, n.count, n.diff, n.max := address, count, diff, max;
      mem := mem[n := mem[n].(address := address, count := count, diff := diff, max := max)];
    }

    method SetChild(n: Interval, left: bool, x: Interval)
      requires Agrees() && n in mem
      modifies this`mem, n
      ensures Agrees() && mem == old(mem)[n := if left then old(mem)[n].(left := x) else old(mem)[n].(right := x)]
    {
      if left {
        n.left := x;
        mem := mem[n := mem[n].(left := x)];
      } else {
        n.right := x;
        mem := mem[n := mem[n].(right := x)];
      }
    }

    method NewNode(item: Access) returns (x: Interval)
      requires Agrees()
      modifies this`mem
      ensures fresh(x) && x !in old(mem) && SameKey(x, item)
      ensures Agrees() && mem == old(mem)[x := RecOf(Progression(item.address, 1, 0), item.address, null, null)]
    {
      x := new Interval(item);
      mem := mem[x := RecOf(Progression(item.address, 1, 0), item.address, null, null)];
    }
  
    /** Whether the access is folded into the node or dropped there. */
    method TryFold(n: Interval, item: Access, ghost p: Progression, ghost max: nat) returns (done: bool)
      requires Agrees() && n in mem && mem[n].(left := null, right := null) == RecOf(p, max, null, null)
      modifies this`mem, n
      ensures Agrees() && done == !PassesOn(n, p, item)
      ensures var f := Fold(p, item.address); var was := old(mem)[n];
        if done && f.Extended? then mem == old(mem)[n := RecOf(f.p, Max(max, f.p.End()), was.left, was.right)] else mem == old(mem)
    {
      if !(item.sizeType == n.sizeType && item.pc == n.pc && item.locks == n.locks) {
        return false;
      }
      var end: int := n.address + n.diff * (n.count - 1);  // GET_END
      if n.diff != 0 {
        if item.address == end + n.diff {
          SetProgression(n, n.address, n.count + 1, n.diff, Max(n.max, n.address + n.diff * n.count));
          return true;
        }
        if n.address <= item.address <= end {
          return true;
        }
        if item.address == n.address - n.diff {
          SetProgression(n, item.address, n.count + 1, n.diff, Max(n.max, item.address + n.diff * n.count));
          return true;
        }
        return false;
      }
      var diff := item.address - n.address;
      if 0 < diff < 64 {  // a negative difference wraps to a huge one
        SetProgression(n, n.address, n.count + 1, diff, Max(n.max, n.address + diff * n.count));
      }
      return true;
    }

    /** One node on the way: raise its maximum, and fold the access into it if it fits. */
    method Visit(n: Interval, item: Access, ghost ctx: Ctx, ghost t: Tree) returns (done: bool)
      requires Agrees() && At(mem, root, ctx, t) && Root(t) == n && n in mem
      modifies this`mem, n
      ensures Agrees() && mem.Keys == old(mem.Keys)
      ensures done ==> At(mem, root, ctx, Insert(t, item, n)) && SameKey(n, item) && !PassesOn(n, t.p, item)
      ensures !done ==> At(mem, root, ctx, t.(max := Max(t.max, item.address))) && PassesOn(n, t.p, item)
    {
      ghost var m0, max := mem, Max(t.max, item.address);
      if item.address > n.max {
        SetMax(n, item.address);
      }
      ghost var m1 := mem;
      Rewrite(m0, m1, root, ctx, t, t.p, max);
      done := TryFold(n, item, t.p, max);
      ghost var f := Fold(t.p, item.address);
      if done && f.Extended? {
        Rewrite(m1, mem, root, ctx, t.(max := max), f.p, Max(max, f.p.End()));
      }
    }

    lemma HeadOf(ctx: Ctx, t: Tree)
      requires Agrees() && At(mem, root, ctx, t)
      ensures t.Tree? ==> t.n in mem && t.n.left == Root(t.left) && t.n.right == Root(t.right) && t.n.address == t.p.address
      ensures ctx.In? ==> ctx.n in mem
      ensures ctx.Top? ==> root == Root(t)
    {}

    /** `insertNode` */
    method InsertNode(item: Access) returns (ghost leaf: Interval)
      requires Valid()
      modifies this, mem.Keys
      ensures Valid() && SameKey(leaf, item) && tree == Insert(old(tree), item, leaf) && made == old(made) + {item}
      ensures fresh(mem.Keys - old(mem.Keys))
    {
      hide At, Insert, AllGenuine, Bounded, SameKey, Routed, Plug;
      if root == null {
        leaf := PlantRoot(item);
      } else {
        ghost var ctx, t;
        leaf, ctx, t := Descend(item);
        StepUp(mem, root, ctx, Insert(t, item, leaf));
        Replay(ctx, t, tree, item, leaf);
      }
      InsertKeeps(tree, item, leaf, made);
      tree, made := Insert(tree, item, leaf), made + {item};
    }

    /** The first node of a tree. */
    method PlantRoot(item: Access) returns (ghost leaf: Interval)
      requires Agrees() && root == null && At(mem, root, Top, tree)
      modifies this`root, this`mem
      ensures Agrees() && At(mem, root, Top, Insert(tree, item, leaf)) && SameKey(leaf, item)
      ensures fresh(mem.Keys - old(mem.Keys))
    {
      root := NewNode(item);
      leaf := root;
    }

    method Descend(item: Access) returns (ghost leaf: Interval, ghost ctx: Ctx, ghost t: Tree)
      requires Valid() && root != null
      modifies this`mem, mem.Keys
      ensures Agrees() && At(mem, root, ctx, Insert(t, item, leaf)) && Routed(ctx, t, tree, item) && SameKey(leaf, item)
      ensures fresh(mem.Keys - old(mem.Keys))
    {
      hide At, Routed, AllGenuine, Bounded, SameKey, PassesOn, Agrees, Insert;
      var ptr: Interval := root;
      ctx, t := Top, tree;
      RouteStart(tree, item);
      HeadOf(Top, tree);
      while true
        invariant Agrees() && At(mem, root, ctx, t) && Root(t) == ptr && Routed(ctx, t, tree, item)
        invariant mem.Keys == old(mem.Keys)
        decreases t
      {
        HeadOf(ctx, t);
        var done := Visit(ptr, item, ctx, t);
        if done {
          leaf := ptr;
          return;
        }
        ghost var t1 := t.(max := Max(t.max, item.address));
        HeadOf(ctx, t1);
        var right := ptr.address < item.address;
        StepDown(mem, root, ctx, t1, !right, t.max);
        RouteDown(ctx, t, tree, item);
        ctx, t := Below(ctx, t1, !right, t.max), Child(t, !right);
        var child := if right then ptr.right else ptr.left;
        if child == null {
          HeadOf(ctx, t);
          ghost var m0 := mem;
          var x := NewNode(item);
          leaf := x;
          SetChild(ptr, !right, x);
          Attach(m0, mem, root, ctx, x, Progression(item.address, 1, 0), item.address);
          InsertLeaf(item, x);
          return;
        }
        ptr := child;
      }
    }
  }

  lemma InsertLeaf(item: Access, x: Interval)
    ensures Insert(Leaf, item, x) == Tree(Leaf, x, Progression(item.address, 1, 0), item.address, Leaf)
  {}

  lemma RouteStart(tree: Tree, item: Access)
    ensures Routed(Top, tree, tree, item)
  {}

  lemma RouteDown(ctx: Ctx, t: Tree, tree: Tree, item: Access)
    requires Routed(ctx, t, tree, item) && t.Tree? && PassesOn(t.n, t.p, item)
    ensures var t1 := t.(max := Max(t.max, item.address)); var left := !(t.p.address < item.address);
      Routed(Below(ctx, t1, left, t.max), Child(t, left), tree, item)
  {}

  lemma NoInserts(items: seq<Access>)
    ensures SameKeys(items[..0], []) && Inserts(items[..0], []) == Leaf
  {}

  lemma InsertsMore(items: seq<Access>, i: nat, leaves: seq<Interval>, leaf: Interval)
    requires i < |items| && SameKeys(items[..i], leaves) && SameKey(leaf, items[i])
    ensures SameKeys(items[..i + 1], leaves + [leaf])
    ensures Inserts(items[..i + 1], leaves + [leaf]) == Insert(Inserts(items[..i], leaves), items[i], leaf)
  {
    hide Insert, SameKey;
    assert items[..i + 1][..i] == items[..i] && (leaves + [leaf])[..i] == leaves;
  }

  /** After any sequence of insertions, nothing in the tree is invented, and its maxima hold. */
  method Build(items: seq<Access>) returns (r: IntervalTree, ghost leaves: seq<Interval>)
    ensures fresh(r) && r.Valid() && r.made == set x | x in items
    ensures SameKeys(items, leaves) && r.tree == Inserts(items, leaves)
    ensures forall y :: Covered(r.tree, y) <==> exists i :: 0 <= i < |items| && KeptAt(items, leaves, i, y)
    ensures forall d: nat :: items != [] && Steps(items, d) && 0 < d < 64 ==>
      Single(r.tree, Progression(items[0].address, |items|, if |items| == 1 then 0 else d))
  {
    hide Insert, Inserts, SameKey, IntervalTree.Agrees;
    NoInserts(items);
    r := new IntervalTree();
    leaves := [];
    var i := 0;
    while i < |items|
      invariant i <= |items| && fresh(r) && r.Valid() && fresh(r.mem.Keys) && r.made == set x | x in items[..i]
      invariant SameKeys(items[..i], leaves) && r.tree == Inserts(items[..i], leaves)
    {
      ghost var leaf := r.InsertNode(items[i]);
      InsertsMore(items, i, leaves, leaf);
      leaves, i := leaves + [leaf], i + 1;
    }
    assert items[..i] == items;
    hide Steps, Covered, KeptAt, Single;
    forall y ensures Covered(r.tree, y) <==> exists i :: 0 <= i < |items| && KeptAt(items, leaves, i, y) {
      InsertsCover(items, leaves, y);
    }
    forall d: nat | items != [] && Steps(items, d) && 0 < d < 64
      ensures Single(r.tree, Progression(items[0].address, |items|, if |items| == 1 then 0 else d))
    {
      StepsFold(items, leaves, d);
    }
  }

  // ---------- intersection ----------

  ghost function HitsOfAll(ts: seq<Tree>, u: Summary): Pairs {
    if ts == [] then multiset{} else HitsOfAll(ts[..|ts| - 1], u) + HitsOf(ts[|ts| - 1], u)
  }

  ghost function AllHitsOfAll(t: Tree, us: seq<Tree>): Pairs {
    if us == [] then multiset{} else AllHitsOfAll(t, us[..|us| - 1]) + AllHits(t, us[|us| - 1])
  }

  ghost function Size(t: Tree): nat {
    if t.Leaf? then 0 else 1 + Size(t.left) + Size(t.right)
  }

  ghost function Sizes(ts: seq<Tree>): nat {
    if ts == [] then 0 else Sizes(ts[..|ts| - 1]) + Size(ts[|ts| - 1])
  }

  /** The nodes on a stack are the roots of subtrees still to be visited. */
  ghost predicate Stacked(m: Mem, stack: seq<Interval>, ts: seq<Tree>) {
    |stack| == |ts| && forall i :: 0 <= i < |ts| ==> ts[i].Tree? && ts[i].n == stack[i] && Linked(m, ts[i]) && Bounded(ts[i])
  }

  ghost function Push(ts: seq<Tree>, t: Tree): seq<Tree> {
    if t.Leaf? then ts else ts + [t]
  }

  lemma PushSums(ts: seq<Tree>, t: Tree, u: Summary, v: Tree)
    ensures HitsOfAll(Push(ts, t), u) == HitsOfAll(ts, u) + HitsOf(t, u)
    ensures AllHitsOfAll(v, Push(ts, t)) == AllHitsOfAll(v, ts) + AllHits(v, t)
    ensures Sizes(Push(ts, t)) == Sizes(ts) + Size(t)
  {
    if t.Tree? { assert (ts + [t])[..|ts|] == ts; }
  }

  lemma PushStacked(m: Mem, stack: seq<Interval>, ts: seq<Tree>, t: Tree)
    requires Stacked(m, stack, ts) && Linked(m, t) && Bounded(t)
    ensures Stacked(m, PushNode(stack, Root(t)), Push(ts, t))
  {}

  function PushNode(stack: seq<Interval>, n: Interval?): seq<Interval> {
    if n == null then stack else stack + [n]
  }

  lemma PopStacked(m: Mem, stack: seq<Interval>, ts: seq<Tree>)
    requires Stacked(m, stack, ts) && stack != []
    ensures ts != []
    ensures |stack| == |ts|
    ensures var t := ts[|ts| - 1];
      && t.Tree? && t.n == stack[|stack| - 1] && Linked(m, t) && Bounded(t) && t.n in m
      && Stacked(m, stack[..|stack| - 1], ts[..|ts| - 1])
      && Linked(m, t.left) && Linked(m, t.right) && Bounded(t.left) && Bounded(t.right)
      && m[t.n] == RecOf(t.p, t.max, Root(t.left), Root(t.right)) && (t.left.Tree? ==> t.left.n in m && m[t.left.n].max == t.left.max)
  {}

  method Read(r: IntervalTree, n: Interval, ghost p: Progression) returns (s: Summary)
    requires r.Agrees() && n in r.mem && r.mem[n].(max := 0, left := null, right := null) == RecOf(p, 0, null, null)
    ensures s == SummaryOf(n, p)
  {
    s := Summary(Progression(n.address, n.count, n.diff), n.sizeType, n.pc, n.locks);
  }

  /** `intersectInterval`: all hits of one summary in a tree. */
  method IntersectInterval(r: IntervalTree, top: Interval, u: Summary, res0: seq<(Summary, Summary)>, ghost t0: Tree)
    returns (res: seq<(Summary, Summary)>)
    requires r.Agrees() && Root(t0) == top && Linked(r.mem, t0) && Bounded(t0)
    ensures multiset(res) == multiset(res0) + HitsOf(t0, u)
  {
    hide Linked, Bounded, HitsOf, HitsOfAll, Sizes, Hit, IntervalTree.Agrees, Push, Stacked;
    res := res0;
    var stack: seq<Interval> := [top];
    ghost var ts := [t0];
    StackStart(r.mem, t0, top, u, Leaf);
    while stack != []
      invariant Stacked(r.mem, stack, ts) && multiset(res) + HitsOfAll(ts, u) == multiset(res0) + HitsOf(t0, u)
      decreases Sizes(ts)
    {
      PopStacked(r.mem, stack, ts);
      var node := stack[|stack| - 1];
      ghost var t := ts[|ts| - 1];
      HitsOfPop(ts, u);
      var s := Read(r, node, t.p);
      ghost var bag := multiset(res);
      if Hit(s, u) {
        res := res + [(s, u)];
      }
      assert multiset(res) == bag + if Hit(s, u) then multiset{(s, u)} else multiset{};
      stack, ts := stack[..|stack| - 1], ts[..|ts| - 1];
      var left, right, leftMax := Children(r, node);
      if left != null && leftMax >= u.p.address {
        PushStacked(r.mem, stack, ts, t.left);
        PushSums(ts, t.left, u, Leaf);
        stack, ts := PushNode(stack, left), Push(ts, t.left);
      } else {
        Pruned(t.left, u);
      }
      PushStacked(r.mem, stack, ts, t.right);
      PushSums(ts, t.right, u, Leaf);
      if right != null {
        stack := PushNode(stack, right);
      }
      ts := Push(ts, t.right);
    }
    NoneLeft(r.mem, stack, ts, u, Leaf);
  }

  lemma StackStart(m: Mem, t: Tree, top: Interval, u: Summary, v: Tree)
    requires Root(t) == top && Linked(m, t) && Bounded(t)
    ensures Stacked(m, [top], [t]) && HitsOfAll([t], u) == HitsOf(t, u) && AllHitsOfAll(v, [t]) == AllHits(v, t)
  {
    assert [t] == Push([], t);
    PushSums([], t, u, v);
  }

  lemma NoneLeft(m: Mem, stack: seq<Interval>, ts: seq<Tree>, u: Summary, v: Tree)
    requires Stacked(m, stack, ts) && stack == []
    ensures HitsOfAll(ts, u) == multiset{} && AllHitsOfAll(v, ts) == multiset{}
  {}

  lemma HitsOfPop(ts: seq<Tree>, u: Summary)
    requires ts != [] && ts[|ts| - 1].Tree?
    ensures var t := ts[|ts| - 1]; var s := SummaryOf(t.n, t.p);
      && HitsOfAll(ts, u) == HitsOfAll(ts[..|ts| - 1], u) + (if Hit(s, u) then multiset{(s, u)} else multiset{}) + HitsOf(t.left, u) + HitsOf(t.right, u)
      && Sizes(ts) == Sizes(ts[..|ts| - 1]) + 1 + Size(t.left) + Size(t.right)
  {}

  method Children(r: IntervalTree, n: Interval) returns (left: Interval?, right: Interval?, leftMax: nat)
    requires r.Agrees() && n in r.mem && (r.mem[n].left != null ==> r.mem[n].left in r.mem)
    ensures left == r.mem[n].left && right == r.mem[n].right
    ensures left != null ==> leftMax == r.mem[left].max
  {
    left, right, leftMax := n.left, n.right, 0;
    if left != null {
      leftMax := left.max;
    }
  }

  /** `intersectIntervals`: with all pruning, exactly the hits that comparing every node with
      every node finds. */
  method IntersectIntervals(r1: IntervalTree, r2: IntervalTree) returns (res: seq<(Summary, Summary)>)
    requires r1.Valid() && r2.Valid()
    ensures multiset(res) == AllHits(r1.tree, r2.tree)
  {
    hide Linked, Bounded, HitsOf, AllHits, AllHitsOfAll, Sizes, IntervalTree.Agrees, AllGenuine, Push, Stacked;
    res := [];
    if r1.root == null || r2.root == null {
      NoHits(r1.tree, r2.tree);
      return;
    }
    var stack: seq<Interval> := [r2.root];
    ghost var us := [r2.tree];
    StackStart(r2.mem, r2.tree, r2.root, Summary(Progression(0, 1, 0), 0, 0, {}), r1.tree);
    while stack != []
      invariant Stacked(r2.mem, stack, us) && multiset(res) + AllHitsOfAll(r1.tree, us) == AllHits(r1.tree, r2.tree)
      decreases Sizes(us)
    {
      PopStacked(r2.mem, stack, us);
      var node := stack[|stack| - 1];
      ghost var u := us[|us| - 1];
      AllHitsPop(r1.tree, us);
      var s := Read(r2, node, u.p);
      res := IntersectInterval(r1, r1.root, s, res, r1.tree);
      stack, us := stack[..|stack| - 1], us[..|us| - 1];
      var left, right, _ := Children(r2, node);
      PushStacked(r2.mem, stack, us, u.right);
      PushSums(us, u.right, s, r1.tree);
      if right != null {
        stack := PushNode(stack, right);
      }
      us := Push(us, u.right);
      PushStacked(r2.mem, stack, us, u.left);
      PushSums(us, u.left, s, r1.tree);
      if left != null {
        stack := PushNode(stack, left);
      }
      us := Push(us, u.left);
    }
    NoneLeft(r2.mem, stack, us, Summary(Progression(0, 1, 0), 0, 0, {}), r1.tree);
  }

  lemma {:induction false} NoHits(t: Tree, u: Tree)
    requires t.Leaf? || u.Leaf?
    ensures AllHits(t, u) == multiset{}
  {
    if u.Tree? {
      NoHits(t, u.left);
      NoHits(t, u.right);
    }
  }

  lemma AllHitsPop(t: Tree, us: seq<Tree>)
    requires us != [] && us[|us| - 1].Tree?
    ensures var u := us[|us| - 1];
      && AllHitsOfAll(t, us) == AllHitsOfAll(t, us[..|us| - 1]) + HitsOf(t, SummaryOf(u.n, u.p)) + AllHits(t, u.left) + AllHits(t, u.right)
      && Sizes(us) == Sizes(us[..|us| - 1]) + 1 + Size(u.left) + Size(u.right)
  {}
}
