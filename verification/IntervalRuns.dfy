/**
 Whole histories of an interval tree: what holds after every sequence of insertions and
 removals.
 */
module IntervalRuns {
  import opened Powers
  import opened RbShape
  import opened RbLinks
  import opened RbSteps
  import opened RbTree
  import opened RbWalk
  import opened IntervalTree

  datatype Op = Add(node: Node) | Take(node: Node)

  ghost function Init(ops: seq<Op>): seq<Op>
    requires ops != []
  {
    ops[..|ops| - 1]
  }

  ghost function Final(ops: seq<Op>): Op
    requires ops != []
  {
    ops[|ops| - 1]
  }

  /** The nodes in the tree. */
  ghost function Members(ops: seq<Op>): set<Node> {
    if ops == [] then {}
    else if Final(ops).Add? then Members(Init(ops)) + {Final(ops).node}
    else Members(Init(ops)) - {Final(ops).node}
  }

  /** A node is inserted while it is not in the tree, and removed while it is. */
  ghost predicate Legal(ops: seq<Op>) {
    ops == [] || (Legal(Init(ops)) && (Final(ops).Add? <==> Final(ops).node !in Members(Init(ops))))
  }

  /** The sequence that the tree stands for. */
  ghost function Replayed(ops: seq<Op>): seq<Node> {
    if ops == [] then []
    else if Final(ops).Add? then InsertSorted(Replayed(Init(ops)), Final(ops).node)
    else Drop(Replayed(Init(ops)), Final(ops).node)
  }

  /** It holds the members, each once, by increasing start. */
  lemma {:induction false} ReplayedMembers(ops: seq<Op>)
    requires Legal(ops)
    ensures Sorted(Replayed(ops))
    ensures forall x :: multiset(Replayed(ops))[x] == if x in Members(ops) then 1 else 0
  {
    if ops != [] {
      var before, node := Replayed(Init(ops)), Final(ops).node;
      ReplayedMembers(Init(ops));
      if Final(ops).Add? {
        InsertSortedKeeps(before, node);
      } else {
        assert node in multiset(before);
        DropKeeps(before, node);
        assert multiset(Drop(before, node)) == multiset(before) - multiset{node};
      }
    }
  }

  ghost function Involved(ops: seq<Op>): set<Node> {
    set op | op in ops :: op.node
  }

  lemma {:induction false} MembersInvolved(ops: seq<Op>)
    ensures Members(ops) <= Involved(ops)
  {
    if ops != [] {
      MembersInvolved(Init(ops));
      assert forall op :: op in Init(ops) ==> op in ops;
      assert Final(ops) in ops;
    }
  }

  lemma {:induction false} LegalPrefix(ops: seq<Op>, i: nat)
    requires Legal(ops) && i < |ops|
    ensures var done := ops[..i + 1]; Legal(done) && Init(done) == ops[..i] && Final(done) == ops[i]
    decreases |ops| - i
  {
    if i + 1 == |ops| {
      assert ops[..i + 1] == ops;
    } else {
      LegalPrefix(ops, i + 1);
      assert Init(ops[..i + 2]) == ops[..i + 1];
    }
    assert ops[..i + 1][..i] == ops[..i];
  }

  /** Any sequence of `_insert` and `_remove`. */
  method Run(ops: seq<Op>) returns (r: RbRoot)
    requires Legal(ops)
    modifies Involved(ops)
    ensures fresh(r) && r.Valid() && r.mem.Keys == Members(ops)
    ensures r.Contents() == Replayed(ops) && Sorted(r.Contents())
  {
    hide Sorted, RbRoot.Valid, InsertSorted, Drop, Legal, Init, Final, Involved;
    r := new RbRoot();
    var i := 0;
    Nothing(ops);
    while i < |ops|
      invariant i <= |ops| && fresh(r) && r.Valid() && r.mem.Keys == Members(ops[..i])
      invariant r.Contents() == Replayed(ops[..i]) && Sorted(r.Contents())
    {
      LegalPrefix(ops, i);
      Next(ops, i);
      match ops[i] {
        case Add(node) => Insert(r, node);
        case Take(node) => Remove(r, node);
      }
      i := i + 1;
    }
    assert ops[..i] == ops;
  }

  lemma Nothing(ops: seq<Op>)
    ensures Members(ops[..0]) == {} && Replayed(ops[..0]) == [] && Sorted([])
  {}

  lemma Next(ops: seq<Op>, i: nat)
    requires i < |ops| && Legal(ops[..i + 1]) && Init(ops[..i + 1]) == ops[..i] && Final(ops[..i + 1]) == ops[i]
    ensures ops[i].node in Involved(ops) && Members(ops[..i]) <= Involved(ops)
    ensures ops[i].Add? <==> ops[i].node !in Members(ops[..i])
    ensures Members(ops[..i + 1]) == if ops[i].Add? then Members(ops[..i]) + {ops[i].node} else Members(ops[..i]) - {ops[i].node}
    ensures Replayed(ops[..i + 1]) ==
      if ops[i].Add? then InsertSorted(Replayed(ops[..i]), ops[i].node) else Drop(Replayed(ops[..i]), ops[i].node)
  {
    assert ops[i] in ops;
    MembersInvolved(ops[..i]);
    assert forall op :: op in ops[..i] ==> op in ops;
  }

  // ---------- what a sound tree gives ----------

  lemma {:induction false} ExactBelow(ctx: Ctx, t: Tree)
    requires Exact(Plug(ctx, t))
    ensures Exact(t)
    decreases ctx
  {
    match ctx
    case Top =>
    case In(dir, up, n, b, s, o) =>
      ExactBelow(up, Mk(dir, t, n, b, s, o));
  }

  /** The field of every node is the greatest endpoint in the subtree below it. */
  lemma FieldIsMaximum(m: Mem, root: Node?, tree: Tree, ctx: Ctx, t: Tree)
    requires Sound(m, root, tree) && Standing(m, root, ctx, t) && Plug(ctx, t) == tree
    ensures t.n in m && (forall x :: x in Inorder(t) ==> x.last <= m[t.n].sub)
    ensures exists x :: x in Inorder(t) && x.last == m[t.n].sub
  {
    ExactBelow(ctx, t);
    ExactIsMaximum(t);
  }

  lemma Squares(p: nat, n: nat)
    requires p <= n
    ensures p * p <= n * n
  {}

  /** The tree is at most 2 log2(n + 1) deep. */
  lemma LogDepth(t: Tree)
    requires RedBlack(t)
    ensures var n := |Inorder(t)| + 1; Pow2(Height(t)) <= n * n
  {
    var h: nat :| Rb(t, h);
    HeightBound(t, h);
    PowAdd(h, h);
    PowMono(Height(t), 2 * h);
    hide *;
    Squares(Pow2(h), |Inorder(t)| + 1);
  }
}
