/**
 What the summaries of a tree stand for: which accesses an insertion keeps and which it
 drops, and which conflicts between two trees are found.
 */
module Coverage {
  import opened Powers
  import opened Strided

  // ---------- one summary ----------

  /** The address is one of those the summary stands for. */
  ghost predicate Stands(p: Progression, a: nat) {
    exists k :: 0 <= k < p.count && Element(p, k) == a
  }

  lemma StandsIff(p: Progression, a: nat)
    requires Regular(p)
    ensures Stands(p, a) <==> p.address <= a <= p.End() && (p.diff > 0 ==> (a - p.address) % p.diff == 0)
  {
    NotNegative(p.diff, p.count - 1);
    if Stands(p, a) {
      var k :| 0 <= k < p.count && Element(p, k) == a;
      ElementWhere(p, k);
    }
    if p.address <= a <= p.End() && (p.diff > 0 ==> (a - p.address) % p.diff == 0) {
      var k := if p.diff == 0 then 0 else (a - p.address) / p.diff;
      ElementHere(p, a, k);
    }
  }

  lemma ElementWhere(p: Progression, k: nat)
    requires Regular(p) && k < p.count
    ensures p.address <= Element(p, k) <= p.End() && (p.diff > 0 ==> (Element(p, k) - p.address) % p.diff == 0)
  {
    NotNegative(k, p.diff);
    NotNegative(p.count - 1 - k, p.diff);
    assert p.End() == Element(p, k) + (p.count - 1 - k) * p.diff;
    if p.diff > 0 { DivUnique(k * p.diff, k, 0, p.diff); }
  }

  lemma ElementHere(p: Progression, a: nat, k: nat)
    requires Regular(p) && p.address <= a <= p.End()
    requires if p.diff == 0 then k == 0 else k == (a - p.address) / p.diff && (a - p.address) % p.diff == 0
    ensures k < p.count && Element(p, k) == a
  {
    if p.diff > 0 {
      assert a - p.address == k * p.diff;
      Cancel(k, p.count - 1, p.diff);
    }
  }

  lemma Cancel(a: nat, b: nat, d: nat)
    requires d > 0 && a * d <= b * d
    ensures a <= b
  {}

  /** An access that the node takes although the summary then does not stand for it: off the
      steps of a progression, or anywhere but just behind a single access. */
  predicate Drops(p: Progression, a: nat) {
    if p.diff == 0 then a != p.address && !(p.address < a < p.address + 64)
    else p.address < a < p.End() && (a - p.address) % p.diff != 0
  }

  /** An access that is left to the nodes below. */
  predicate Leaves(p: Progression, a: nat) {
    p.diff != 0 && (a < p.address || a > p.End()) && a != p.address - p.diff && a != p.End() + p.diff
  }

  function Result(p: Progression, a: nat): Progression {
    if Fold(p, a).Extended? then Fold(p, a).p else p
  }

  /** What folding does to what a summary stands for: it gains the access, unless that is
      dropped, and nothing else changes. */
  lemma FoldLaw(p: Progression, a: nat, x: nat)
    requires Regular(p)
    ensures Fold(p, a).Elsewhere? <==> Leaves(p, a)
    ensures !Leaves(p, a) ==> Regular(Result(p, a)) && (Stands(Result(p, a), x) <==> Stands(p, x) || (x == a && !Drops(p, a)))
  {
    NotNegative(p.diff, p.count - 1);
    if Fold(p, a).Dropped? {
      StandsIff(p, a);
      if p.diff > 0 && a == p.End() { DivUnique(a - p.address, p.count - 1, 0, p.diff); }
      if p.diff > 0 && a == p.address { DivUnique(0, 0, 0, p.diff); }
    } else if Fold(p, a).Extended? {
      Multiply(p.count, p.diff);
      if p.diff == 0 {
        GainsPair(p, a, x);
      } else if a == p.End() + p.diff {
        GainsRight(p, a, x);
      } else {
        GainsLeft(p, a, x);
      }
    }
  }

  lemma GainsPair(p: Progression, a: nat, x: nat)
    requires Regular(p) && p.diff == 0 && p.address < a
    ensures Stands(p.(diff := a - p.address, count := p.count + 1), x) <==> Stands(p, x) || x == a
  {
    var q := p.(diff := a - p.address, count := p.count + 1);
    assert Element(q, 0) == p.address == Element(p, 0) && Element(q, 1) == a;
  }

  lemma GainsRight(p: Progression, a: nat, x: nat)
    requires Regular(p) && p.diff > 0 && a == p.address + p.count * p.diff
    ensures Stands(p.(count := p.count + 1), x) <==> Stands(p, x) || x == a
  {
    var q := p.(count := p.count + 1);
    assert Element(q, p.count) == a;
    if Stands(p, x) {
      var k :| 0 <= k < p.count && Element(p, k) == x;
      assert Element(q, k) == x;
    }
    if Stands(q, x) {
      var k :| 0 <= k < q.count && Element(q, k) == x;
      if k < p.count { assert Element(p, k) == x; }
    }
  }

  lemma GainsLeft(p: Progression, a: nat, x: nat)
    requires Regular(p) && p.diff > 0 && a + p.diff == p.address
    ensures Stands(p.(address := a, count := p.count + 1), x) <==> Stands(p, x) || x == a
  {
    var q := p.(address := a, count := p.count + 1);
    assert Element(q, 0) == a;
    if Stands(p, x) {
      var k :| 0 <= k < p.count && Element(p, k) == x;
      Multiply(k + 1, p.diff);
      assert Element(q, k + 1) == x;
    }
    if Stands(q, x) {
      var k :| 0 <= k < q.count && Element(q, k) == x;
      if k > 0 {
        Multiply(k, p.diff);
        assert Element(p, k - 1) == x;
      }
    }
  }

  // ---------- a tree ----------

  ghost predicate AllRegular(t: Tree) {
    t.Tree? ==> Regular(t.p) && AllRegular(t.left) && AllRegular(t.right)
  }

  lemma {:induction false} GenuineIsRegular(t: Tree, made: set<Access>)
    requires AllGenuine(t, made)
    ensures AllRegular(t)
  {
    if t.Tree? {
      GenuineIsRegular(t.left, made);
      GenuineIsRegular(t.right, made);
    }
  }

  /** Some summary of the access's kind stands for its address. */
  ghost predicate Covered(t: Tree, y: Access) {
    t.Tree? && ((SameKey(t.n, y) && Stands(t.p, y.address)) || Covered(t.left, y) || Covered(t.right, y))
  }

  /** On the way down, by address, the first node of its kind that does not leave the access
      to those below drops it. */
  ghost predicate Lost(t: Tree, item: Access) {
    t.Tree? &&
      if SameKey(t.n, item) && !Leaves(t.p, item.address) then Drops(t.p, item.address)
      else Lost(if t.p.address < item.address then t.right else t.left, item)
  }

  /** After an insertion the tree covers what it covered before, and the access if and only if
      it is not lost. */
  lemma {:induction false} InsertCovers(t: Tree, item: Access, leaf: Interval, y: Access)
    requires AllRegular(t) && SameKey(leaf, item)
    ensures AllRegular(Insert(t, item, leaf))
    ensures Covered(Insert(t, item, leaf), y) <==> Covered(t, y) || (y == item && !Lost(t, item))
  {
    if t.Leaf? {
      var p := Progression(item.address, 1, 0);
      assert Element(p, 0) == item.address;
    } else {
      FoldLaw(t.p, item.address, y.address);
      if !SameKey(t.n, item) || Leaves(t.p, item.address) {
        InsertCovers(if t.p.address < item.address then t.right else t.left, item, leaf, y);
      }
    }
  }

  lemma NothingCovered(y: Access)
    ensures !Covered(Leaf, y) && AllRegular(Leaf)
  {}

  /** The i-th insertion of the run is of this access, and does not lose it. */
  ghost predicate KeptAt(items: seq<Access>, leaves: seq<Interval>, i: nat, y: Access)
    requires i < |items| == |leaves|
  {
    items[i] == y && !Lost(Inserts(items[..i], leaves[..i]), y)
  }

  lemma KeptAtPrefix(items: seq<Access>, leaves: seq<Interval>, n: nat, i: nat, y: Access)
    requires i < n <= |items| == |leaves|
    ensures KeptAt(items[..n], leaves[..n], i, y) <==> KeptAt(items, leaves, i, y)
  {
    assert items[..n][..i] == items[..i] && leaves[..n][..i] == leaves[..i];
  }

  /** After a run of insertions an access is covered if and only if it was once inserted and
      not lost then. */
  lemma {:induction false} InsertsCover(items: seq<Access>, leaves: seq<Interval>, y: Access)
    requires SameKeys(items, leaves)
    ensures AllRegular(Inserts(items, leaves))
    ensures Covered(Inserts(items, leaves), y) <==> exists i :: 0 <= i < |items| && KeptAt(items, leaves, i, y)
  {
    hide Insert, Covered, Lost, SameKey, AllRegular;
    if items == [] {
      NothingCovered(y);
    } else {
      var n := |items| - 1;
      InsertsCover(items[..n], leaves[..n], y);
      InsertCovers(Inserts(items[..n], leaves[..n]), items[n], leaves[n], y);
      assert Inserts(items, leaves) == Insert(Inserts(items[..n], leaves[..n]), items[n], leaves[n]);
      assert KeptAt(items, leaves, n, y) <==> items[n] == y && !Lost(Inserts(items[..n], leaves[..n]), y);
      hide KeptAt, Inserts;
      forall i | 0 <= i < n ensures KeptAt(items[..n], leaves[..n], i, y) <==> KeptAt(items, leaves, i, y) {
        KeptAtPrefix(items, leaves, n, i, y);
      }
    }
  }

  /** Of two accesses of one kind the second is lost unless it lies less than 64 bytes behind
      the first, or at the same address. */
  lemma SecondLost(x: Access, y: Access, leaves: seq<Interval>)
    requires SameKeys([x, y], leaves) && x.(address := y.address) == y
    ensures Covered(Inserts([x, y], leaves), y) <==> x.address <= y.address < x.address + 64
  {
    var items, first := [x, y], Inserts([x], leaves[..1]);
    var one: seq<Access> := [x];
    assert items[..1] == one && one[..0] == [] && leaves[..1][..0] == [] && leaves[..1][0] == leaves[0];
    assert Inserts(one[..0], leaves[..1][..0]) == Leaf;
    FirstStep(x, leaves[0]);
    assert first == Insert(Leaf, x, leaves[0]);
    assert first.left == first.right == Leaf && SameKey(first.n, y);
    StandsIff(first.p, y.address);
    InsertCovers(first, y, leaves[1], y);
    assert Inserts(items, leaves) == Insert(first, y, leaves[1]);
  }

  /** Accesses of one kind at even steps. */
  ghost predicate Steps(items: seq<Access>, d: nat) {
    items != [] && forall i :: 0 <= i < |items| ==> items[i] == items[0].(address := items[0].address + i * d)
  }

  lemma StepsBefore(items: seq<Access>, d: nat, n: nat)
    requires Steps(items, d) && 0 < n < |items|
    ensures Steps(items[..n], d) && items[..n][0] == items[0]
    ensures items[n] == items[0].(address := items[0].address + n * d)
  {
    forall i | 0 <= i < n ensures items[..n][i] == items[0].(address := items[0].address + i * d) {
      assert items[..n][i] == items[i];
    }
  }

  /** The tree is this summary alone. */
  ghost predicate Single(t: Tree, p: Progression) {
    t.Tree? && t.left == t.right == Leaf && t.p == p
  }

  /** They become a single summary, of exactly these addresses. */
  lemma {:induction false} StepsFold(items: seq<Access>, leaves: seq<Interval>, d: nat)
    requires SameKeys(items, leaves) && items != [] && Steps(items, d) && 0 < d < 64
    ensures var n := |items|; var t := Inserts(items, leaves);
      items != [] && Single(t, Progression(items[0].address, n, if n == 1 then 0 else d)) && t.n == leaves[0]
  {
    hide Insert, Fold, Steps;
    var n := |items| - 1;
    var before, last := items[..n], leaves[..n];
    if n == 0 {
      assert before == [] && last == [];
      FirstStep(items[0], leaves[0]);
    } else {
      StepsBefore(items, d, n);
      StepsFold(before, last, d);
      NextStep(Inserts(before, last), items[n], leaves[n], d);
    }
  }

  lemma FirstStep(item: Access, leaf: Interval)
    ensures var t := Insert(Leaf, item, leaf); t.Tree? && t.n == leaf && t.left == t.right == Leaf && t.p == Progression(item.address, 1, 0)
  {}

  lemma NextStep(t: Tree, item: Access, leaf: Interval, d: nat)
    requires t.Tree? && t.left == t.right == Leaf && SameKey(t.n, item) && 0 < d < 64 && t.p.count >= 1
    requires t.p.diff == (if t.p.count == 1 then 0 else d) && item.address == t.p.address + t.p.count * d
    ensures var t' := Insert(t, item, leaf);
      t'.Tree? && t'.n == t.n && t'.left == t'.right == Leaf && t'.p == Progression(t.p.address, t.p.count + 1, d)
  {
    Multiply(t.p.count, d);
    assert t.p.count > 1 ==> t.p.End() + d == item.address;
  }

  // ---------- the red-black variant ----------

  ghost predicate CoveredBy(kept: seq<Kept>, y: Access) {
    exists j :: 0 <= j < |kept| && kept[j].key == y.(address := 0) && Stands(kept[j].p, y.address)
  }

  ghost predicate AllNarrow(kept: seq<Kept>) {
    forall j :: 0 <= j < |kept| ==> Regular(kept[j].p) && Narrow(kept[j].p)
  }

  /** The first summary of its kind on the way down that does not leave the access to those
      below drops it. */
  ghost predicate LostOn(kept: seq<Kept>, path: seq<nat>, item: Access)
    requires Positions(path, |kept|)
  {
    path != [] &&
      var k := kept[path[0]];
      if k.key == item.(address := 0) && !Leaves(k.p, item.address) then Drops(k.p, item.address)
      else LostOn(kept, path[1..], item)
  }

  /** While the summaries are narrow, the same law as for the other tree, for every way down. */
  lemma {:induction false} TakingCovers(kept: seq<Kept>, path: seq<nat>, item: Access, y: Access)
    requires Positions(path, |kept|) && AllNarrow(kept)
    ensures CoveredBy(Taking(kept, path, item), y) <==> CoveredBy(kept, y) || (y == item && !LostOn(kept, path, item))
    decreases path
  {
    if path == [] {
      NewCovers(kept, item, y);
    } else {
      var j := path[0];
      var k := kept[j];
      NarrowFold(k.p, item.address);
      FoldLaw(k.p, item.address, y.address);
      FoldLaw(k.p, item.address, item.address);
      if Settles(k, item) {
        SettledCovers(kept, j, item, y);
      } else {
        TakingCovers(kept, path[1..], item, y);
      }
    }
  }

  lemma NewCovers(kept: seq<Kept>, item: Access, y: Access)
    ensures var k := Kept(item.(address := 0), Progression(item.address, 1, 0));
      CoveredBy(kept + [k], y) <==> CoveredBy(kept, y) || y == item
  {
    var k := Kept(item.(address := 0), Progression(item.address, 1, 0));
    var r := kept + [k];
    assert Element(k.p, 0) == item.address;
    assert Stands(k.p, y.address) <==> y.address == item.address;
    hide Stands;
    if CoveredBy(kept, y) {
      var j :| 0 <= j < |kept| && kept[j].key == y.(address := 0) && Stands(kept[j].p, y.address);
      assert r[j] == kept[j];
    }
    if CoveredBy(r, y) {
      var j :| 0 <= j < |r| && r[j].key == y.(address := 0) && Stands(r[j].p, y.address);
      assert j < |kept| ==> r[j] == kept[j];
      assert j == |kept| ==> y == item;
    }
    if y == item { assert r[|kept|] == k; }
  }

  lemma SettledCovers(kept: seq<Kept>, j: nat, item: Access, y: Access)
    requires j < |kept| && Settles(kept[j], item)
    requires !Drops(kept[j].p, item.address) ==> Stands(Settled(kept[j], item).p, item.address)
    requires Stands(Settled(kept[j], item).p, y.address) <==>
      Stands(kept[j].p, y.address) || (y.address == item.address && !Drops(kept[j].p, item.address))
    ensures CoveredBy(kept[j := Settled(kept[j], item)], y) <==> CoveredBy(kept, y) || (y == item && !Drops(kept[j].p, item.address))
  {
    hide Stands, Drops, Fold32;
    var r := kept[j := Settled(kept[j], item)];
    if CoveredBy(kept, y) {
      var i :| 0 <= i < |kept| && kept[i].key == y.(address := 0) && Stands(kept[i].p, y.address);
      assert r[i].key == y.(address := 0) && Stands(r[i].p, y.address);
    }
    if CoveredBy(r, y) {
      var i :| 0 <= i < |r| && r[i].key == y.(address := 0) && Stands(r[i].p, y.address);
      if i == j && Stands(kept[j].p, y.address) { assert kept[i].key == y.(address := 0); }
      if i != j { assert kept[i] == r[i]; }
    }
    if y == item && !Drops(kept[j].p, item.address) { assert r[j].key == y.(address := 0); }
  }

  /** Accesses of one kind at even steps become a single summary. */
  lemma {:induction false} StepsSummarize(items: seq<Access>, route: (nat, nat) -> seq<nat>, d: nat)
    requires Paths(route) && items != [] && Steps(items, d) && 0 < d < 64 && d * |items| < TWO32
    ensures var n := |items|;
      Summaries(items, route) == [Kept(items[0].(address := 0), Progression(items[0].address, n, if n == 1 then 0 else d))]
  {
    hide Fold32, Taking, Steps;
    var n := |items| - 1;
    Multiply(n + 1, d);
    if n == 0 {
      FirstTaken(items, route);
    } else {
      var before := items[..n];
      StepsBefore(items, d, n);
      StepsSummarize(before, route, d);
      NextTaken(items[0], n, d, route(n, 1), items[n]);
    }
  }

  lemma FirstTaken(items: seq<Access>, route: (nat, nat) -> seq<nat>)
    requires |items| == 1 && Paths(route)
    ensures Summaries(items, route) == [Kept(items[0].(address := 0), Progression(items[0].address, 1, 0))]
  {
    assert items[..0] == [] && Summaries([], route) == [];
    PathBelow(route(0, 0), 0);
  }

  lemma PathBelow(path: seq<nat>, n: nat)
    requires Positions(path, n)
    ensures path != [] ==> n > 0
  {
    if path != [] { assert path[0] < n; }
  }

  lemma NextTaken(first: Access, n: nat, d: nat, path: seq<nat>, item: Access)
    requires n >= 1 && 0 < d < 64 && d * (n + 1) < TWO32 && item == first.(address := first.address + n * d)
    requires Positions(path, 1) && path != []
    ensures Taking([Kept(first.(address := 0), Progression(first.address, n, if n == 1 then 0 else d))], path, item) ==
      [Kept(first.(address := 0), Progression(first.address, n + 1, d))]
  {
    var p := Progression(first.address, n, if n == 1 then 0 else d);
    NarrowSteps(n, d);
    hide Fold32;
    NarrowFold(p, item.address);
    Multiply(n, d);
    assert d * (n - 1) + d == n * d;
    assert n > 1 ==> item.address == p.End() + d;
    assert Fold(p, item.address) == Extended(Progression(first.address, n + 1, d));
    assert path[0] == 0;
  }

  lemma NarrowSteps(n: nat, d: nat)
    requires n >= 1 && d >= 1 && d * (n + 1) < TWO32
    ensures d * (n - 1) < TWO32 && n + 1 < TWO32
  {
    assert d * (n + 1) == d * (n - 1) + 2 * d;
    MulGrows(d, n + 1);
  }

  // ---------- conflicts ----------

  /** The kinds of accesses, as the recorder numbers them: a conflict needs a write and an
      access that is not atomic. */
  lemma RaceLaw(s: Summary, u: Summary)
    requires s.sizeType % 16 < 4 && u.sizeType % 16 < 4
    ensures var a, b := s.sizeType % 16, u.sizeType % 16;
      Race(s, u) <==> (a == 1 || a == 3 || b == 1 || b == 3) && (a == 0 || a == 1 || b == 0 || b == 1)
  {}

  predicate InHull(p: Progression, x: nat) {
    p.address <= x <= p.End()
  }

  /** The two summaries' hulls have an address in common, and no lock protects both. */
  lemma HitLaw(s: Summary, u: Summary)
    requires Regular(s.p) && Regular(u.p)
    ensures Hit(s, u) <==>
      && Race(s, u) && (forall l :: l in s.locks ==> l !in u.locks)
      && (exists x: nat :: InHull(s.p, x) && InHull(u.p, x))
  {
    NotNegative(s.p.diff, s.p.count - 1);
    NotNegative(u.p.diff, u.p.count - 1);
    var x := if s.p.address < u.p.address then u.p.address else s.p.address;
    if s.p.address <= u.p.End() && u.p.address <= s.p.End() {
      assert InHull(s.p, x) && InHull(u.p, x);
    }
    if forall l :: l in s.locks ==> l !in u.locks {
      assert s.locks * u.locks == {};
    } else {
      var l :| l in s.locks && l in u.locks;
      assert l in s.locks * u.locks;
    }
  }

  /** How many nodes have this summary. */
  ghost function Nodes(t: Tree, s: Summary): nat {
    if t.Leaf? then 0 else (if SummaryOf(t.n, t.p) == s then 1 else 0) + Nodes(t.left, s) + Nodes(t.right, s)
  }

  lemma {:induction false} HitsCount(t: Tree, u: Summary, s: Summary, v: Summary)
    ensures HitsOf(t, u)[(s, v)] == if v == u && Hit(s, u) then Nodes(t, s) else 0
  {
    if t.Tree? {
      HitsCount(t.left, u, s, v);
      HitsCount(t.right, u, s, v);
    }
  }

  /** A pair is reported once for every two nodes that have these summaries, if it is a hit,
      and otherwise never. */
  lemma {:induction false} AllHitsCount(t: Tree, u: Tree, s: Summary, v: Summary)
    ensures AllHits(t, u)[(s, v)] == if Hit(s, v) then Nodes(t, s) * Nodes(u, v) else 0
  {
    hide HitsOf, Hit;
    if u.Tree? {
      var w := SummaryOf(u.n, u.p);
      HitsCount(t, w, s, v);
      assert AllHits(t, u)[(s, v)] == HitsOf(t, w)[(s, v)] + AllHits(t, u.left)[(s, v)] + AllHits(t, u.right)[(s, v)];
      AllHitsCount(t, u.left, s, v);
      AllHitsCount(t, u.right, s, v);
      Distribute(Nodes(t, s), if w == v then 1 else 0, Nodes(u.left, v), Nodes(u.right, v));
    }
  }

  lemma Distribute(n: nat, a: nat, b: nat, c: nat)
    ensures n * (a + b + c) == n * a + n * b + n * c
  {}

  lemma {:induction false} CoveredNode(t: Tree, y: Access) returns (s: Summary)
    requires Covered(t, y) && AllRegular(t)
    ensures Nodes(t, s) > 0 && Regular(s.p) && Stands(s.p, y.address)
    ensures s.sizeType == y.sizeType && s.pc == y.pc && s.locks == y.locks
  {
    if SameKey(t.n, y) && Stands(t.p, y.address) {
      s := SummaryOf(t.n, t.p);
    } else if Covered(t.left, y) {
      s := CoveredNode(t.left, y);
    } else {
      s := CoveredNode(t.right, y);
    }
  }

  /** Two accesses that the trees cover, to one address, in conflict and without a common lock:
      a pair of summaries that stand for them is reported. */
  lemma ConflictReported(t: Tree, u: Tree, x: Access, y: Access) returns (s: Summary, v: Summary)
    requires AllRegular(t) && AllRegular(u) && Covered(t, x) && Covered(u, y) && x.address == y.address
    requires x.locks * y.locks == {}
    requires var a, b := x.sizeType % 16, y.sizeType % 16;
      a < 4 && b < 4 && (a == 1 || a == 3 || b == 1 || b == 3) && (a == 0 || a == 1 || b == 0 || b == 1)
    ensures (s, v) in AllHits(t, u) && Stands(s.p, x.address) && Stands(v.p, y.address)
    ensures s.sizeType == x.sizeType && s.pc == x.pc && v.sizeType == y.sizeType && v.pc == y.pc
  {
    hide Covered, AllRegular, AllHits, Nodes, Race, Stands, Regular;
    s := CoveredNode(t, x);
    v := CoveredNode(u, y);
    StandsIff(s.p, x.address);
    StandsIff(v.p, y.address);
    RaceLaw(s, v);
    AllHitsCount(t, u, s, v);
    Positive(Nodes(t, s), Nodes(u, v));
  }

  /** The first of two accesses of one kind is what remains of them if the second is dropped. */
  lemma DroppedTree(x: Access, y: Access, leaves: seq<Interval>)
    requires SameKeys([x, y], leaves) && x.(address := y.address) == y && !(x.address <= y.address < x.address + 64)
    ensures var t := Inserts([x, y], leaves);
      t.Tree? && t.left == t.right == Leaf && SummaryOf(t.n, t.p) == Summary(Progression(x.address, 1, 0), x.sizeType, x.pc, x.locks)
  {
    var items, first := [x, y], Inserts([x], leaves[..1]);
    var one: seq<Access> := [x];
    assert items[..1] == one && one[..0] == [] && leaves[..1][..0] == [] && leaves[..1][0] == leaves[0];
    assert SameKey(leaves[0], items[0]) && SameKey(leaves[1], items[1]);
    assert Inserts(one[..0], leaves[..1][..0]) == Leaf;
    FirstStep(x, leaves[0]);
    assert first == Insert(Leaf, x, leaves[0]);
    assert Inserts(items, leaves) == Insert(first, y, leaves[1]);
  }

  /** What is dropped is not reported: whatever one thread does at the place of the dropped access, the
      pair of trees holds no conflict. */
  lemma RaceMissed(x: Access, y: Access, z: Access, leaves: seq<Interval>, leaf: Interval)
    requires SameKeys([x, y], leaves) && x.(address := y.address) == y && !(x.address <= y.address < x.address + 64)
    requires SameKey(leaf, z) && z.address == y.address
    ensures AllHits(Inserts([x, y], leaves), Inserts([z], [leaf])) == multiset{}
  {
    DroppedTree(x, y, leaves);
    var t, u := Inserts([x, y], leaves), Inserts([z], [leaf]);
    var one, l1: seq<Interval> := [z], [leaf];
    assert one[..0] == [] && l1[..0] == [];
    assert Inserts(one[..0], l1[..0]) == Leaf;
    FirstStep(z, leaf);
    assert u == Insert(Leaf, z, leaf);
    var s, v := SummaryOf(t.n, t.p), SummaryOf(u.n, u.p);
    hide Inserts, Insert, Race;
    assert !Hit(s, v);
    assert HitsOf(t, v) == multiset{};
  }

  lemma Positive(a: nat, b: nat)
    requires a > 0 && b > 0
    ensures a * b > 0
  {}
}
