/**
 Folding accesses into arithmetic progressions, and the unbalanced tree of such summaries
 with a maximum that prunes the intersection of two trees.
 */
module Strided {
  import opened Powers

  /** An access as the analysis sees it. */
  datatype Access = Access(address: nat, sizeType: nat, pc: nat, locks: set<nat>)

  /** The addresses `address`, `address + diff`, ..., `count` of them. */
  datatype Progression = Progression(address: nat, count: nat, diff: nat) {
    function End(): int {
      address + diff * (count - 1)
    }
  }

  // ---------- folding ----------

  datatype Folded = Extended(p: Progression) | Dropped | Elsewhere

  /** What becomes of an access with the same type, place and locks. */
  function Fold(p: Progression, a: nat): Folded {
    if p.diff != 0 then
      if a == p.End() + p.diff then Extended(p.(count := p.count + 1))
      else if p.address <= a <= p.End() then Dropped
      else if a == p.address - p.diff then Extended(p.(address := a, count := p.count + 1))
      else Elsewhere
    else if p.address < a < p.address + 64 then
      Extended(p.(diff := a - p.address, count := p.count + 1))
    else
      Dropped
  }

  ghost predicate Regular(p: Progression) {
    p.count >= 1 && (p.diff == 0 <==> p.count == 1)
  }

  ghost function Element(p: Progression, k: nat): nat {
    p.address + k * p.diff
  }

  /** Every address of the progression is the address of an access that was made, of this
      type, at this place, under these locks. */
  ghost predicate Genuine(p: Progression, of: Access, made: set<Access>) {
    Regular(p) && forall k :: 0 <= k < p.count ==> of.(address := Element(p, k)) in made
  }

  lemma FoldGenuine(p: Progression, of: Access, made: set<Access>)
    requires Genuine(p, of, made) && Fold(p, of.address).Extended?
    ensures Genuine(Fold(p, of.address).p, of, made + {of})
    ensures Fold(p, of.address).p.End() == if of.address > p.address then of.address else p.End()
  {
    hide Genuine;
    GenuineRegular(p, of, made);
    if p.diff == 0 {
      PairGenuine(p, of, made);
    } else if of.address == p.End() + p.diff {
      Multiply(p.count, p.diff);
      RightGenuine(p, of, made);
    } else {
      Multiply(p.count, p.diff);
      LeftGenuine(p, of, made);
    }
  }

  lemma PairGenuine(p: Progression, of: Access, made: set<Access>)
    requires Genuine(p, of, made) && p.diff == 0 && p.address < of.address
    ensures Genuine(p.(diff := of.address - p.address, count := p.count + 1), of, made + {of})
  {
    var q := p.(diff := of.address - p.address, count := p.count + 1);
    assert Element(p, 0) == Element(q, 0) == p.address && Element(q, 1) == of.address;
  }

  lemma RightGenuine(p: Progression, of: Access, made: set<Access>)
    requires Genuine(p, of, made) && p.diff != 0 && of.address == p.address + p.count * p.diff
    ensures Genuine(p.(count := p.count + 1), of, made + {of})
  {
    var q := p.(count := p.count + 1);
    forall k | 0 <= k < q.count ensures of.(address := Element(q, k)) in made + {of} {
      if k < p.count { assert Element(q, k) == Element(p, k); } else { assert Element(q, k) == of.address; }
    }
  }

  lemma LeftGenuine(p: Progression, of: Access, made: set<Access>)
    requires Genuine(p, of, made) && p.diff != 0 && of.address + p.diff == p.address
    ensures Genuine(p.(address := of.address, count := p.count + 1), of, made + {of})
  {
    var q := p.(address := of.address, count := p.count + 1);
    forall k | 0 <= k < q.count ensures of.(address := Element(q, k)) in made + {of} {
      if k > 0 {
        Multiply(k, p.diff);
        assert Element(q, k) == Element(p, k - 1);
      } else {
        assert Element(q, 0) == of.address;
      }
    }
  }

  lemma Multiply(k: nat, d: nat)
    ensures k * d == (k - 1) * d + d
  {}

  // ---------- the red-black variant ----------

  /** `END` of the red-black tree's nodes multiplies two 32-bit numbers. */
  function End32(p: Progression): nat {
    p.address + p.diff * (p.count - 1) % TWO32
  }

  /** One more in a 32-bit count. */
  function Next32(count: nat): nat {
    (count + 1) % TWO32
  }

  /** What becomes of an access in that arithmetic. */
  function Fold32(p: Progression, a: nat): Folded {
    if p.diff != 0 then
      if a == End32(p) + p.diff then Extended(p.(count := Next32(p.count)))
      else if p.address <= a <= End32(p) then Dropped
      else if a == p.address - p.diff then Extended(p.(address := a, count := Next32(p.count)))
      else Elsewhere
    else if p.address < a < p.address + 64 then
      Extended(p.(diff := a - p.address, count := Next32(p.count)))
    else
      Dropped
  }

  /** The summary spans less than 2^32 bytes, and counts less than that. */
  predicate Narrow(p: Progression) {
    p.diff * (p.count - 1) < TWO32 && p.count + 1 < TWO32
  }

  lemma NarrowFold(p: Progression, a: nat)
    requires Regular(p) && Narrow(p)
    ensures End32(p) == p.End() && Fold32(p, a) == Fold(p, a)
  {
    NotNegative(p.diff, p.count - 1);
  }

  /** No access that is folded in makes the summary claim one that was not made. */
  ghost predicate Precise(p: Progression) {
    forall of, made :: Genuine(p, of, made) && Fold32(p, of.address).Extended? ==> Genuine(Fold32(p, of.address).p, of, made + {of})
  }

  /** The accesses that a summary stands for. */
  ghost function Stood(p: Progression, of: Access): set<Access> {
    set k | 0 <= k < p.count :: of.(address := Element(p, k))
  }

  /** A summary as wide as 2^32 bytes takes in an access in its middle as if it were its next,
      and claims the next instead. */
  lemma WideInvents(p: Progression) returns (of: Access)
    requires Regular(p) && p.count < TWO32 && !Narrow(p)
    ensures Genuine(p, of, Stood(p, of)) && Fold32(p, of.address).Extended?
    ensures !Genuine(Fold32(p, of.address).p, of, Stood(p, of) + {of})
  {
    var d := p.diff * (p.count - 1);
    NotNegative(p.diff, p.count - 1);
    of := Access(End32(p) + p.diff, 0, 0, {});
    var made, q := Stood(p, of), Fold32(p, of.address).p;
    assert q == p.(count := Next32(p.count));
    if p.count + 1 < TWO32 {
      Multiply(p.count, p.diff);
      var x := of.(address := Element(q, p.count));
      assert x.address == p.address + d + p.diff > of.address;
      forall k | 0 <= k < p.count ensures of.(address := Element(p, k)) != x { Before(k, p.count, p.diff); }
      assert x !in made + {of};
    }
  }

  lemma Before(k: nat, n: nat, d: nat)
    requires k < n && d > 0
    ensures k * d < n * d
  {
    assert (n - k) * d > 0;
  }

  /** Folding is precise just as long as the summary is narrow. */
  lemma PreciseIff(p: Progression)
    requires Regular(p) && p.count < TWO32
    ensures Precise(p) <==> Narrow(p)
  {
    if Narrow(p) {
      forall of, made | Genuine(p, of, made) && Fold32(p, of.address).Extended?
        ensures Genuine(Fold32(p, of.address).p, of, made + {of})
      {
        NarrowFold(p, of.address);
        FoldGenuine(p, of, made);
      }
    } else {
      var of := WideInvents(p);
    }
  }

  /** The part of `struct interval_tree_node` that `_insert_data` folds into. */
  class AccessNode {
    const sizeType: nat
    const pc: nat
    const locks: set<nat>
    var start: nat
    var last: nat
    var count: nat
    var diff: nat

    ghost function Summary(): Progression
      reads this
    {
      Progression(start, count, diff)
    }

    ghost function Key(): Access {
      Access(0, sizeType, pc, locks)
    }

    /** The access has the node's type, place and locks. */
    predicate Takes(item: Access) {
      item.sizeType == sizeType && item.pc == pc && item.locks == locks
    }

    /** The summary stands for accesses that were made, and while it is narrow, `last` is where
        it ends. */
    ghost predicate Consistent(of: Access, made: set<Access>)
      reads this
    {
      && Genuine(Summary(), of, made) && diff < 64 && count < TWO32
      && (diff * (count - 1) < TWO32 ==> last == Summary().End())
    }

    constructor (of: Access)
      ensures Consistent(of, {of}) && Summary() == Progression(of.address, 1, 0) && Takes(of)
    {
      sizeType, pc, locks := of.sizeType, of.pc, of.locks;
      start, last, count, diff := of.address, of.address, 1, 0;
      new;
      assert Element(Summary(), 0) == of.address;
    }

    /** The folding of `_insert_data`: true when the access needs no node of its own. */
    method FoldData(item: Access, ghost made: set<Access>) returns (done: bool)
      modifies this
      ensures done == !Fold32(old(Summary()), item.address).Elsewhere?
      ensures Summary() == if Fold32(old(Summary()), item.address).Extended? then Fold32(old(Summary()), item.address).p else old(Summary())
      ensures old(Consistent(item, made)) && old(Narrow(Summary())) ==> Consistent(item, made + {item})
      ensures !done ==> unchanged(this)
    {
      hide Genuine, End32, Progression.End, Regular, Narrow, Next32;
      ghost var p, was, fine := Summary(), last, Consistent(item, made);
      if diff != 0 {
        var end := End32(Progression(start, count, diff));
        if item.address == end + diff {
          count := Next32(count);
          last := End32(Progression(start, count, diff));
          done := true;
        } else if start <= item.address <= end {
          done := true;
        } else if item.address == start - diff {
          start, count := item.address, Next32(count);
          done := true;
        } else {
          done := false;
        }
      } else {
        if 0 < item.address - start < 64 {
          diff := item.address - start;
          count := Next32(count);
          last := End32(Progression(start, count, diff));
        }
        done := true;
      }
      if fine && Narrow(p) { StillConsistent(p, was, item, made, Summary(), last); }
    }
  }

  /** The fields after folding into a narrow summary. */
  lemma StillConsistent(p: Progression, last: nat, item: Access, made: set<Access>, q: Progression, last': nat)
    requires Genuine(p, item, made) && p.diff < 64 && p.count < TWO32 && Narrow(p)
    requires p.diff * (p.count - 1) < TWO32 ==> last == p.End()
    requires var f := Fold32(p, item.address); q == if f.Extended? then f.p else p
    requires last' == if Fold32(p, item.address).Extended? && q.address == p.address then End32(q) else last
    ensures Genuine(q, item, made + {item}) && q.diff < 64 && q.count < TWO32
    ensures q.diff * (q.count - 1) < TWO32 ==> last' == q.End()
  {
    GenuineRegular(p, item, made);
    NarrowFold(p, item.address);
    if q != p {
      FoldGenuine(p, item, made);
      GenuineRegular(q, item, made + {item});
      hide Genuine;
      NotNegative(q.diff, q.count - 1);
      if q.address != p.address { Multiply(p.count, p.diff); }
    }
  }

  /** The descent goes on below the node. */
  ghost predicate Passes(n: AccessNode, item: Access)
    reads n
  {
    n.Takes(item) ==> Fold32(n.Summary(), item.address).Elsewhere?
  }

  /** The node's summary once it has taken the access in. */
  ghost function Taken(n: AccessNode, item: Access): Progression
    reads n
  {
    var f := Fold32(n.Summary(), item.address);
    if f.Extended? then f.p else n.Summary()
  }

  /** Every node is a summary of accesses that were made. */
  ghost predicate AllConsistent(nodes: set<AccessNode>, made: set<Access>)
    reads nodes
  {
    forall n :: n in nodes ==> n.Consistent(n.Key(), made)
  }

  lemma GenuineSame(p: Progression, of: Access, of': Access, made: set<Access>)
    requires Genuine(p, of, made) && of'.(address := 0) == of.(address := 0)
    ensures Genuine(p, of', made)
  {
    forall k | 0 <= k < p.count ensures of'.(address := Element(p, k)) in made {
      assert of'.(address := Element(p, k)) == of.(address := Element(p, k));
    }
  }

  lemma KeyForm(n: AccessNode, item: Access, made: set<Access>)
    requires n.Takes(item)
    ensures n.Consistent(item, made) <==> n.Consistent(n.Key(), made)
  {
    if n.Consistent(item, made) { GenuineSame(n.Summary(), item, n.Key(), made); }
    if n.Consistent(n.Key(), made) { GenuineSame(n.Summary(), n.Key(), item, made); }
  }

  lemma ConsistentMore(n: AccessNode, made: set<Access>, x: Access)
    requires n.Consistent(n.Key(), made)
    ensures n.Consistent(n.Key(), made + {x})
  {
  }

  /** What `_insert_data` does to the summaries of a tree in which `path` leads from the root
      to the empty place for the access, whatever the shape of the tree: the node returned is
      linked there, and rotations move nodes without touching their summaries. */
  method InsertData(path: seq<AccessNode>, item: Access, ghost nodes: set<AccessNode>, ghost made: set<Access>)
    returns (added: AccessNode?, ghost k: nat)
    requires forall n :: n in path ==> n in nodes
    modifies NodesOf(path)
    ensures k <= |path| && (forall j :: 0 <= j < k ==> old(Passes(path[j], item))) && (k < |path| ==> !old(Passes(path[k], item)))
    ensures added == null <==> k < |path|
    ensures added != null ==> fresh(added) && added.Takes(item) && added.Summary() == Progression(item.address, 1, 0)
    ensures forall n :: n in nodes ==> n.Summary() == if k < |path| && n == path[k] then old(Taken(n, item)) else old(n.Summary())
    ensures old(AllConsistent(nodes, made)) && (k < |path| ==> old(Narrow(path[k].Summary()))) ==>
      AllConsistent(if added == null then nodes else nodes + {added}, made + {item})
  {
    hide Genuine, Fold32, AllConsistent, Narrow;
    k := 0;
    var i := 0;
    while i < |path|
      invariant i == k <= |path| && forall n :: n in nodes ==> unchanged(n)
      invariant forall j :: 0 <= j < i ==> old(Passes(path[j], item))
    {
      var done := Meet(path[i], item, nodes, made);
      if done {
        return null, k;
      }
      i, k := i + 1, k + 1;
    }
    added := new AccessNode(item);
    if AllConsistent(nodes, made) {
      AllMore(nodes, item, made);
      AddedConsistent(added, item, made);
      AllWith(nodes, added, made + {item});
    }
  }

  lemma AllMore(nodes: set<AccessNode>, item: Access, made: set<Access>)
    requires AllConsistent(nodes, made)
    ensures AllConsistent(nodes, made + {item})
  {
    forall n | n in nodes ensures n.Consistent(n.Key(), made + {item}) { ConsistentMore(n, made, item); }
  }

  lemma AllWith(nodes: set<AccessNode>, x: AccessNode, made: set<Access>)
    requires AllConsistent(nodes, made) && x.Consistent(x.Key(), made)
    ensures AllConsistent(nodes + {x}, made)
  {}

  /** One node of the descent. */
  method Meet(n: AccessNode, item: Access, ghost nodes: set<AccessNode>, ghost made: set<Access>) returns (done: bool)
    requires n in nodes
    modifies n
    ensures done == !old(Passes(n, item))
    ensures !done ==> unchanged(n)
    ensures done ==> n.Summary() == old(Taken(n, item))
    ensures done && old(AllConsistent(nodes, made)) && old(Narrow(n.Summary())) ==> AllConsistent(nodes, made + {item})
  {
    hide Genuine, Fold32, Narrow;
    done := false;
    if n.Takes(item) {
      ghost var fine := AllConsistent(nodes, made);
      if fine {
        AllMore(nodes, item, made);
        KeyForm(n, item, made);
      }
      done := n.FoldData(item, made);
      if fine && done && old(Narrow(n.Summary())) { KeyForm(n, item, made + {item}); }
    }
  }

  lemma AddedConsistent(n: AccessNode, item: Access, made: set<Access>)
    requires n.Takes(item) && n.Consistent(item, {item})
    ensures n.Consistent(n.Key(), made + {item})
  {
    forall k | 0 <= k < n.Summary().count ensures item.(address := Element(n.Summary(), k)) in made + {item} {
      assert item.(address := Element(n.Summary(), k)) in {item};
    }
    KeyForm(n, item, made + {item});
  }

  lemma GenuineRegular(p: Progression, of: Access, made: set<Access>)
    requires Genuine(p, of, made)
    ensures Regular(p)
  {}

  // ---------- any sequence of accesses ----------

  /** The accesses of one type, at one place, under one set of locks lie less than 2^32 apart. */
  ghost predicate Near(made: set<Access>) {
    forall x, y :: x in made && y in made && x.(address := y.address) == y ==> x.address + 128 < y.address + TWO32
  }

  /** Then no summary outgrows its 32-bit arithmetic. */
  lemma NearNarrow(n: AccessNode, made: set<Access>)
    requires n.Consistent(n.Key(), made) && Near(made)
    ensures Narrow(n.Summary())
  {
    var p := n.Summary();
    var x, y := n.Key().(address := Element(p, p.count - 1)), n.Key().(address := Element(p, 0));
    assert x in made && y in made && x.(address := y.address) == y;
    assert (p.count - 1) * p.diff < TWO32 - 128;
    if p.diff > 0 { MulGrows(p.diff, p.count - 1); }
  }

  lemma AllNarrow(path: seq<AccessNode>, nodes: set<AccessNode>, made: set<Access>)
    requires AllConsistent(nodes, made) && Near(made) && forall n :: n in path ==> n in nodes
    ensures forall k :: 0 <= k < |path| ==> Narrow(path[k].Summary())
  {
    forall k | 0 <= k < |path| ensures Narrow(path[k].Summary()) { NearNarrow(path[k], made); }
  }

  lemma NearFewer(made: set<Access>, all: set<Access>)
    requires Near(all) && made <= all
    ensures Near(made)
  {}

  /** At the i-th access, the positions, among the n nodes so far, of those on the way down,
      which starts at the root if there is one. */
  ghost predicate Paths(route: (nat, nat) -> seq<nat>) {
    forall i: nat, n: nat :: Positions(route(i, n), n) && (n > 0 ==> route(i, n) != [])
  }

  predicate Positions(path: seq<nat>, n: nat) {
    forall j :: 0 <= j < |path| ==> path[j] < n
  }

  function Pick(nodes: seq<AccessNode>, path: seq<nat>): (r: seq<AccessNode>)
    requires Positions(path, |nodes|)
    ensures |r| == |path| && (forall j :: 0 <= j < |path| ==> r[j] == nodes[path[j]]) && forall n :: n in r ==> n in nodes
  {
    seq(|path|, j requires 0 <= j < |path| => nodes[path[j]])
  }

  ghost function NodesOf(nodes: seq<AccessNode>): set<AccessNode> {
    set n | n in nodes
  }

  /** A summary and what it is of. */
  datatype Kept = Kept(key: Access, p: Progression)

  ghost predicate Settles(k: Kept, item: Access) {
    item.(address := 0) == k.key && !Fold32(k.p, item.address).Elsewhere?
  }

  ghost function Settled(k: Kept, item: Access): Kept {
    var f := Fold32(k.p, item.address);
    if f.Extended? then k.(p := f.p) else k
  }

  /** What one access does: the first summary on the way down that takes it, or a new one. */
  ghost function Taking(kept: seq<Kept>, path: seq<nat>, item: Access): seq<Kept>
    requires Positions(path, |kept|)
  {
    if path == [] then kept + [Kept(item.(address := 0), Progression(item.address, 1, 0))]
    else if Settles(kept[path[0]], item) then kept[path[0] := Settled(kept[path[0]], item)]
    else Taking(kept, path[1..], item)
  }

  ghost function Summaries(items: seq<Access>, route: (nat, nat) -> seq<nat>): seq<Kept>
    requires Paths(route)
  {
    if items == [] then []
    else
      var n := |items| - 1;
      var kept := Summaries(items[..n], route);
      Taking(kept, route(n, |kept|), items[n])
  }

  lemma {:induction false} TakingIs(kept: seq<Kept>, path: seq<nat>, item: Access, k: nat)
    requires Positions(path, |kept|) && k <= |path|
    requires (forall j :: 0 <= j < k ==> !Settles(kept[path[j]], item)) && (k < |path| ==> Settles(kept[path[k]], item))
    ensures Taking(kept, path, item) ==
      if k < |path| then kept[path[k] := Settled(kept[path[k]], item)]
      else kept + [Kept(item.(address := 0), Progression(item.address, 1, 0))]
    decreases k
  {
    if k > 0 { TakingIs(kept, path[1..], item, k - 1); }
  }

  ghost function View(nodes: seq<AccessNode>): (r: seq<Kept>)
    reads nodes
    ensures |r| == |nodes| && forall j :: 0 <= j < |nodes| ==> r[j] == Kept(nodes[j].Key(), nodes[j].Summary())
  {
    seq(|nodes|, j requires 0 <= j < |nodes| reads nodes => Kept(nodes[j].Key(), nodes[j].Summary()))
  }

  lemma Seen(n: AccessNode, item: Access)
    ensures Settles(Kept(n.Key(), n.Summary()), item) <==> !Passes(n, item)
    ensures Settled(Kept(n.Key(), n.Summary()), item) == Kept(n.Key(), Taken(n, item))
  {}

  ghost predicate Apart(nodes: seq<AccessNode>) {
    forall i, j :: 0 <= i < j < |nodes| ==> nodes[i] != nodes[j]
  }

  ghost function Made(items: seq<Access>): set<Access> {
    set x | x in items
  }

  lemma MadeMore(items: seq<Access>, i: nat)
    requires i < |items|
    ensures Made(items[..i + 1]) == Made(items[..i]) + {items[i]} && Made(items[..i]) <= Made(items)
  {
    assert items[..i + 1] == items[..i] + [items[i]];
    forall x | x in items[..i] ensures x in items {}
  }

  lemma NodesMore(nodes: seq<AccessNode>, x: AccessNode)
    ensures NodesOf(nodes + [x]) == NodesOf(nodes) + {x}
  {}

  /** Any sequence of `_insert_data` on an empty tree, whichever way each descent takes.  If
      accesses of one kind lie close together, every summary stands for accesses that were
      made, and for nothing else. */
  method InsertAll(items: seq<Access>, route: (nat, nat) -> seq<nat>) returns (nodes: seq<AccessNode>)
    requires Paths(route)
    ensures fresh(NodesOf(nodes)) && Apart(nodes) && View(nodes) == Summaries(items, route)
    ensures Near(Made(items)) ==> AllConsistent(NodesOf(nodes), Made(items))
    ensures |nodes| <= |items| && (items != [] ==> nodes != [])
  {
    hide Near, Made, AllConsistent, Narrow, Summaries, Fold32;
    nodes := [];
    var i := 0;
    NothingMade(items, route);
    while i < |items|
      invariant |nodes| <= i <= |items| && (i > 0 ==> nodes != []) && fresh(NodesOf(nodes))
      invariant Apart(nodes) && View(nodes) == Summaries(items[..i], route)
      invariant Near(Made(items)) ==> AllConsistent(NodesOf(nodes), Made(items[..i]))
    {
      nodes := InsertOne(nodes, items, i, route);
      i := i + 1;
    }
    assert items[..i] == items;
  }

  /** The i-th of them. */
  method InsertOne(nodes0: seq<AccessNode>, items: seq<Access>, i: nat, route: (nat,
                   nat) -> seq<nat>) returns (nodes: seq<AccessNode>)
    requires i < |items| && Paths(route) && Apart(nodes0) && View(nodes0) == Summaries(items[..i], route)
    modifies NodesOf(nodes0)
    ensures 0 < |nodes| <= |nodes0| + 1 && Apart(nodes) && View(nodes) == Summaries(items[..i + 1], route)
    ensures fresh(NodesOf(nodes) - NodesOf(nodes0))
    ensures Near(Made(items)) && old(AllConsistent(NodesOf(nodes0), Made(items[..i]))) ==>
      AllConsistent(NodesOf(nodes), Made(items[..i + 1]))
  {
    hide Near, Made, AllConsistent, Narrow, Summaries, Settles, Settled, Taking;
    MadeMore(items, i);
    var positions := route(i, |nodes0|);
    var path := Pick(nodes0, positions);
    if Near(Made(items)) && AllConsistent(NodesOf(nodes0), Made(items[..i])) {
      NearFewer(Made(items[..i]), Made(items));
      AllNarrow(path, NodesOf(nodes0), Made(items[..i]));
    }
    ghost var kept := View(nodes0);
    forall j | 0 <= j < |path|
      ensures Settles(kept[positions[j]], items[i]) <==> !Passes(path[j], items[i])
      ensures Settled(kept[positions[j]], items[i]) == Kept(path[j].Key(), Taken(path[j], items[i]))
    {
      Seen(path[j], items[i]);
    }
    var added;
    ghost var k;
    added, k := InsertData(path, items[i], NodesOf(nodes0), Made(items[..i]));
    TakingIs(kept, positions, items[i], k);
    SummariesMore(items, i, route);
    nodes := if added == null then nodes0 else nodes0 + [added];
    if added != null { NodesMore(nodes0, added); }
    assert View(nodes) == Taking(kept, positions, items[i]);
  }

  lemma SummariesMore(items: seq<Access>, i: nat, route: (nat, nat) -> seq<nat>)
    requires i < |items| && Paths(route)
    ensures var kept := Summaries(items[..i], route); Summaries(items[..i + 1], route) == Taking(kept, route(i, |kept|), items[i])
  {
    assert items[..i + 1][..i] == items[..i];
  }

  lemma NothingMade(items: seq<Access>, route: (nat, nat) -> seq<nat>)
    requires Paths(route)
    ensures AllConsistent(NodesOf([]), Made(items[..0])) && View([]) == Summaries(items[..0], route)
  {}

  // ---------- trees as values ----------

  class Interval {
    const sizeType: nat
    const pc: nat
    const locks: set<nat>
    var address: nat
    var count: nat
    var diff: nat
    var max: nat
    var left: Interval?
    var right: Interval?

    constructor (item: Access)
      ensures sizeType == item.sizeType && pc == item.pc && locks == item.locks
      ensures address == item.address && count == 1 && diff == 0 && max == item.address && left == null && right == null
    {
      sizeType, pc, locks := item.sizeType, item.pc, item.locks;
      address, count, diff, max, left, right := item.address, 1, 0, item.address, null, null;
    }
  }

  datatype Tree = Leaf | Tree(left: Tree, n: Interval, p: Progression, max: nat, right: Tree)

  ghost function Root(t: Tree): Interval? {
    if t.Leaf? then null else t.n
  }

  ghost predicate SameKey(n: Interval, item: Access) {
    item.sizeType == n.sizeType && item.pc == n.pc && item.locks == n.locks
  }

  ghost function KeyOf(n: Interval): Access {
    Access(0, n.sizeType, n.pc, n.locks)
  }

  function Max(a: nat, b: int): nat {
    if b > a then b else a
  }

  ghost function Insert(t: Tree, item: Access, leaf: Interval): Tree {
    match t
    case Leaf => Tree(Leaf, leaf, Progression(item.address, 1, 0), item.address, Leaf)
    case Tree(l, n, p, max, r) =>
      var max' := Max(max, item.address);
      var f := Fold(p, item.address);
      if SameKey(n, item) && f.Extended? then Tree(l, n, f.p, Max(max', f.p.End()), r)
      else if SameKey(n, item) && f.Dropped? then Tree(l, n, p, max', r)
      else if p.address < item.address then Tree(l, n, p, max', Insert(r, item, leaf))
      else Tree(Insert(l, item, leaf), n, p, max', r)
  }

  /** One insertion after another into an empty tree; `leaves` are the nodes that the accesses
      are folded into or made. */
  ghost function Inserts(items: seq<Access>, leaves: seq<Interval>): Tree
    requires |items| == |leaves|
  {
    if items == [] then Leaf
    else
      var n := |items| - 1;
      Insert(Inserts(items[..n], leaves[..n]), items[n], leaves[n])
  }

  ghost predicate SameKeys(items: seq<Access>, leaves: seq<Interval>) {
    |items| == |leaves| && forall i :: 0 <= i < |items| ==> SameKey(leaves[i], items[i])
  }

  /** Nothing in the tree is invented. */
  ghost predicate AllGenuine(t: Tree, made: set<Access>) {
    t.Tree? ==> Genuine(t.p, KeyOf(t.n), made) && AllGenuine(t.left, made) && AllGenuine(t.right, made)
  }

  /** The maxima bound the ends of all intervals below. */
  ghost predicate Bounded(t: Tree) {
    t.Tree? ==>
      && t.p.End() <= t.max && (t.left.Tree? ==> t.left.max <= t.max) && (t.right.Tree? ==> t.right.max <= t.max)
      && Bounded(t.left) && Bounded(t.right)
  }

  lemma {:induction false} AllGenuineMore(t: Tree, made: set<Access>, x: Access)
    requires AllGenuine(t, made)
    ensures AllGenuine(t, made + {x})
  {
    if t.Tree? {
      AllGenuineMore(t.left, made, x);
      AllGenuineMore(t.right, made, x);
    }
  }

  lemma GenuineKey(p: Progression, n: Interval, item: Access, made: set<Access>)
    requires SameKey(n, item)
    ensures Genuine(p, KeyOf(n), made) <==> Genuine(p, item, made)
  {
    forall k | 0 <= k < p.count ensures KeyOf(n).(address := Element(p, k)) == item.(address := Element(p, k)) {}
  }

  /** An insertion invents nothing and keeps the maxima. */
  lemma {:induction false} InsertKeeps(t: Tree, item: Access, leaf: Interval, made: set<Access>)
    requires AllGenuine(t, made) && Bounded(t) && SameKey(leaf, item)
    ensures AllGenuine(Insert(t, item, leaf), made + {item}) && Bounded(Insert(t, item, leaf))
    ensures Insert(t, item, leaf).Tree?
    ensures Insert(t, item, leaf).max == if t.Tree? then Max(t.max, item.address) else item.address
  {
    if t.Leaf? {
      var p := Progression(item.address, 1, 0);
      assert Element(p, 0) == item.address;
      GenuineKey(p, leaf, item, made + {item});
    } else {
      AllGenuineMore(t, made, item);
      var f := Fold(t.p, item.address);
      if SameKey(t.n, item) && f.Extended? {
        GenuineKey(t.p, t.n, item, made);
        FoldGenuine(t.p, item, made);
        GenuineKey(f.p, t.n, item, made + {item});
      } else if !(SameKey(t.n, item) && f.Dropped?) {
        if t.p.address < item.address {
          InsertKeeps(t.right, item, leaf, made);
        } else {
          InsertKeeps(t.left, item, leaf, made);
        }
      }
    }
  }

  // ---------- intersection ----------

  /** What a reported pair holds of a node. */
  datatype Summary = Summary(p: Progression, sizeType: nat, pc: nat, locks: set<nat>)

  ghost function SummaryOf(n: Interval, p: Progression): Summary {
    Summary(p, n.sizeType, n.pc, n.locks)
  }

  const UNSAFE_READ := 0
  const UNSAFE_WRITE := 1
  const ATOMIC_WRITE := 3

  /** `RACE`, on the low four bits of the type. */
  predicate Race(s: Summary, u: Summary) {
    var a, b := s.sizeType % 16, u.sizeType % 16;
    || a == UNSAFE_WRITE || b == UNSAFE_WRITE
    || (a == ATOMIC_WRITE && b == UNSAFE_READ) || (b == ATOMIC_WRITE && a == UNSAFE_READ)
  }

  /** The two summaries conflict, hold no lock in common, and their spans overlap. */
  predicate Hit(s: Summary, u: Summary) {
    Race(s, u) && s.locks * u.locks == {} && s.p.address <= u.p.End() && u.p.address <= s.p.End()
  }

  type Pairs = multiset<(Summary, Summary)>

  /** All hits of one summary in a tree, found without pruning. */
  ghost function HitsOf(t: Tree, u: Summary): Pairs {
    if t.Leaf? then multiset{}
    else (if Hit(SummaryOf(t.n, t.p), u) then multiset{(SummaryOf(t.n, t.p), u)} else multiset{}) + HitsOf(t.left, u) + HitsOf(t.right, u)
  }

  /** All hits between two trees. */
  ghost function AllHits(t: Tree, u: Tree): Pairs {
    if u.Leaf? then multiset{}
    else HitsOf(t, SummaryOf(u.n, u.p)) + AllHits(t, u.left) + AllHits(t, u.right)
  }

  /** A subtree whose maximum is too small has no hit. */
  lemma {:induction false} Pruned(t: Tree, u: Summary)
    requires Bounded(t) && (t.Tree? ==> t.max < u.p.address)
    ensures HitsOf(t, u) == multiset{}
  {
    if t.Tree? {
      Pruned(t.left, u);
      Pruned(t.right, u);
    }
  }

  /** The bound in terms of what is below: no interval ends after the maximum. */
  ghost predicate Within(t: Tree, end: int) {
    t.Tree? ==> t.p.End() <= end && Within(t.left, end) && Within(t.right, end)
  }

  lemma {:induction false} BoundedMeans(t: Tree, end: int)
    requires Bounded(t) && (t.Tree? ==> t.max <= end)
    ensures Within(t, end)
  {
    if t.Tree? {
      BoundedMeans(t.left, end);
      BoundedMeans(t.right, end);
    }
  }
}
