/**
 The recorder's open-addressing set of 64-bit keys: linear probing with tombstones and
 one probe-length cap for the whole table.
 */
module HashSet {
  import opened Powers

  datatype State = INACTIVE | ACTIVE | FILLED

  // ---------- probe sequences ----------

  /** The bucket that is tried `offset` steps after the first. */
  ghost function Probe(key: nat, offset: nat, n: nat): (b: nat)
    requires n > 0
    ensures b < n
  {
    (key + offset) % n
  }

  /** How far a bucket is from the start of a key's probe sequence. */
  ghost function Dist(key: nat, b: nat, n: nat): (d: nat)
    requires b < n
    ensures d < n
  {
    (b - key) % n
  }

  lemma ProbeDist(key: nat, b: nat, n: nat)
    requires b < n
    ensures Probe(key, Dist(key, b, n), n) == b
  {
    var d, q := Dist(key, b, n), (b - key) / n;
    assert key + d == -q * n + b;
    DivUnique(key + d, -q, b, n);
  }

  lemma DistProbe(key: nat, offset: nat, n: nat)
    requires offset < n
    ensures Dist(key, Probe(key, offset, n), n) == offset
  {
    var b, q := Probe(key, offset, n), (key + offset) / n;
    assert b - key == -q * n + offset;
    DivUnique(b - key, -q, offset, n);
  }

  // ---------- tables as values ----------

  datatype Table = Table(states: seq<State>, keys: seq<nat>)

  ghost predicate Holds(t: Table, b: int, key: nat)
    requires |t.states| == |t.keys|
  {
    0 <= b < |t.states| && t.states[b] == FILLED && t.keys[b] == key
  }

  ghost function Contents(t: Table): set<nat>
    requires |t.states| == |t.keys|
  {
    set b | 0 <= b < |t.states| && t.states[b] == FILLED :: t.keys[b]
  }

  lemma Find(t: Table, key: nat) returns (b: nat)
    requires |t.states| == |t.keys| && key in Contents(t)
    ensures Holds(t, b, key)
  {
    b :| 0 <= b < |t.states| && t.states[b] == FILLED && t.keys[b] == key;
  }

  lemma HoldsIn(t: Table, b: int, key: nat)
    requires |t.states| == |t.keys| && Holds(t, b, key)
    ensures key in Contents(t)
  {}

  ghost function Filled(states: seq<State>): nat {
    if states == [] then 0 else Filled(states[..|states| - 1]) + if states[|states| - 1] == FILLED then 1 else 0
  }

  /** No key is in two buckets. */
  ghost predicate Distinct(t: Table)
    requires |t.states| == |t.keys|
  {
    forall b, c :: 0 <= b < c < |t.states| && t.states[b] == FILLED && t.states[c] == FILLED ==> t.keys[b] != t.keys[c]
  }

  /** A probe for `key` gets to bucket `b`: it is within the cap, and no bucket before it
      has never been used. */
  ghost predicate Reaches(t: Table, key: nat, b: nat, cap: int)
    requires |t.states| == |t.keys| && b < |t.states|
  {
    var n := |t.states|;
    Dist(key, b, n) <= cap && forall o :: 0 <= o < Dist(key, b, n) ==> t.states[Probe(key, o, n)] != INACTIVE
  }

  ghost predicate Chained(t: Table, cap: int)
    requires |t.states| == |t.keys|
  {
    forall b :: 0 <= b < |t.states| && t.states[b] == FILLED ==> Reaches(t, t.keys[b], b, cap)
  }

  ghost predicate WellFormed(t: Table, cap: int) {
    |t.states| == |t.keys| && Distinct(t) && Chained(t, cap) && -1 <= cap && (cap < |t.states| || cap == -1)
  }

  // ---------- counting ----------

  lemma {:induction false} FilledAt(states: seq<State>, b: nat, s: State)
    requires b < |states| && states[b] != FILLED
    ensures Filled(states[b := s]) == Filled(states) + if s == FILLED then 1 else 0
    decreases |states|
  {
    var m := |states| - 1;
    if b < m {
      FilledAt(states[..m], b, s);
      assert states[b := s][..m] == states[..m][b := s];
    } else {
      assert states[b := s][..m] == states[..m];
    }
  }

  lemma {:induction false} FilledMax(states: seq<State>)
    ensures Filled(states) <= |states|
    ensures (forall b :: 0 <= b < |states| ==> states[b] == FILLED) ==> Filled(states) == |states|
    ensures (forall b :: 0 <= b < |states| ==> states[b] != FILLED) ==> Filled(states) == 0
  {
    if states != [] {
      var rest := states[..|states| - 1];
      FilledMax(rest);
      assert forall b :: 0 <= b < |rest| ==> rest[b] == states[b];
    }
  }

  ghost function Front(t: Table): Table
    requires |t.states| == |t.keys| > 0
  {
    Table(t.states[..|t.states| - 1], t.keys[..|t.keys| - 1])
  }

  /** The number of filled buckets is the number of keys. */
  lemma {:induction false} CountIsSize(t: Table)
    requires |t.states| == |t.keys| && Distinct(t)
    ensures |Contents(t)| == Filled(t.states)
    decreases |t.states|
  {
    if t.states != [] {
      var f, m := Front(t), |t.states| - 1;
      CountIsSize(f);
      FrontContents(t);
      if t.states[m] == FILLED {
        assert t.keys[m] !in Contents(f);
      }
    }
  }

  lemma FrontContents(t: Table)
    requires |t.states| == |t.keys| > 0
    ensures var m := |t.states| - 1;
      Contents(t) == Contents(Front(t)) + if t.states[m] == FILLED then {t.keys[m]} else {}
  {
    var f, m := Front(t), |t.states| - 1;
    forall k | k in Contents(t) ensures k in Contents(f) || (t.states[m] == FILLED && k == t.keys[m]) {
      var b := Find(t, k);
      if b < m { HoldsIn(f, b, k); }
    }
    forall k | k in Contents(f) ensures k in Contents(t) {
      var b := Find(f, k);
      HoldsIn(t, b, k);
    }
  }

  // ---------- what an operation does to a table ----------

  ghost function Fill(t: Table, b: nat, key: nat): Table
    requires |t.states| == |t.keys| && b < |t.states|
  {
    Table(t.states[b := FILLED], t.keys[b := key])
  }

  lemma FillContents(t: Table, b: nat, key: nat)
    requires |t.states| == |t.keys| && b < |t.states| && t.states[b] != FILLED
    ensures Contents(Fill(t, b, key)) == Contents(t) + {key}
  {
    var t' := Fill(t, b, key);
    HoldsIn(t', b, key);
    forall k | k in Contents(t') ensures k == key || k in Contents(t) {
      var c := Find(t', k);
      if c != b { HoldsIn(t, c, k); }
    }
    forall k | k in Contents(t) ensures k in Contents(t') {
      var c := Find(t, k);
      HoldsIn(t', c, k);
    }
  }

  lemma FillDistinct(t: Table, b: nat, key: nat)
    requires |t.states| == |t.keys| && b < |t.states| && Distinct(t) && key !in Contents(t)
    ensures Distinct(Fill(t, b, key))
  {
    var t' := Fill(t, b, key);
    forall c, d | 0 <= c < d < |t.states| && t'.states[c] == FILLED && t'.states[d] == FILLED ensures t'.keys[c] != t'.keys[d] {
      if c == b { HoldsIn(t, d, t.keys[d]); }
      if d == b { HoldsIn(t, c, t.keys[c]); }
    }
  }

  /** Filling a free bucket that a probe reaches adds the key. */
  lemma FillAdds(t: Table, cap: int, b: nat, key: nat, cap': int)
    requires WellFormed(t, cap) && b < |t.states| && t.states[b] != FILLED && key !in Contents(t)
    requires cap <= cap' < |t.states| && Reaches(t, key, b, cap')
    ensures WellFormed(Fill(t, b, key), cap') && Contents(Fill(t, b, key)) == Contents(t) + {key}
    ensures Filled(Fill(t, b, key).states) == Filled(t.states) + 1
  {
    var t' := Fill(t, b, key);
    FilledAt(t.states, b, FILLED);
    FillContents(t, b, key);
    FillDistinct(t, b, key);
    hide Contents, Distinct, Filled;
    forall c | 0 <= c < |t.states| && t'.states[c] == FILLED ensures Reaches(t', t'.keys[c], c, cap') {
    }
  }

  /** Leaving a tombstone removes the key. */
  lemma TombstoneRemoves(t: Table, cap: int, b: nat, key: nat)
    requires WellFormed(t, cap) && b < |t.states| && Holds(t, b, key)
    ensures var t' := Table(t.states[b := ACTIVE], t.keys);
      WellFormed(t', cap) && Contents(t') == Contents(t) - {key} && Filled(t'.states) == Filled(t.states) - 1
  {
    var t' := Table(t.states[b := ACTIVE], t.keys);
    forall k | k in Contents(t') ensures k in Contents(t) && k != key {
      var c := Find(t', k);
      HoldsIn(t, c, k);
    }
    forall k | k in Contents(t) && k != key ensures k in Contents(t') {
      var c := Find(t, k);
      HoldsIn(t', c, k);
    }
    assert t'.states[b := FILLED] == t.states;
    FilledAt(t'.states, b, FILLED);
    assert Distinct(t');
    hide Contents, Distinct, Filled, Holds;
    forall c | 0 <= c < |t.states| && t'.states[c] == FILLED ensures Reaches(t', t'.keys[c], c, cap) {
    }
  }

  /** The search has got to `offset` without meeting the key or a never-used bucket. */
  ghost predicate Passed(t: Table, key: nat, offset: nat)
    requires |t.states| == |t.keys| > 0
  {
    var n := |t.states|;
    forall o :: 0 <= o < offset ==> t.states[Probe(key, o, n)] != INACTIVE && !Holds(t, Probe(key, o, n), key)
  }

  /** A search that meets a never-used bucket or passes the cap has proved absence. */
  lemma AbsentIf(t: Table, cap: int, key: nat, offset: nat)
    requires WellFormed(t, cap) && |t.states| > 0 && Passed(t, key, offset)
    requires offset > cap || t.states[Probe(key, offset, |t.states|)] == INACTIVE
    ensures key !in Contents(t)
  {
    var n := |t.states|;
    if key in Contents(t) {
      var b := Find(t, key);
      ProbeDist(key, b, n);
      assert false;
    }
  }

  /** Every bucket up to `offset` is taken. */
  ghost predicate FullRun(t: Table, key: nat, offset: nat)
    requires |t.states| > 0
  {
    forall o :: 0 <= o < offset ==> t.states[Probe(key, o, |t.states|)] == FILLED
  }

  lemma FullRunMore(t: Table, key: nat, offset: nat)
    requires |t.states| > 0 && FullRun(t, key, offset) && t.states[Probe(key, offset, |t.states|)] == FILLED
    ensures FullRun(t, key, offset + 1)
  {}

  lemma PassedReaches(t: Table, key: nat, offset: nat, at: nat, cap: int)
    requires |t.states| == |t.keys| && at < |t.states| && at <= cap && at <= offset && Passed(t, key, offset)
    ensures Reaches(t, key, Probe(key, at, |t.states|), cap)
  {
    ReachesAt(t, key, at, cap);
  }

  lemma FullReaches(t: Table, key: nat, offset: nat)
    requires |t.states| == |t.keys| && offset < |t.states| && FullRun(t, key, offset)
    ensures Reaches(t, key, Probe(key, offset, |t.states|), offset)
  {
    ReachesAt(t, key, offset, offset);
  }

  /** As long as some bucket is free, probing finds it within one round. */
  lemma RoomLeft(t: Table, key: nat, offset: nat)
    requires |t.states| == |t.keys| > 0 && Filled(t.states) < |t.states|
    requires FullRun(t, key, offset)
    ensures offset < |t.states|
  {
    var n := |t.states|;
    if offset >= n {
      forall b | 0 <= b < n ensures t.states[b] == FILLED {
        ProbeDist(key, b, n);
        assert t.states[Probe(key, Dist(key, b, n), n)] == FILLED;
      }
      FilledMax(t.states);
    }
  }

  lemma ReachesAt(t: Table, key: nat, offset: nat, cap: int)
    requires |t.states| == |t.keys| && offset < |t.states| && offset <= cap
    requires forall o :: 0 <= o < offset ==> t.states[Probe(key, o, |t.states|)] != INACTIVE
    ensures Reaches(t, key, Probe(key, offset, |t.states|), cap)
  {
    DistProbe(key, offset, |t.states|);
  }

  // ---------- histories ----------

  datatype Call = Insert(key: nat) | Delete(key: nat) | Forget | Prepare(numElems: nat)

  ghost function Required(numElems: nat): nat {
    numElems + numElems / 2 + 1
  }

  ghost function Grown(buckets: nat, numElems: nat): nat {
    if Required(numElems) <= buckets then buckets else NewSize(Required(numElems))
  }

  /** What a plain set does, and what it answers. */
  ghost function Apply(s: set<nat>, c: Call): set<nat> {
    match c
    case Insert(key) => s + {key}
    case Delete(key) => s - {key}
    case Forget => {}
    case Prepare(_) => s
  }

  ghost function Answer(s: set<nat>, c: Call): bool {
    match c
    case Insert(key) => key !in s
    case Delete(key) => key in s
    case Forget => true
    case Prepare(_) => true
  }

  /** What the recorder guarantees: a free bucket for every new key. */
  ghost predicate Affordable(s: set<nat>, buckets: nat, c: Call) {
    match c
    case Insert(key) => buckets > 0 && (|s| < buckets || key in s)
    case Prepare(numElems) => numElems < 0x4000_0000_0000_0000
    case Delete(_) => true
    case Forget => true
  }

  ghost function BucketsAfter(buckets: nat, c: Call): nat {
    if c.Prepare? then Grown(buckets, c.numElems) else buckets
  }

  ghost function Applied(s: set<nat>, calls: seq<Call>): set<nat>
    decreases |calls|
  {
    if calls == [] then s else Applied(Apply(s, calls[0]), calls[1..])
  }

  ghost function Answers(s: set<nat>, calls: seq<Call>): seq<bool>
    decreases |calls|
  {
    if calls == [] then [] else [Answer(s, calls[0])] + Answers(Apply(s, calls[0]), calls[1..])
  }

  ghost predicate AllAffordable(s: set<nat>, buckets: nat, calls: seq<Call>)
    decreases |calls|
  {
    calls == [] ||
    (Affordable(s, buckets, calls[0]) && AllAffordable(Apply(s, calls[0]), BucketsAfter(buckets, calls[0]), calls[1..]))
  }

  // ---------- the class ----------

  const TWO64 := 0x1_0000_0000_0000_0000

  class Set {
    var states: array<State>
    var keys: array<nat>
    var numBuckets: nat
    var numFilled: nat
    var maxProbeLength: int
    var mask: int  // numBuckets - 1
    /** numBuckets == 2 to the power of this, once something is reserved. */
    ghost var exponent: nat

    ghost function View(): Table
      reads this, states, keys
    {
      Table(states[..], keys[..])
    }

    ghost predicate Shape()
      reads this
    {
      && states.Length == keys.Length == numBuckets
      && (numBuckets > 0 ==> mask == numBuckets - 1 && exponent <= 64 && numBuckets == Pow2(exponent))
    }

    ghost predicate Valid()
      reads this, states, keys
    {
      Shape() && WellFormed(View(), maxProbeLength) && numFilled == Filled(states[..])
    }

    ghost function Elements(): set<nat>
      reads this, states, keys
      requires Shape()
    {
      Contents(View())
    }

    constructor ()
      ensures Valid() && Elements() == {} && numBuckets == 0 && fresh(states) && fresh(keys)
    {
      states, keys := new State[0], new nat[0];
      numBuckets, numFilled, maxProbeLength, mask, exponent := 0, 0, -1, 0, 0;
    }

    /** `size()` */
    method Size() returns (n: nat)
      requires Valid()
      ensures n == |Elements()|
    {
      CountIsSize(View());
      n := numFilled;
    }

    /** `(key + offset) & _mask`, in 64-bit arithmetic. */
    method Bucket(key: nat, offset: nat) returns (b: nat)
      requires Shape() && numBuckets > 0
      ensures b == Probe(key, offset, numBuckets)
    {
      WrapThenMask(key + offset, exponent);
      b := (key + offset) % TWO64 % (mask + 1);
    }

    /** `find_filled_bucket`: -1 when there is none. */
    method FindFilledBucket(key: nat) returns (bucket: int)
      requires Valid()
      ensures bucket == -1 ==> key !in Elements()
      ensures bucket != -1 ==> Holds(View(), bucket, key) && key in Elements()
    {
      if numFilled == 0 {
        CountIsSize(View());
        return -1;
      }
      if numBuckets == 0 { assert false; }
      var offset := 0;
      while offset <= maxProbeLength
        invariant 0 <= offset && Passed(View(), key, offset)
      {
        bucket := Bucket(key, offset);
        if states[bucket] == FILLED {
          if keys[bucket] == key {
            HoldsIn(View(), bucket, key);
            return;
          }
        } else if states[bucket] == INACTIVE {
          AbsentIf(View(), maxProbeLength, key, offset);
          return -1;
        }
        offset := offset + 1;
      }
      AbsentIf(View(), maxProbeLength, key, offset);
      return -1;
    }

    /** `contains` */
    method Contains(key: nat) returns (b: bool)
      requires Valid()
      ensures b <==> key in Elements()
    {
      var bucket := FindFilledBucket(key);
      b := bucket != -1;
    }

    /** `find_or_allocate`: the bucket of the key, or a free bucket where a search will find
        it, under a cap that may have grown. */
    method FindOrAllocate(key: nat) returns (bucket: nat)
      requires Valid() && numBuckets > 0 && (|Elements()| < numBuckets || key in Elements())
      modifies this`maxProbeLength
      ensures Shape() && old(maxProbeLength) <= maxProbeLength < numBuckets
      ensures bucket < numBuckets
      ensures states[bucket] == FILLED ==> Holds(View(), bucket, key) && maxProbeLength == old(maxProbeLength)
      ensures states[bucket] != FILLED ==> key !in Elements() && Reaches(View(), key, bucket, maxProbeLength)
    {
      var hole, offset: nat := -1, 0;
      ghost var holeAt: nat, t := 0, View();
      CountIsSize(t);
      assert FullRun(t, key, 0) && Passed(t, key, 0) && maxProbeLength < numBuckets;
      hide Passed, FullRun, Probe, Reaches, WellFormed, Filled, Contents;
      while offset <= maxProbeLength
        invariant Passed(t, key, offset) && (hole == -1 ==> FullRun(t, key, offset)) && maxProbeLength == old(maxProbeLength)
        invariant hole != -1 ==> holeAt < offset && hole == Probe(key, holeAt, numBuckets) && states[hole] == ACTIVE
        invariant holeAt <= maxProbeLength || hole == -1
      {
        bucket := Bucket(key, offset);
        if states[bucket] == FILLED {
          if keys[bucket] == key {
            return;
          }
          if hole == -1 { FullRunMore(t, key, offset); }
        } else if states[bucket] == INACTIVE {
          AbsentIf(t, maxProbeLength, key, offset);
          PassedReaches(t, key, offset, offset, maxProbeLength);
          return;
        } else {
          if hole == -1 {
            hole, holeAt := bucket, offset;
          }
        }
        offset := offset + 1;
      }
      AbsentIf(t, maxProbeLength, key, offset);
      if hole != -1 {
        PassedReaches(t, key, offset, holeAt, maxProbeLength);
        return hole;
      }
      bucket := TakeFree(key, offset);
    }

    /** Probing on beyond the cap: the first free bucket sets the new cap. */
    method TakeFree(key: nat, from: nat) returns (bucket: nat)
      requires Shape() && numBuckets > 0 && maxProbeLength < from && Filled(states[..]) < numBuckets && FullRun(View(), key, from)
      modifies this`maxProbeLength
      ensures Shape() && old(maxProbeLength) <= maxProbeLength < numBuckets && bucket < numBuckets
      ensures states[bucket] != FILLED && Reaches(View(), key, bucket, maxProbeLength)
    {
      var offset := from;
      ghost var t := View();
      hide FullRun, Probe, Reaches, Filled;
      RoomLeft(t, key, offset);
      while true
        invariant offset < numBuckets && maxProbeLength == old(maxProbeLength) < offset && FullRun(t, key, offset)
        decreases numBuckets - offset
      {
        bucket := Bucket(key, offset);
        if states[bucket] != FILLED {
          maxProbeLength := offset;
          FullReaches(t, key, offset);
          return;
        }
        FullRunMore(t, key, offset);
        offset := offset + 1;
        RoomLeft(t, key, offset);
      }
    }

    /** `check_insert` */
    method CheckInsert(key: nat) returns (inserted: bool)
      requires Valid() && numBuckets > 0 && (|Elements()| < numBuckets || key in Elements())
      modifies this, states, keys
      ensures Valid() && states == old(states) && keys == old(keys) && numBuckets == old(numBuckets)
      ensures inserted <==> key !in old(Elements())
      ensures Elements() == old(Elements()) + {key}
    {
      ghost var t, cap := View(), maxProbeLength;
      var bucket := FindOrAllocate(key);
      if states[bucket] == FILLED {
        HoldsIn(t, bucket, key);
        assert View() == t;
        return false;
      }
      FillAdds(t, cap, bucket, key, maxProbeLength);
      states[bucket] := FILLED;
      keys[bucket] := key;
      assert View() == Fill(t, bucket, key);
      numFilled := numFilled + 1;
      return true;
    }

    /** `erase` */
    method Erase(key: nat) returns (erased: bool)
      requires Valid()
      modifies this`numFilled, states
      ensures Valid() && states == old(states) && keys == old(keys) && numBuckets == old(numBuckets)
      ensures erased <==> key in old(Elements())
      ensures Elements() == old(Elements()) - {key}
    {
      var bucket := FindFilledBucket(key);
      if bucket == -1 {
        return false;
      }
      ghost var t := View();
      TombstoneRemoves(t, maxProbeLength, bucket, key);
      states[bucket] := ACTIVE;
      assert View() == Table(t.states[bucket := ACTIVE], t.keys);
      numFilled := numFilled - 1;
      return true;
    }

    /** `clear`: tombstones stay. */
    method Clear()
      requires Valid()
      modifies this`numFilled, this`maxProbeLength, states
      ensures Valid() && states == old(states) && keys == old(keys) && numBuckets == old(numBuckets)
      ensures Elements() == {}
    {
      var bucket := 0;
      while bucket < numBuckets
        invariant bucket <= numBuckets
        invariant forall b :: 0 <= b < bucket ==> states[b] != FILLED
      {
        if states[bucket] == FILLED {
          states[bucket] := INACTIVE;
        }
        bucket := bucket + 1;
      }
      numFilled, maxProbeLength := 0, -1;
      FilledMax(states[..]);
    }

    /** `find_empty_bucket`, for a key that is known to be absent. */
    method FindEmptyBucket(key: nat) returns (bucket: nat)
      requires Valid() && numBuckets > 0 && |Elements()| < numBuckets && key !in Elements()
      modifies this`maxProbeLength
      ensures Shape() && old(maxProbeLength) <= maxProbeLength < numBuckets
      ensures bucket < numBuckets && states[bucket] != FILLED && Reaches(View(), key, bucket, maxProbeLength)
    {
      var offset: nat := 0;
      ghost var t := View();
      CountIsSize(t);
      assert FullRun(t, key, 0) && maxProbeLength < numBuckets;
      hide FullRun, Probe, Reaches, WellFormed, Filled, Contents;
      while true
        invariant offset < numBuckets && FullRun(t, key, offset) && maxProbeLength == old(maxProbeLength)
        decreases numBuckets - offset
      {
        bucket := Bucket(key, offset);
        if states[bucket] != FILLED {
          FullReaches(t, key, offset);
          if offset > maxProbeLength {
            maxProbeLength := offset;
          }
          return;
        }
        FullRunMore(t, key, offset);
        offset := offset + 1;
        RoomLeft(t, key, offset);
      }
    }

    /** `reserve`: move every key into a larger table. */
    method Reserve(numElems: nat)
      requires Valid() && numElems < 0x4000_0000_0000_0000
      modifies this
      ensures Valid() && Elements() == old(Elements())
      ensures numBuckets >= numElems + numElems / 2 + 1 && numBuckets >= old(numBuckets)
      ensures (states == old(states) || fresh(states)) && (keys == old(keys) || fresh(keys))
      ensures numBuckets == Grown(old(numBuckets), numElems)
    {
      var required := numElems + numElems / 2 + 1;
      if required <= numBuckets {
        return;
      }
      var n;
      ghost var k;
      n, k := NewBuckets(required);
      var oldStates, oldKeys, oldBuckets := states, keys, numBuckets;
      ghost var t := View();
      Replace(n, k);
      Refill(oldStates, oldKeys, oldBuckets, t);
    }

    /** One call of the interface. */
    method Do(c: Call) returns (answer: bool)
      requires Valid() && Affordable(Elements(), numBuckets, c)
      modifies this, states, keys
      ensures Valid() && Elements() == Apply(old(Elements()), c) && answer == Answer(old(Elements()), c)
      ensures numBuckets == BucketsAfter(old(numBuckets), c)
      ensures (states == old(states) || fresh(states)) && (keys == old(keys) || fresh(keys))
    {
      hide Contents, WellFormed, Filled;
      answer := true;
      match c {
        case Insert(key) => answer := CheckInsert(key);
        case Delete(key) => answer := Erase(key);
        case Forget => Clear();
        case Prepare(numElems) => Reserve(numElems);
      }
    }

    /** Any run agrees with a plain set, in its answers and in what it leaves. */
    method DoAll(calls: seq<Call>) returns (answers: seq<bool>)
      requires Valid() && AllAffordable(Elements(), numBuckets, calls)
      modifies this, states, keys
      ensures Valid() && Elements() == Applied(old(Elements()), calls) && answers == Answers(old(Elements()), calls)
    {
      hide WellFormed, Filled, Contents, Affordable, Apply, Answer, BucketsAfter;
      answers := [];
      var i := 0;
      while i < |calls|
        invariant i <= |calls| && Valid() && AllAffordable(Elements(), numBuckets, calls[i..])
        invariant (states == old(states) || fresh(states)) && (keys == old(keys) || fresh(keys))
        invariant Applied(Elements(), calls[i..]) == Applied(old(Elements()), calls)
        invariant answers + Answers(Elements(), calls[i..]) == Answers(old(Elements()), calls)
      {
        assert calls[i..][0] == calls[i] && calls[i..][1..] == calls[i + 1..];
        ghost var before, rest := Elements(), Answers(Apply(Elements(), calls[i]), calls[i + 1..]);
        var answer := Do(calls[i]);
        assert answers + ([answer] + rest) == answers + [answer] + rest;
        answers, i := answers + [answer], i + 1;
      }
      assert calls[i..] == [];
    }

    /** A new table, without any key. */
    method Replace(n: nat, ghost k: nat)
      requires n > 0 && n == Pow2(k) && k <= 64
      modifies this
      ensures Valid() && Elements() == {} && numBuckets == n && fresh(states) && fresh(keys)
    {
      hide WellFormed, Contents, Filled;
      states, keys := new State[n](_ => INACTIVE), new nat[n](_ => 0);
      numFilled, numBuckets, mask, maxProbeLength, exponent := 0, n, n - 1, -1, k;
      NoKeys(View());
    }

    method Refill(oldStates: array<State>, oldKeys: array<nat>, oldBuckets: nat, ghost t: Table)
      requires Valid() && Elements() == {} && oldBuckets <= numBuckets && oldBuckets == oldStates.Length == oldKeys.Length
      requires t == Table(oldStates[..], oldKeys[..]) && Distinct(t)
      requires oldStates != states && oldKeys != keys
      modifies this`maxProbeLength, this`numFilled, states, keys
      ensures Valid() && Elements() == Contents(t)
    {
      var src := 0;
      assert Contents(Prefix(t, 0)) == {};
      hide WellFormed, Distinct, Contents, Filled, Shape, Prefix;
      while src < oldBuckets
        invariant src <= oldBuckets <= numBuckets && Valid()
        invariant Elements() == Contents(Prefix(t, src))
        invariant oldStates[..] == t.states && oldKeys[..] == t.keys
      {
        PrefixMore(t, src);
        if oldStates[src] == FILLED {
          Move(oldKeys[src]);
        }
        src := src + 1;
      }
    }

    /** One key of the old table. */
    method Move(key: nat)
      requires Valid() && numBuckets > 0 && |Elements()| < numBuckets && key !in Elements()
      modifies this`maxProbeLength, this`numFilled, states, keys
      ensures Valid() && Elements() == old(Elements()) + {key}
    {
      hide WellFormed, Contents, Filled, Distinct, Reaches;
      ghost var v, cap := View(), maxProbeLength;
      var dst := FindEmptyBucket(key);
      FillAdds(v, cap, dst, key, maxProbeLength);
      states[dst] := FILLED;
      keys[dst] := key;
      assert View() == Fill(v, dst, key);
      numFilled := numFilled + 1;
    }
  }

  lemma NoKeys(t: Table)
    requires |t.states| == |t.keys| && forall i :: 0 <= i < |t.states| ==> t.states[i] == INACTIVE
    ensures WellFormed(t, -1) && Contents(t) == {} && Filled(t.states) == 0
  {
    FilledMax(t.states);
  }

  ghost function Prefix(t: Table, i: nat): Table
    requires |t.states| == |t.keys| && i <= |t.states|
  {
    Table(t.states[..i], t.keys[..i])
  }

  lemma PrefixMore(t: Table, i: nat)
    requires |t.states| == |t.keys| && i < |t.states| && Distinct(t)
    ensures Contents(Prefix(t, i + 1)) == Contents(Prefix(t, i)) + if t.states[i] == FILLED then {t.keys[i]} else {}
    ensures t.states[i] == FILLED ==> t.keys[i] !in Contents(Prefix(t, i))
    ensures |Contents(Prefix(t, i))| <= i
  {
    FrontContents(Prefix(t, i + 1));
    assert Front(Prefix(t, i + 1)) == Prefix(t, i);
    PrefixSize(t, i);
    if t.states[i] == FILLED { PrefixFresh(t, i); }
    hide Contents, Distinct;
  }

  lemma PrefixSize(t: Table, i: nat)
    requires |t.states| == |t.keys| && i < |t.states| && Distinct(t)
    ensures |Contents(Prefix(t, i))| <= i
  {
    CountIsSize(Prefix(t, i));
    FilledMax(Prefix(t, i).states);
  }

  lemma PrefixFresh(t: Table, i: nat)
    requires |t.states| == |t.keys| && i < |t.states| && Distinct(t) && t.states[i] == FILLED
    ensures t.keys[i] !in Contents(Prefix(t, i))
  {
    if t.keys[i] in Contents(Prefix(t, i)) {
      var b := Find(Prefix(t, i), t.keys[i]);
    }
  }

  /** The smallest power of two, at least four, that is large enough. */
  ghost function NewSize(required: nat): nat {
    NewSizeFrom(4, required)
  }

  ghost function NewSizeFrom(n: nat, required: nat): nat
    requires n > 0
    decreases required - n
  {
    if n < required then NewSizeFrom(2 * n, required) else n
  }

  method NewBuckets(required: nat) returns (n: nat, ghost k: nat)
    requires 0 < required < 0x8000_0000_0000_0000
    ensures n >= required && n == Pow2(k) && k <= 64 && n == NewSize(required)
  {
    n, k := 4, 2;
    assert Pow2(2) == 4;
    Pow64();
    while n < required
      invariant n == Pow2(k) && 0 < n && (n < required ==> k <= 62) && k <= 64
      invariant NewSizeFrom(n, required) == NewSize(required)
      decreases required - n
    {
      n, k := n * 2, k + 1;
      Exponent(k);
    }
  }

  lemma Exponent(k: nat)
    requires Pow2(k) < 0x1_0000_0000_0000_0000
    ensures k <= 63
  {
    if k >= 64 { PowBig(k); }
  }

  lemma PowBig(k: nat)
    requires k >= 64
    ensures Pow2(k) >= 0x1_0000_0000_0000_0000
  {
    Pow64();
    PowAdd(k - 64, 64);
    MulGrows(Pow2(k - 64), Pow2(64));
  }
}
