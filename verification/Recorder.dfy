/**
 The per-thread recorder: which events it keeps, when it hands a block over, and why its
 deduplicating set never fills up.
 */
module Recorder {
  import opened HashSet

  const NUM_OF_ACCESSES := 25000
  const SET_SIZE := 87382
  const BUCKETS := 262144

  datatype TraceItem =
    | DataAccess(sizeType: nat, address: nat, pc: nat)
    | MutexAcquired(kind: nat, waitId: nat)
    | MutexReleased(kind: nat, waitId: nat)

  type Hash = TraceItem -> nat

  /** What the callbacks report: an access, a lock operation, or the end of an interval. */
  datatype Event = Access(item: TraceItem) | Lock(item: TraceItem) | Boundary

  /** The items kept since the last block, the hash values seen since then, and the blocks
      as they were handed to the writer. */
  datatype Log = Log(pending: seq<TraceItem>, seen: set<nat>, blocks: seq<seq<TraceItem>>)

  const EMPTY := Log([], {}, [])

  ghost function Flush(l: Log): Log {
    Log([], {}, l.blocks + [l.pending])
  }

  ghost function Keep(l: Log, item: TraceItem): Log {
    var l' := l.(pending := l.pending + [item]);
    if |l'.pending| == NUM_OF_ACCESSES then Flush(l') else l'
  }

  ghost function Step(l: Log, e: Event, hash: Hash): Log {
    match e
    case Access(item) => if hash(item) in l.seen then l else Keep(l.(seen := l.seen + {hash(item)}), item)
    case Lock(item) => Keep(l, item)
    case Boundary => if l.pending == [] then l else Flush(l)
  }

  ghost function Run(events: seq<Event>, hash: Hash): Log {
    if events == [] then EMPTY else Step(Run(events[..|events| - 1], hash), events[|events| - 1], hash)
  }

  // ---------- what every run keeps ----------

  ghost function Hashes(s: seq<TraceItem>, hash: Hash): set<nat> {
    set i | 0 <= i < |s| && s[i].DataAccess? :: hash(s[i])
  }

  ghost predicate Events(events: seq<Event>) {
    forall e :: e in events ==> (e.Access? ==> e.item.DataAccess?) && (e.Lock? ==> !e.item.DataAccess?)
  }

  /** No two kept accesses since the last block agree in their hash value. */
  ghost predicate Deduplicated(s: seq<TraceItem>, hash: Hash) {
    forall i, j :: 0 <= i < j < |s| && s[i].DataAccess? && s[j].DataAccess? ==> hash(s[i]) != hash(s[j])
  }

  ghost predicate Sane(l: Log, hash: Hash) {
    && |l.pending| < NUM_OF_ACCESSES && l.seen == Hashes(l.pending, hash) && |l.seen| <= |l.pending|
    && Deduplicated(l.pending, hash)
    && forall b :: b in l.blocks ==> 0 < |b| <= NUM_OF_ACCESSES && Deduplicated(b, hash)
  }

  lemma HashesMore(s: seq<TraceItem>, x: TraceItem, hash: Hash)
    ensures Hashes(s + [x], hash) == Hashes(s, hash) + if x.DataAccess? then {hash(x)} else {}
  {
    var t := s + [x];
    forall h | h in Hashes(s, hash) ensures h in Hashes(t, hash) {
      var i :| 0 <= i < |s| && s[i].DataAccess? && hash(s[i]) == h;
      assert t[i] == s[i];
    }
    if x.DataAccess? { assert t[|s|] == x; }
  }

  lemma DeduplicatedMore(s: seq<TraceItem>, x: TraceItem, hash: Hash)
    requires Deduplicated(s, hash) && (x.DataAccess? ==> hash(x) !in Hashes(s, hash))
    ensures Deduplicated(s + [x], hash) && Deduplicated([], hash) && Hashes([], hash) == {}
  {
    forall i | 0 <= i < |s| && s[i].DataAccess? ensures hash(s[i]) in Hashes(s, hash) {}
  }

  lemma KeepSane(l: Log, item: TraceItem, hash: Hash)
    requires Sane(l, hash) && (item.DataAccess? ==> hash(item) !in l.seen)
    ensures Sane(Keep(if item.DataAccess? then l.(seen := l.seen + {hash(item)}) else l, item), hash)
  {
    hide Deduplicated, Hashes;
    HashesMore(l.pending, item, hash);
    DeduplicatedMore(l.pending, item, hash);
  }

  lemma StepSane(l: Log, e: Event, hash: Hash)
    requires Sane(l, hash) && Events([e])
    ensures Sane(Step(l, e, hash), hash)
  {
    assert e in [e];
    match e
    case Access(item) => if hash(item) !in l.seen { KeepSane(l, item, hash); }
    case Lock(item) => KeepSane(l, item, hash);
    case Boundary =>
  }

  lemma {:induction false} RunSane(events: seq<Event>, hash: Hash)
    requires Events(events)
    ensures Sane(Run(events, hash), hash)
  {
    if events != [] {
      RunSane(events[..|events| - 1], hash);
      StepSane(Run(events[..|events| - 1], hash), events[|events| - 1], hash);
    }
  }

  /** A run is one step after another, from nothing. */
  lemma RunMore(events: seq<Event>, i: nat, hash: Hash)
    requires Events(events) && i <= |events|
    ensures Run(events[..0], hash) == EMPTY
    ensures i < |events| ==> Run(events[..i + 1], hash) == Step(Run(events[..i], hash), events[i], hash)
    ensures i < |events| ==> Events([events[i]])
  {
    if i < |events| { assert events[..i + 1][..i] == events[..i]; }
  }

  // ---------- nothing is lost ----------

  ghost function All(blocks: seq<seq<TraceItem>>): seq<TraceItem> {
    if blocks == [] then [] else All(blocks[..|blocks| - 1]) + blocks[|blocks| - 1]
  }

  /** Everything kept, in order. */
  ghost function Recorded(l: Log): seq<TraceItem> {
    All(l.blocks) + l.pending
  }

  lemma FlushKeeps(l: Log)
    ensures Recorded(Flush(l)) == Recorded(l)
  {
    assert (l.blocks + [l.pending])[..|l.blocks|] == l.blocks;
  }

  lemma KeepRecords(l: Log, item: TraceItem)
    ensures Recorded(Keep(l, item)) == Recorded(l) + [item]
  {
    var l' := l.(pending := l.pending + [item]);
    assert Recorded(l') == Recorded(l) + [item];
    FlushKeeps(l');
  }

  ghost predicate Represented(item: TraceItem, s: seq<TraceItem>, hash: Hash) {
    exists k :: 0 <= k < |s| && s[k].DataAccess? && hash(s[k]) == hash(item)
  }

  lemma RepresentedMore(item: TraceItem, s: seq<TraceItem>, x: TraceItem, hash: Hash)
    requires Represented(item, s, hash) || (x.DataAccess? && hash(x) == hash(item))
    ensures Represented(item, s + [x], hash)
  {
    if Represented(item, s, hash) {
      var k :| 0 <= k < |s| && s[k].DataAccess? && hash(s[k]) == hash(item);
      assert (s + [x])[k] == s[k];
    } else {
      assert (s + [x])[|s|] == x;
    }
  }

  /** A step records its item, or nothing if the item's hash value is represented already. */
  lemma StepRecords(l: Log, e: Event, hash: Hash)
    requires Sane(l, hash) && Events([e])
    ensures var r, r' := Recorded(l), Recorded(Step(l, e, hash));
      && (r' == r || (!e.Boundary? && r' == r + [e.item])) && (e.Lock? ==> r' == r + [e.item])
      && (e.Access? ==> Represented(e.item, r', hash))
  {
    assert e in [e];
    match e
    case Access(item) =>
      if hash(item) in l.seen {
        var k :| 0 <= k < |l.pending| && l.pending[k].DataAccess? && hash(l.pending[k]) == hash(item);
        assert Recorded(l)[|All(l.blocks)| + k] == l.pending[k];
      } else {
        KeepRecords(l.(seen := l.seen + {hash(item)}), item);
        RepresentedMore(item, Recorded(l), item, hash);
      }
    case Lock(item) => KeepRecords(l, item);
    case Boundary => FlushKeeps(l);
  }

  /** After any run, every access has a recorded access with its hash value, and every lock
      operation has been recorded. */
  lemma {:induction false} NothingLost(events: seq<Event>, hash: Hash)
    requires Events(events)
    ensures forall e :: e in events && e.Access? ==> Represented(e.item, Recorded(Run(events, hash)), hash)
    ensures forall e :: e in events && e.Lock? ==> e.item in Recorded(Run(events, hash))
  {
    if events != [] {
      var before, last := events[..|events| - 1], events[|events| - 1];
      NothingLost(before, hash);
      RunSane(before, hash);
      var l := Run(before, hash);
      StepRecords(l, last, hash);
      var r, r' := Recorded(l), Recorded(Run(events, hash));
      forall e | e in events && e.Access? ensures Represented(e.item, r', hash) {
        if e in before && r' != r { RepresentedMore(e.item, r, last.item, hash); }
      }
    }
  }

  // ---------- intervals ----------

  lemma {:induction false} AllConcat(x: seq<seq<TraceItem>>, y: seq<seq<TraceItem>>)
    ensures All(x + y) == All(x) + All(y)
  {
    if y == [] {
      assert x + y == x;
    } else {
      var n := |y| - 1;
      AllConcat(x, y[..n]);
      assert (x + y)[..|x| + n] == x + y[..n];
      assert (All(x) + All(y[..n])) + y[n] == All(x) + (All(y[..n]) + y[n]);
    }
  }

  /** The end of an interval hands over what is pending and forgets what has been seen. */
  lemma BoundaryEnds(a: seq<Event>, hash: Hash)
    requires Events(a)
    ensures var l := Run(a + [Boundary], hash);
      l.pending == [] && l.seen == {} && All(l.blocks) == Recorded(Run(a, hash))
  {
    var l := Run(a, hash);
    assert (a + [Boundary])[..|a|] == a;
    RunSane(a, hash);
    if l.pending == [] {
      assert All(l.blocks) + [] == All(l.blocks);
    } else {
      FlushKeeps(l);
      assert All(Flush(l).blocks) + [] == All(Flush(l).blocks);
    }
  }

  /** From there on, the run is the one from the start, behind the blocks handed over. */
  lemma {:induction false} RunOn(a: seq<Event>, b: seq<Event>, hash: Hash)
    requires Run(a, hash).pending == [] && Run(a, hash).seen == {}
    ensures Run(a + b, hash) == Run(b, hash).(blocks := Run(a, hash).blocks + Run(b, hash).blocks)
  {
    hide Step;
    if b == [] {
      assert a + b == a;
    } else {
      var n := |b| - 1;
      RunOn(a, b[..n], hash);
      assert (a + b)[..|a| + n] == a + b[..n];
      StepBehind(Run(b[..n], hash), Run(a, hash).blocks, b[n], hash);
    }
  }

  lemma StepBehind(l: Log, blocks: seq<seq<TraceItem>>, e: Event, hash: Hash)
    ensures Step(l.(blocks := blocks + l.blocks), e, hash) == Step(l, e, hash).(blocks := blocks + Step(l, e, hash).blocks)
  {
    assert forall p: seq<TraceItem> :: (blocks + l.blocks) + [p] == blocks + (l.blocks + [p]);
  }

  lemma RecordedBehind(l: Log, blocks: seq<seq<TraceItem>>)
    ensures Recorded(l.(blocks := blocks + l.blocks)) == All(blocks) + Recorded(l)
  {
    hide All;
    AllConcat(blocks, l.blocks);
    assert (All(blocks) + All(l.blocks)) + l.pending == All(blocks) + (All(l.blocks) + l.pending);
  }

  lemma EventsApart(a: seq<Event>, b: seq<Event>)
    requires Events(a) && Events(b)
    ensures Events(a + [Boundary]) && Events(a + [Boundary] + b)
  {}

  /** Two intervals are recorded one after the other, each as if it were the only one. */
  lemma IntervalsApart(a: seq<Event>, b: seq<Event>, hash: Hash)
    requires Events(a) && Events(b)
    ensures Events(a + [Boundary] + b)
    ensures Recorded(Run(a + [Boundary] + b, hash)) == Recorded(Run(a, hash)) + Recorded(Run(b, hash))
    ensures Run(a + [Boundary] + b, hash).blocks == Run(a + [Boundary], hash).blocks + Run(b, hash).blocks
  {
    hide *;
    EventsApart(a, b);
    BoundaryEnds(a, hash);
    RunOn(a + [Boundary], b, hash);
    RecordedBehind(Run(b, hash), Run(a + [Boundary], hash).blocks);
  }

  /** Every access is represented among the items of its own interval. */
  lemma InOwnInterval(a: seq<Event>, b: seq<Event>, c: seq<Event>, hash: Hash, x: TraceItem)
    requires Events(a) && Events(b) && Events(c) && Access(x) in b
    ensures var from, size := |Recorded(Run(a, hash))|, |Recorded(Run(b, hash))|;
      var r := Recorded(Run(a + [Boundary] + (b + [Boundary] + c), hash));
      from + size <= |r| && Represented(x, r[from..from + size], hash)
  {
    hide *;
    IntervalsApart(b, c, hash);
    IntervalsApart(a, b + [Boundary] + c, hash);
    NothingLost(b, hash);
    assert Event.Access(x).item == x;
    var p, q, s := Recorded(Run(a, hash)), Recorded(Run(b, hash)), Recorded(Run(c, hash));
    assert (p + (q + s))[|p|..|p| + |q|] == q;
  }

  lemma StepFull(l: Log, e: Event, hash: Hash)
    requires |l.pending| < NUM_OF_ACCESSES && !e.Boundary? && forall b :: b in l.blocks ==> |b| == NUM_OF_ACCESSES
    ensures forall b :: b in Step(l, e, hash).blocks ==> |b| == NUM_OF_ACCESSES
  {}

  /** Within an interval, blocks are handed over exactly when they are full. */
  lemma {:induction false} FullBlocks(events: seq<Event>, hash: Hash)
    requires Events(events) && Boundary !in events
    ensures forall b :: b in Run(events, hash).blocks ==> |b| == NUM_OF_ACCESSES
  {
    if events != [] {
      var n := |events| - 1;
      assert events[n] in events && events[n] != Boundary;
      RunSane(events[..n], hash);
      hide Step, Hashes, Deduplicated;
      FullBlocks(events[..n], hash);
      StepFull(Run(events[..n], hash), events[n], hash);
    }
  }

  // ---------- what deduplication by hash value costs ----------

  /** Nothing is recorded that did not happen. */
  lemma {:induction false} NothingInvented(events: seq<Event>, hash: Hash, x: TraceItem)
    requires Events(events) && x in Recorded(Run(events, hash))
    ensures if x.DataAccess? then Access(x) in events else Lock(x) in events
  {
    if events != [] {
      var before, last := events[..|events| - 1], events[|events| - 1];
      var l := Run(before, hash);
      RunSane(before, hash);
      StepRecords(l, last, hash);
      assert last in events;
      if x in Recorded(l) { NothingInvented(before, hash, x); }
    }
  }

  /** Two accesses of the run that the hash does not tell apart. */
  ghost predicate Collide(events: seq<Event>, hash: Hash) {
    exists x, y :: Access(x) in events && Access(y) in events && x != y && hash(x) == hash(y)
  }

  ghost predicate Complete(events: seq<Event>, hash: Hash) {
    forall x :: Access(x) in events ==> x in Recorded(Run(events, hash))
  }

  /** A run without a collision is recorded completely. */
  lemma CompleteUnlessCollide(events: seq<Event>, hash: Hash)
    requires Events(events) && !Collide(events, hash)
    ensures Complete(events, hash)
  {
    var r := Recorded(Run(events, hash));
    NothingLost(events, hash);
    forall x | Access(x) in events ensures x in r {
      assert Event.Access(x).item == x && Represented(x, r, hash);
      var k :| 0 <= k < |r| && r[k].DataAccess? && hash(r[k]) == hash(x);
      NothingInvented(events, hash, r[k]);
    }
  }

  /** Of two accesses that collide, the later one is lost. */
  lemma SecondLost(x: TraceItem, y: TraceItem, hash: Hash)
    requires x.DataAccess? && y.DataAccess? && x != y && hash(x) == hash(y)
    ensures Events([Access(x), Access(y)]) && y !in Recorded(Run([Access(x), Access(y)], hash))
  {
    var first, both := [Access(x)], [Access(x), Access(y)];
    assert both[..1] == first && first[..0] == [];
    assert Run(first, hash) == Step(EMPTY, Access(x), hash) == Log([x], {hash(x)}, []);
    assert Run(both, hash) == Run(first, hash);
    assert Recorded(Run(both, hash)) == [x];
  }

  ghost predicate Injective(hash: Hash) {
    forall x: TraceItem, y: TraceItem :: x.DataAccess? && y.DataAccess? && hash(x) == hash(y) ==> x == y
  }

  /** Every run is recorded completely if and only if the hash tells all accesses apart. */
  lemma CompleteIff(hash: Hash)
    ensures (forall events :: Events(events) ==> Complete(events, hash)) <==> Injective(hash)
  {
    if Injective(hash) {
      forall events | Events(events) ensures Complete(events, hash) {
        forall x, y | Access(x) in events && Access(y) in events && hash(x) == hash(y) ensures x == y {
          assert Event.Access(x).item == x && Event.Access(y).item == y;
        }
        CompleteUnlessCollide(events, hash);
      }
    } else {
      var x: TraceItem, y: TraceItem :| x.DataAccess? && y.DataAccess? && hash(x) == hash(y) && x != y;
      SecondLost(x, y, hash);
      var events := [Access(x), Access(y)];
      assert events[1] == Access(y) && Events(events) && !Complete(events, hash);
    }
  }

  // ---------- no hash of 64 bits will do ----------

  const WORD := 0x1_0000_0000_0000_0000

  /** What fits the fields of an access. */
  predicate Storable(x: TraceItem) {
    x.DataAccess? && x.sizeType < 256 && x.address < WORD && x.pc < 0x1_0000_0000_0000
  }

  /** More accesses than hash values: all addresses at one place, and one address at another. */
  function Nth(i: nat): TraceItem {
    DataAccess(0, i % WORD, i / WORD)
  }

  ghost predicate Fresh(hash: Hash, n: nat) {
    forall i, j :: 0 <= i < j < n ==> hash(Nth(i)) != hash(Nth(j))
  }

  ghost function Image(hash: Hash, n: nat): set<nat> {
    set i | 0 <= i < n :: hash(Nth(i))
  }

  lemma {:induction false} ImageSize(hash: Hash, n: nat)
    requires Fresh(hash, n)
    ensures |Image(hash, n)| == n
  {
    hide Nth;
    if n > 0 {
      ImageSize(hash, n - 1);
      assert Image(hash, n) == Image(hash, n - 1) + {hash(Nth(n - 1))};
    }
  }

  lemma {:induction false} BelowSize(s: set<nat>, n: nat)
    requires forall x :: x in s ==> x < n
    ensures |s| <= n
  {
    if n > 0 {
      BelowSize(s - {n - 1}, n - 1);
      assert |s| <= |s - {n - 1}| + 1;
    } else {
      assert s == {};
    }
  }

  /** Whatever the 64-bit hash, some run of two accesses loses one of them. */
  lemma AlwaysLoses(hash: Hash) returns (x: TraceItem, y: TraceItem)
    requires forall item :: Storable(item) ==> hash(item) < WORD
    ensures Storable(x) && Storable(y) && x != y && y !in Recorded(Run([Access(x), Access(y)], hash))
  {
    var n := WORD + 1;
    if Fresh(hash, n) {
      ImageSize(hash, n);
      forall h | h in Image(hash, n) ensures h < WORD {
        var i :| 0 <= i < n && hash(Nth(i)) == h;
        assert Storable(Nth(i));
      }
      BelowSize(Image(hash, n), WORD);
      assert false;
    }
    var i, j :| 0 <= i < j < n && hash(Nth(i)) == hash(Nth(j));
    x, y := Nth(i), Nth(j);
    SecondLost(x, y, hash);
  }

  // ---------- the recorder ----------

  lemma ReservedBuckets()
    ensures NewSize(SET_SIZE + SET_SIZE / 2 + 1) == BUCKETS
  {
    var q := SET_SIZE + SET_SIZE / 2 + 1;
    assert NewSizeFrom(65536, q) == NewSizeFrom(131072, q) == NewSizeFrom(262144, q) == 262144;
    assert NewSizeFrom(8192, q) == NewSizeFrom(16384, q) == NewSizeFrom(32768, q) == NewSizeFrom(65536, q);
    assert NewSizeFrom(1024, q) == NewSizeFrom(2048, q) == NewSizeFrom(4096, q) == NewSizeFrom(8192, q);
    assert NewSizeFrom(128, q) == NewSizeFrom(256, q) == NewSizeFrom(512, q) == NewSizeFrom(1024, q);
    assert NewSizeFrom(16, q) == NewSizeFrom(32, q) == NewSizeFrom(64, q) == NewSizeFrom(128, q);
    assert NewSizeFrom(4, q) == NewSizeFrom(8, q) == NewSizeFrom(16, q);
  }

  class Recorder {
    const hash: Hash
    const seen: Set
    const accesses: array<TraceItem>
    var idx: nat
    /** The blocks handed to `dump_to_file`. */
    var written: seq<seq<TraceItem>>
    ghost var log: Log

    ghost predicate Valid()
      reads this, accesses, seen, seen.states, seen.keys
    {
      && accesses.Length == NUM_OF_ACCESSES && seen.Valid() && seen.numBuckets == BUCKETS
      && Sane(log, hash) && idx == |log.pending| && accesses[..idx] == log.pending && seen.Elements() == log.seen
      && written == log.blocks
    }

    /** `on_ompt_callback_thread_begin` */
    constructor (hash: Hash)
      ensures Valid() && log == EMPTY && this.hash == hash
      ensures fresh(seen) && fresh(seen.states) && fresh(seen.keys) && fresh(accesses)
    {
      this.hash := hash;
      var s := new Set();
      s.Reserve(SET_SIZE);
      ReservedBuckets();
      seen := s;
      accesses := new TraceItem[NUM_OF_ACCESSES](_ => MutexAcquired(0, 0));
      idx, written, log := 0, [], EMPTY;
    }

    /** `DUMP_TO_FILE`, after the item has been stored. */
    method Advance(item: TraceItem, ghost l: Log)
      requires accesses.Length == NUM_OF_ACCESSES && seen.Valid() && seen.numBuckets == BUCKETS
      requires idx < NUM_OF_ACCESSES && accesses[idx] == item && accesses[..idx] == l.pending && idx == |l.pending|
      requires seen.Elements() == l.seen && written == l.blocks && Sane(Keep(l, item), hash)
      modifies this`idx, this`written, this`log, seen`numFilled, seen`maxProbeLength, seen.states
      ensures Valid() && log == Keep(l, item) && seen.states == old(seen.states) && seen.keys == old(seen.keys)
    {
      idx := idx + 1;
      assert accesses[..idx] == l.pending + [item];
      assert idx == NUM_OF_ACCESSES ==> accesses[..] == accesses[..idx];
      if idx == NUM_OF_ACCESSES {
        written := written + [accesses[..]];
        idx := 0;
        seen.Clear();
      }
      log := Keep(l, item);
    }

    /** `SAVE_ACCESS` */
    method SaveAccess(item: TraceItem)
      requires Valid() && item.DataAccess?
      modifies this`idx, this`written, this`log, accesses, seen, seen.states, seen.keys
      ensures Valid() && log == Step(old(log), Access(item), hash)
      ensures seen.states == old(seen.states) && seen.keys == old(seen.keys)
    {
      var inserted := seen.CheckInsert(hash(item));
      if inserted {
        KeepSane(log, item, hash);
        accesses[idx] := item;
        Advance(item, log.(seen := log.seen + {hash(item)}));
      }
    }

    /** `on_ompt_callback_mutex_acquired` and `_released` */
    method SaveLock(item: TraceItem)
      requires Valid() && !item.DataAccess?
      modifies this`idx, this`written, this`log, accesses, seen, seen.states
      ensures Valid() && log == Step(old(log), Lock(item), hash)
      ensures seen.states == old(seen.states) && seen.keys == old(seen.keys)
    {
      KeepSane(log, item, hash);
      accesses[idx] := item;
      Advance(item, log);
    }

    /** `DUMPNOCHECK_TO_FILE` */
    method EndInterval()
      requires Valid()
      modifies this`idx, this`written, this`log, seen, seen.states
      ensures Valid() && log == Step(old(log), Boundary, hash)
      ensures seen.states == old(seen.states) && seen.keys == old(seen.keys)
    {
      if idx > 0 {
        written := written + [accesses[..idx]];
        idx := 0;
        seen.Clear();
        log := Flush(log);
      }
    }

    /** Any run of callbacks. */
    method Replay(events: seq<Event>)
      requires Valid() && log == EMPTY && Events(events)
      modifies this`idx, this`written, this`log, accesses, seen, seen.states, seen.keys
      ensures Valid() && log == Run(events, hash) && written == Run(events, hash).blocks
    {
      hide Sane, Run, Step, Set.Valid;
      var i := 0;
      RunMore(events, 0, hash);
      while i < |events|
        invariant i <= |events| && Valid() && log == Run(events[..i], hash)
        invariant seen.states == old(seen.states) && seen.keys == old(seen.keys)
      {
        RunMore(events, i, hash);
        assert events[i] in [events[i]];
        match events[i] {
          case Access(item) => SaveAccess(item);
          case Lock(item) => SaveLock(item);
          case Boundary => EndInterval();
        }
        i := i + 1;
      }
      assert events[..i] == events;
      Written();
    }

    lemma Written()
      requires Valid()
      ensures written == log.blocks
    {}
  }
}
