/**
 `LZ4_compress_generic`: the greedy compressor driven by an untrusted hash table.  Whatever
 the hash function, the block it writes stands for the input, provided the acceleration
 lets the search step on; and it stays within its limit, provided the input is not so large
 that the test for room falls behind the number of length bytes.
 */
module Lz4Compress {
  import opened Powers
  import opened Lz77
  import opened Bits
  import opened Lz4Format
  import opened Lz4Decompress
  import opened Candidates

  const MAX_INPUT_SIZE := 0x7E00_0000
  const SMALL_LIMIT := 65536 + MFLIMIT - 1  // LZ4_64Klimit
  const MIN_LENGTH := MFLIMIT + 1
  const SKIP_TRIGGER := 64
  const SPILLING := 134665  // from this size on, the test for the room of a match can fail to suffice

  // ---------- comparing ----------

  /** The longest common run, at most up to `limit`. */
  method Count(src: Bytes, in0: nat, match0: nat, limit: nat) returns (c: nat)
    requires match0 <= in0 <= limit <= |src|
    ensures in0 + c <= limit && Repeats(src, in0, in0 + c, in0 - match0)
    ensures in0 + c < limit ==> src[in0 + c] != src[match0 + c]
  {
    var i, m := in0, match0;
    while i < limit - 7
      invariant in0 <= i <= limit && i - in0 == m - match0
      invariant Repeats(src, in0, i, in0 - match0)
    {
      if !Eight(src, i, m) {
        var d := NbCommonBytes(src, i, m);
        return i + d - in0;
      }
      SameEight(src, i, m);
      i, m := i + 8, m + 8;
    }
    i := CountTail(src, i, m, limit);
    c := i - in0;
  }

  /** The last seven bytes, by four, two and one. */
  method CountTail(src: Bytes, in0: nat, match0: nat, limit: nat) returns (i: nat)
    requires match0 <= in0 <= limit <= |src| && limit <= in0 + 7
    ensures in0 <= i <= limit && Repeats(src, in0, i, in0 - match0)
    ensures i < limit ==> src[i] != src[i - (in0 - match0)]
  {
    var m := match0;
    i := in0;
    if i < limit - 3 && Same4(src, m, i) {
      i, m := i + 4, m + 4;
    }
    if i < limit - 1 && src[m] == src[i] && src[m + 1] == src[i + 1] {
      i, m := i + 2, m + 2;
    }
    if i < limit && src[m] == src[i] {
      i := i + 1;
    }
  }

  // ---------- the hash table ----------

  /** The position as the table stores it. */
  function Stored(p: nat, byU16: bool): nat {
    if byU16 then p % 0x1_0000 else p % 0x1_0000_0000
  }

  /** The bytes that are hashed. */
  function Hashed(src: Bytes, p: nat, byU16: bool): Bytes
    requires p + 8 <= |src|
  {
    if byU16 then src[p..p + 4] else src[p..p + 8]
  }

  /** The unsigned shift of the acceleration drops its upper six bits. */
  function SearchStart(acceleration: nat): nat {
    acceleration * SKIP_TRIGGER % 0x1_0000_0000
  }

  function Effective(acceleration: nat): nat {
    acceleration % 0x400_0000
  }

  /** Whether the step of the search stays positive for a while. */
  predicate StepsOn(acceleration: nat) {
    acceleration % 0x400_0000 != 0
  }

  /** As long as the counter has not wrapped, the positions are too far apart for it to wrap
      within the largest input. */
  lemma NoWrap(a: nat, k: nat)
    requires 1 <= a < 0x400_0000 && a * 64 + k == 0x1_0000_0000
    ensures k * a >= 0xFFFF_FFC0
  {
    var n := 0x400_0000;
    NotNegative(a - 1, n - 1 - a);
    Scaled(n - a, a);
    assert k == (n - a) * 64;
  }

  lemma Scaled(x: int, a: int)
    ensures x * 64 * a == x * a * 64
  {}

  /** Input on which the first two probes find nothing to match. */
  predicate Unrepetitive(src: Bytes) {
    |src| >= 14 && !Same4(src, 0, 1) && !Same4(src, 0, 2) && !Same4(src, 1, 2)
  }

  /** Where the search stands after `k` probes from `ip0`. */
  ghost predicate Searching(a: nat, k: nat, ip0: nat, forwardIp: nat, step: nat, counter: nat) {
    && counter == a * 64 + k < 0x1_0000_0000
    && (if k == 0 then forwardIp == ip0 && step == 1 else forwardIp >= ip0 + 1 + (k - 1) * a)
    && (a >= 1 && k > 0 ==> step >= a) && (k > 0 ==> step == (a * 64 + k - 1) / 64)
    && (a == 0 && k > 0 ==> k <= 2 && forwardIp == ip0 + 1 && step == 0)
  }

  function NextStep(counter: nat): nat {
    counter / SKIP_TRIGGER
  }

  function NextCounter(counter: nat): nat {
    (counter + 1) % 0x1_0000_0000
  }

  ghost predicate Stalled(a: nat, k: nat) {
    a == 0 && k == 2
  }

  /** In a doomed search only the third probe can succeed. */
  ghost predicate Doomed(src: Bytes, ip0: nat, a: nat) {
    ip0 == 1 && a == 0 && Unrepetitive(src)
  }

  lemma DoomedProbe(src: Bytes, ip0: nat, a: nat, k: nat, ip: nat, step: nat, counter: nat, cand: nat)
    requires Doomed(src, ip0, a) && Searching(a, k, ip0, ip, step, counter) && ip + MFLIMIT <= |src|
    requires cand < ip && !Stalled(a, k)
    ensures !Same4(src, cand, ip)
  {
    assert ip == (if k == 0 then 1 else 2) && (cand == 0 || cand == 1);
    hide Same4, Searching;
  }

  lemma DoomedStays(src: Bytes, ip0: nat, a: nat, k: nat, ip: nat, step: nat, counter: nat)
    requires Doomed(src, ip0, a) && Searching(a, k, ip0, ip, step, counter)
    ensures ip + step <= |src| - MFLIMIT && (Stalled(a, k) ==> ip == 2)
  {}

  lemma SearchOn(a: nat, k: nat, ip0: nat, forwardIp: nat, step: nat, counter: nat)
    requires a < 0x400_0000 && Searching(a, k, ip0, forwardIp, step, counter) && !Stalled(a, k)
    requires forwardIp + step <= MAX_INPUT_SIZE
    ensures Searching(a, k + 1, ip0, forwardIp + step, NextStep(counter), NextCounter(counter))
    ensures step >= 1 || Stalled(a, k + 1)
    ensures Stalled(a, k + 1) ==> step == 0 && forwardIp == ip0 + 1
  {
    if k > 0 {
      assert (k - 1) * a + a == k * a;
      if counter + 1 == 0x1_0000_0000 {
        assert (k + 1) * a == k * a + a;
        NoWrap(a, k + 1);
      }
    }
  }

  lemma SameSelf(src: Bytes, ip: nat)
    requires ip + 4 <= |src|
    ensures Same4(src, ip, ip)
  {}

  lemma SearchOpens(a: nat, ip0: nat)
    requires a < 0x400_0000
    ensures Searching(a, 0, ip0, ip0, 1, a * 64)
    ensures forall k :: Stalled(a, k) ==> a == 0 && k == 2
  {}

  method Put(table: array<nat>, h: nat, p: nat, byU16: bool, ghost n: nat, ghost q: nat)
    requires h < table.Length && p + MFLIMIT <= n <= MAX_INPUT_SIZE && (byU16 ==> n < SMALL_LIMIT)
    requires Below(table[..], q) && q <= p + 1
    modifies table
    ensures Below(table[..], p + 1) && table[h] == p && table[..] == old(table[..])[h := p]
  {
    table[h] := Stored(p, byU16);
    assert table[..] == old(table[..])[h := p];
  }

  /** The entry for the position is a match already. */
  ghost predicate FirstHit(src: Bytes, table: seq<nat>, byU16: bool, hash: Bytes -> nat, ip: nat)
    requires ip + 11 <= |src|
  {
    var h := hash(Hashed(src, ip, byU16));
    && ip + 1 + MFLIMIT <= |src| && h < |table| && table[h] <= ip
    && (byU16 || ip <= table[h] + MAX_DISTANCE) && Same4(src, table[h], ip)
  }

  lemma FirstHitView(src: Bytes, table: seq<nat>, byU16: bool, hash: Bytes -> nat, ip: nat)
    requires ip + 11 <= |src|
    ensures FirstHit(src, table, byU16, hash, ip) ==> var h := hash(Hashed(src, ip, byU16));
      ip + 1 + MFLIMIT <= |src| && h < |table| && table[h] <= ip && (byU16 || ip <= table[h] + MAX_DISTANCE) && Same4(src, table[h], ip)
  {}

  /** How the input is searched: with acceleration 1, sixty-four places behind the start of a run are
      looked up one after another, with any other two. */
  function FastFinder(byU16: bool, a: nat, hash: Bytes -> nat): Finder {
    Finder(0, 1, if a == 1 then 64 else 2, if byU16 then 4 else 8, MAX_DISTANCE, false, hash)
  }

  /** Where the search ends. */
  function SearchEnd(n: nat, a: nat): nat {
    if n < MFLIMIT - 1 + a then 0 else n - (MFLIMIT - 1) - a
  }

  lemma CodeIs(src: Bytes, byU16: bool, a: nat, hash: Bytes -> nat, p: nat)
    requires p + 8 <= |src|
    ensures Code(src, FastFinder(byU16, a, hash), p) == hash(Hashed(src, p, byU16))
  {}

  /** A failed probe. */
  lemma Rejected(src: Bytes, byU16: bool, a: nat, hash: Bytes -> nat, table: seq<nat>, xs: seq<Sequence>,
                 entered: set<nat>, q: nat, cand: nat)
    requires Scanned(src, FastFinder(byU16, a, hash), table, xs, entered, q) && q + MFLIMIT <= |src| && cand < q
    requires var h := hash(Hashed(src, q, byU16)); h < |table| && cand == table[h]
    requires q > cand + MAX_DISTANCE || !Same4(src, cand, q)
    ensures Scanned(src, FastFinder(byU16, a, hash), table[hash(Hashed(src, q, byU16)) := q], xs, entered + {q}, q + 1)
  {
    hide Scanned, Same4;
    var s := FastFinder(byU16, a, hash);
    CodeIs(src, byU16, a, hash, q);
    if q <= cand + MAX_DISTANCE { NotEqual(src, s, cand, q); }
    ScanMiss(src, s, table, xs, entered, q);
  }

  lemma Accepted(src: Bytes, byU16: bool, a: nat, hash: Bytes -> nat, table: seq<nat>, xs: seq<Sequence>,
                 entered: set<nat>, q: nat)
    requires Scanned(src, FastFinder(byU16, a, hash), table, xs, entered, q) && q + MFLIMIT <= |src|
    requires hash(Hashed(src, q, byU16)) < |table|
    ensures Follows(src, FastFinder(byU16, a, hash), table[hash(Hashed(src, q, byU16)) := q], xs, entered, q) && Before(entered, q)
  {
    BeforeNow(src, FastFinder(byU16, a, hash), table, xs, entered, q);
    hide Scanned, Follows;
    CodeIs(src, byU16, a, hash, q);
    Followed(src, FastFinder(byU16, a, hash), table, xs, entered, q);
  }

  lemma BeforeNow(src: Bytes, s: Finder, table: seq<nat>, xs: seq<Sequence>, entered: set<nat>, upto: nat)
    requires Scanned(src, s, table, xs, entered, upto)
    ensures Before(entered, upto)
  {}

  /** Either the step is no longer than it has to be, or the first places of the run are behind. */
  lemma NearBy(a: nat, k: nat, ip0: nat, forwardIp: nat, step: nat, counter: nat)
    requires a > 0 && Searching(a, k, ip0, forwardIp, step, counter)
    ensures var width := if a == 1 then 64 else 2;
      (step == 1 || forwardIp + 1 >= ip0 + width) && (step <= a || forwardIp >= ip0 + width)
  {
    if k >= 2 { AtLeast(a, k - 1); }
  }

  lemma AtLeast(a: nat, k: nat)
    requires k >= 1 && a >= 1
    ensures k * a >= a && k * a >= k
  {
    if k > 1 { AtLeast(a, k - 1); }
  }

  lemma Onward(src: Bytes, byU16: bool, a: nat, hash: Bytes -> nat, table: seq<nat>, xs: seq<Sequence>,
               entered: set<nat>, ip: nat, step: nat)
    requires Scanned(src, FastFinder(byU16, a, hash), table, xs, entered, ip + 1) && step >= 1 && Span(xs) <= ip
    requires step == 1 || ip >= Span(xs) + (if a == 1 then 64 else 2)
    ensures Scanned(src, FastFinder(byU16, a, hash), table, xs, entered, ip + step)
  {
    hide Scanned;
    Skip(src, FastFinder(byU16, a, hash), table, xs, entered, ip + 1, ip + step);
  }

  /** The next place would be too close to the end. */
  lemma SearchOver(src: Bytes, byU16: bool, a: nat, hash: Bytes -> nat, table: seq<nat>, xs: seq<Sequence>,
                   entered: set<nat>, ip: nat, step: nat)
    requires a > 0 && Scanned(src, FastFinder(byU16, a, hash), table, xs, entered, ip) && Span(xs) < ip && |src| < ip + step + MFLIMIT
    requires step <= a || ip > Span(xs) + (if a == 1 then 64 else 2)
    ensures NothingMissed(src, FastFinder(byU16, a, hash), xs, SearchEnd(|src|, a))
  {
    hide Scanned, NothingMissed;
    var s, end := FastFinder(byU16, a, hash), SearchEnd(|src|, a);
    if end <= ip {
      ScanEnd(src, s, table, xs, entered, ip, end);
    } else {
      Skip(src, s, table, xs, entered, ip, end);
      ScanEnd(src, s, table, xs, entered, end, end);
    }
  }

  /** The search for a match: ever larger steps, each probe replacing its table entry. */
  method FindMatch(src: Bytes, table: array<nat>, byU16: bool, hash: Bytes -> nat, ip0: nat, acceleration: nat,
                   ghost xs: seq<Sequence>,
                   ghost entered0: set<nat>)
    returns (found: bool, ip: nat, cand: nat, ghost entered: set<nat>)
    requires 1 <= ip0 && ip0 + 11 <= |src| <= MAX_INPUT_SIZE && (byU16 ==> |src| < SMALL_LIMIT)
    requires InTable(hash, table.Length) && Below(table[..], ip0)
    requires StepsOn(acceleration) ==>
      Span(xs) + 1 == ip0 && Scanned(src, FastFinder(byU16, Effective(acceleration), hash), table[..], xs, entered0, ip0)
    modifies table
    ensures found ==> ip0 <= ip && ip + MFLIMIT <= |src| && cand <= ip <= cand + MAX_DISTANCE && Same4(src, cand, ip)
    ensures found ==> Below(table[..], ip + 1)
    ensures found && StepsOn(acceleration) ==> cand < ip
    ensures ip0 == 1 && !StepsOn(acceleration) && Unrepetitive(src) ==> found && cand == ip == 2
    ensures found && StepsOn(acceleration) ==>
      Follows(src, FastFinder(byU16, Effective(acceleration), hash), table[..], xs, entered, ip) && Before(entered, ip)
    ensures !found && StepsOn(acceleration) ==>
      NothingMissed(src, FastFinder(byU16, Effective(acceleration), hash), xs, SearchEnd(|src|, Effective(acceleration)))
    ensures FirstHit(src, old(table[..]), byU16, hash, ip0) ==> found && ip == ip0 && cand == old(table[..])[hash(Hashed(src, ip0, byU16))]
  {
    hide FastFinder;
    found, ip, cand, entered := Search(src, table, byU16, hash, ip0, SearchStart(acceleration), acceleration % 0x400_0000, xs, entered0);
  }

  method Search(src: Bytes, table: array<nat>, byU16: bool, hash: Bytes -> nat, ip0: nat, counter: nat, ghost a: nat,
                ghost xs: seq<Sequence>,
                ghost entered0: set<nat>)
    returns (found: bool, ip: nat, cand: nat, ghost entered: set<nat>)
    requires 1 <= ip0 && ip0 + 11 <= |src| <= MAX_INPUT_SIZE && (byU16 ==> |src| < SMALL_LIMIT)
    requires InTable(hash, table.Length) && Below(table[..], ip0) && counter == a * 64 && a < 0x400_0000
    requires a > 0 ==> Span(xs) + 1 == ip0 && Scanned(src, FastFinder(byU16, a, hash), table[..], xs, entered0, ip0)
    modifies table
    ensures found ==> ip0 <= ip && ip + MFLIMIT <= |src| && cand <= ip <= cand + MAX_DISTANCE && Same4(src, cand, ip)
    ensures found ==> Below(table[..], ip + 1)
    ensures found && a > 0 ==> cand < ip
    ensures Doomed(src, ip0, a) ==> found && cand == ip == 2
    ensures found && a > 0 ==> Follows(src, FastFinder(byU16, a, hash), table[..], xs, entered, ip) && Before(entered, ip)
    ensures !found && a > 0 ==> NothingMissed(src, FastFinder(byU16, a, hash), xs, SearchEnd(|src|, a))
    ensures FirstHit(src, old(table[..]), byU16, hash, ip0) ==> found && ip == ip0 && cand == old(table[..])[hash(Hashed(src, ip0, byU16))]
  {
    hide FirstHit, Searching, Below, Hashed, Stored, SearchStart, InTable, NextStep, NextCounter, Stalled, Same4,
      Doomed, Unrepetitive, Scanned, FastFinder, Follows, Before, NothingMissed;
    SlotOf(hash, table.Length, Hashed(src, ip0, byU16));
    var forwardH := hash(Hashed(src, ip0, byU16));
    var forwardIp: nat, step: nat, searchMatchNb: nat := ip0, 1, counter;
    ghost var k: nat, reach: nat := 0, ip0;
    entered := entered0;
    SearchOpens(a, ip0);
    FirstHitView(src, table[..], byU16, hash, ip0);
    while true
      invariant k == 0 ==> forwardIp == ip0 && step == 1 && table[..] == old(table[..])
      invariant k > 0 ==> !FirstHit(src, old(table[..]), byU16, hash, ip0)
      invariant forwardIp + 11 <= |src| && (k > 0 ==> forwardIp + MFLIMIT <= |src|)
      invariant Searching(a, k, ip0, forwardIp, step, searchMatchNb)
      invariant Below(table[..], reach) && reach == (if Stalled(a, k) then forwardIp + 1 else forwardIp)
      invariant forwardH == hash(Hashed(src, forwardIp, byU16)) && forwardH < table.Length
      invariant a > 0 ==> Scanned(src, FastFinder(byU16, a, hash), table[..], xs, entered, forwardIp)
      invariant Stalled(a, k) ==> table[forwardH] == forwardIp == ip0 + 1
      decreases |src| - forwardIp, !Stalled(a, k)
    {
      var h := forwardH;
      ip := forwardIp;
      ghost var was, gap, count := forwardIp, step, searchMatchNb;
      if Doomed(src, ip0, a) { DoomedStays(src, ip0, a, k, was, gap, count); }
      if forwardIp + step <= |src| && !Stalled(a, k) {
        SearchOn(a, k, ip0, forwardIp, step, searchMatchNb);
      }
      forwardIp := forwardIp + step;
      step, searchMatchNb := NextStep(searchMatchNb), NextCounter(searchMatchNb);
      if a > 0 { NearBy(a, k, ip0, was, gap, count); }
      if forwardIp > |src| - MFLIMIT {
        if a > 0 { SearchOver(src, byU16, a, hash, table[..], xs, entered, ip, gap); }
        return false, 0, 0, entered;
      }
      ghost var before := table[..];
      cand, forwardH := Probe(src, table, byU16, hash, h, ip, forwardIp, reach);
      if Doomed(src, ip0, a) && !Stalled(a, k) { DoomedProbe(src, ip0, a, k, was, gap, count, cand); }
      SameSelf(src, ip);
      if (byU16 || ip <= cand + MAX_DISTANCE) && Same4(src, cand, ip) {
        if a > 0 { Accepted(src, byU16, a, hash, before, xs, entered, ip); }
        return true, ip, cand, entered;
      }
      if a > 0 {
        Rejected(src, byU16, a, hash, before, xs, entered, ip, cand);
        entered := entered + {ip};
        Onward(src, byU16, a, hash, table[..], xs, entered, ip, gap);
      }
      k := k + 1;
      reach := ip + 1;
      if !Stalled(a, k) {
        BelowMore(table[..], reach, forwardIp);
        reach := forwardIp;
      }
    }
  }

  /** Read the entry, hash the next position, and take over the entry. */
  method Probe(src: Bytes, table: array<nat>, byU16: bool, hash: Bytes -> nat, h: nat, ip: nat, forwardIp: nat,
               ghost reach: nat)
    returns (cand: nat, forwardH: nat)
    requires ip <= forwardIp && forwardIp + MFLIMIT <= |src| <= MAX_INPUT_SIZE && (byU16 ==> |src| < SMALL_LIMIT)
    requires InTable(hash, table.Length) && h < table.Length && Below(table[..], reach) && reach <= ip + 1
    modifies table
    ensures cand == old(table[h]) < reach && Below(table[..], ip + 1) && table[h] == ip && table[..] == old(table[..])[h := ip]
    ensures forwardH == hash(Hashed(src, forwardIp, byU16)) && forwardH < table.Length
  {
    cand := table[h];
    forwardH := hash(Hashed(src, forwardIp, byU16));
    Put(table, h, ip, byU16, |src|, reach);
  }

  /** Extend the match backwards over bytes that are still literals. */
  method CatchUp(src: Bytes, ip0: nat, cand0: nat, anchor: nat) returns (ip: nat, cand: nat)
    requires cand0 <= ip0 <= |src| && anchor <= ip0
    ensures anchor <= ip <= ip0 && cand <= ip && ip - cand == ip0 - cand0
    ensures Repeats(src, ip, ip0, ip0 - cand0)
    ensures cand0 == ip0 && anchor == 0 ==> ip == 0
  {
    ip, cand := ip0, cand0;
    while ip > anchor && cand > 0 && src[ip - 1] == src[cand - 1]
      invariant anchor <= ip <= ip0 && cand <= ip && ip - cand == ip0 - cand0
      invariant Repeats(src, ip, ip0, ip0 - cand0)
    {
      ip, cand := ip - 1, cand - 1;
    }
  }

  // ---------- emitting ----------

  method EmitRun(dest: array<byte>, op0: nat, x: nat) returns (op: nat)
    requires op0 + x / 255 + 1 <= dest.Length
    modifies dest
    ensures op == op0 + x / 255 + 1 && dest[..op] == old(dest[..op0]) + RunBytes(x)
  {
    op := op0;
    var len := x;
    while len >= 255
      invariant len % 255 == x % 255 && 0 <= len <= x && op == op0 + (x - len) / 255
      invariant dest[..op] + RunBytes(len) == old(dest[..op0]) + RunBytes(x)
    {
      ghost var before := dest[..op];
      dest[op] := 255;
      op := op + 1;
      assert dest[..op] == before + [255];
      assert before + ([255] + RunBytes(len - 255)) == before + [255] + RunBytes(len - 255);
      len := len - 255;
    }
    ghost var before := dest[..op];
    dest[op] := len;
    op := op + 1;
    assert dest[..op] == before + [len];
  }

  /** The token with the number of literals, and the rest of that number. */
  method EmitToken(dest: array<byte>, op0: nat, litLength: nat) returns (op: nat)
    requires op0 + 1 + |Extra(litLength)| <= dest.Length
    modifies dest
    ensures op == op0 + 1 + |Extra(litLength)|
    ensures dest[..op] == old(dest[..op0]) + ([Nibble(litLength) * 16] + Extra(litLength))
  {
    hide RunBytes;
    ghost var was := dest[..op0];
    op := op0 + 1;
    if litLength >= RUN_MASK {
      dest[op0] := RUN_MASK * 16;
      assert dest[..op] == was + [RUN_MASK * 16];
      op := EmitRun(dest, op, litLength - RUN_MASK);
      Assoc(was, [RUN_MASK * 16], RunBytes(litLength - RUN_MASK));
    } else {
      dest[op0] := litLength * 16;
      assert [Nibble(litLength) * 16] + Extra(litLength) == [litLength * 16];
    }
  }

  /** Token and literals.  The token still lacks the match length. */
  method EmitLiterals(src: Bytes, dest: array<byte>, op0: nat, anchor: nat, ip: nat, limited: bool, olimit: nat)
    returns (ok: bool, op: nat)
    requires anchor <= ip && ip + 8 <= |src|
    requires if limited then olimit <= dest.Length else op0 + 1 + (ip - anchor) + (ip - anchor + 240) / 255 + 8 <= dest.Length
    modifies dest
    ensures ok <==> !limited || op0 + 1 + (ip - anchor) + (2 + 1 + LASTLITERALS) + (ip - anchor) / 255 <= olimit
    ensures ok ==> op == op0 + |Head(src[anchor..ip], 0)| && op <= dest.Length
    ensures ok ==> dest[..op] == old(dest[..op0]) + Head(src[anchor..ip], 0)
    ensures ok && limited ==> op + 7 <= olimit
  {
    var litLength := ip - anchor;
    op := op0 + 1;
    if limited && op + litLength + (2 + 1 + LASTLITERALS) + litLength / 255 > olimit {
      return false, op0;
    }
    ok := true;
    op := EmitToken(dest, op0, litLength);
    ghost var t: Bytes := [Nibble(litLength) * 16];
    WildCopyFrom(dest, op, src, anchor, op + litLength);
    op := op + litLength;
    Assoc(old(dest[..op0]), t + Extra(litLength), src[anchor..ip]);
  }

  lemma Assoc(a: Bytes, b: Bytes, c: Bytes)
    ensures a + b + c == a + (b + c)
  {}

  /** Bytes at `op` and after, all 255, by four-byte stores that may write too far. */
  method EmitFours(dest: array<byte>, op0: nat, x: nat) returns (op: nat)
    requires op0 + x / 255 + 4 <= dest.Length
    modifies dest
    ensures op == op0 + x / 255 + 1 && dest[..op] == old(dest[..op0]) + RunBytes(x)
    ensures forall k :: op <= k < op0 + 4 * (x / 1020) + 4 ==> dest[k] == 255
  {
    op := op0;
    var code := x;
    ghost var j: nat := 0;
    dest[op], dest[op + 1], dest[op + 2], dest[op + 3] := 255, 255, 255, 255;
    while code >= 4 * 255
      invariant 0 <= code == x - 1020 * j && op == op0 + 4 * j && op + 4 <= dest.Length
      invariant forall k :: op0 <= k < op + 4 ==> dest[k] == 255
      invariant forall k :: 0 <= k < op0 ==> dest[k] == old(dest[k])
    {
      op := op + 4;
      dest[op], dest[op + 1], dest[op + 2], dest[op + 3] := 255, 255, 255, 255;
      code, j := code - 4 * 255, j + 1;
    }
    Fours(x, j);
    op := op + code / 255;
    dest[op] := code % 255;
    op := op + 1;
    RunDone(old(dest[..]), dest[..], op0, x);
  }

  lemma Fours(x: nat, j: nat)
    requires 1020 * j <= x < 1020 * (j + 1)
    ensures x / 1020 == j && x / 255 == 4 * j + (x - 1020 * j) / 255 && x % 255 == (x - 1020 * j) % 255
  {}

  lemma RunDone(was: Bytes, now: Bytes, op: nat, x: nat)
    requires |was| == |now| && op + x / 255 + 1 <= |was|
    requires forall k :: 0 <= k < op ==> now[k] == was[k]
    requires (forall k :: op <= k < op + x / 255 ==> now[k] == 255) && now[op + x / 255] == x % 255
    ensures now[..op + x / 255 + 1] == was[..op] + RunBytes(x)
  {
    RunBytesShape(x);
  }

  /** How far the stores of a match's length bytes reach. */
  function Written(code: nat): nat {
    if code < ML_MASK then 0 else 4 * ((code - ML_MASK) / 1020) + 4
  }

  /** The length bytes, and the token and offset of a further sequence, before which there is
      no other test for room. */
  ghost function Untested(code: nat): nat {
    |Extra(code)| + 3
  }

  /** By how much what follows the test for room can exceed the limit. */
  function Slack(n: nat): nat {
    if n < SPILLING then 0 else (n - SPILLING) / 65280 + 1
  }

  /** The test counts a length byte per 256 where the format takes one per 255. */
  lemma GuardSuffices(code: nat, n: nat)
    requires code + 10 <= n
    ensures Written(code) <= Untested(code) <= 6 + code / 256 + Slack(n)
  {
    if code >= ML_MASK {
      Digits(code);
    }
  }

  /** Of every code, 255 times the excess is bounded by its two base-256 digits. */
  lemma Digits(code: nat)
    requires code >= ML_MASK
    ensures (code - ML_MASK) / 255 <= code / 256 + 2 + Slack(code + 10)
  {
    var q, r := code / 256, code % 256;
    assert code - ML_MASK == 255 * q + (q + r - ML_MASK);
    assert q + r - ML_MASK < 255 * (3 + Slack(code + 10));
  }

  /** Among the codes possible for an input of `n` bytes, one reaches that far. */
  lemma SlackAttained(n: nat) returns (code: nat)
    requires n >= SPILLING
    ensures code + 10 <= n && Written(code) == 6 + code / 256 + Slack(n)
  {
    code := SPILLING - 10 + 65280 * (Slack(n) - 1);
    assert code - ML_MASK == 1020 * (132 + 64 * (Slack(n) - 1));
    assert code == 256 * (525 + 255 * (Slack(n) - 1)) + 255;
  }

  /** The test for room is right for all codes of an input just when the input is smaller
      than 134665 bytes. */
  lemma GuardIff(n: nat)
    ensures (forall code: nat :: code + 10 <= n ==> Written(code) <= 6 + code / 256) <==> n < SPILLING
  {
    if n < SPILLING {
      forall code: nat | code + 10 <= n ensures Written(code) <= 6 + code / 256 { GuardSuffices(code, n); }
    } else {
      var code := SlackAttained(n);
      assert Written(code) > 6 + code / 256;
    }
  }

  /** Room for what may be written: in the unlimited mode the published bound.  A match at the
      very start of the input, which only a stalled search finds, is one byte longer than any
      other can be; `m` counts it in. */
  ghost predicate Room(limited: bool, maxOutputSize: nat, n: nat, m: nat, size: nat) {
    n <= m && if limited then maxOutputSize + Slack(m) <= size else Bound(n) <= size
  }

  /** Stores beyond `op`, up to `end`, that belong to no byte of the block. */
  ghost predicate Spilled(a: Bytes, op: nat, end: nat) {
    forall k :: op <= k < end && k < |a| ==> a[k] == 255
  }

  /** Where the match ends that starts with four equal bytes. */
  method MatchEnd(src: Bytes, ip: nat, cand: nat) returns (end: nat)
    requires cand <= ip && ip + MFLIMIT <= |src| && Same4(src, cand, ip)
    ensures ip + MINMATCH <= end && end + LASTLITERALS <= |src| && Repeats(src, ip, end, ip - cand)
    ensures end + LASTLITERALS < |src| ==> src[end] != src[end - (ip - cand)]
  {
    var matchCode := Count(src, ip + MINMATCH, cand + MINMATCH, |src| - LASTLITERALS);
    end := ip + MINMATCH + matchCode;
  }

  /** Offset and match length; the token at `token` receives the match length's share. */
  method EmitMatch(src: Bytes, dest: array<byte>, token: nat, op0: nat, ip0: nat, cand: nat, limited: bool, olimit: nat,
                   ghost m: nat)
    returns (ok: bool, op: nat, ip: nat)
    requires token < op0 && op0 + 2 <= dest.Length && dest[token] <= 240
    requires cand <= ip0 <= cand + MAX_DISTANCE && ip0 + MFLIMIT <= |src| <= m && Same4(src, cand, ip0)
    requires cand < ip0 || |src| < m
    requires if limited then olimit + Slack(m) <= dest.Length else op0 + 2 + (|src| - ip0) / 255 + 4 <= dest.Length
    modifies dest
    ensures ip0 + MINMATCH <= ip && ip + LASTLITERALS <= |src| && Repeats(src, ip0, ip, ip0 - cand)
    ensures ip + LASTLITERALS < |src| ==> src[ip] != src[ip - (ip0 - cand)]
    ensures ok <==> !limited || op0 + 2 + (1 + LASTLITERALS) + (ip - ip0 - MINMATCH) / 256 <= olimit
    ensures ok ==> op0 <= op <= dest.Length
    ensures ok ==> Spilled(dest[..], op, op0 + 2 + Written(ip - ip0 - MINMATCH))
    ensures ok ==> MatchEmitted(old(dest[..op0]), dest[..op], token, ip0 - cand, ip - ip0)
    ensures ok && limited ==> op + 3 <= dest.Length
  {
    hide Repeats, MatchEmitted, Extra, Tail, Same4, Slack, Nibble, Written, Spilled;
    ghost var was := dest[..op0];
    op := EmitOffset(dest, op0, ip0 - cand);
    ip := MatchEnd(src, ip0, cand);
    ok, op := EmitLength(dest, token, op, ip - ip0 - MINMATCH, limited, olimit, m, |src| - ip0);
    if ok { Emitted(was, dest[..op], token, ip0 - cand, ip - ip0); }
  }

  /** The match length, if there is room for it. */
  method EmitLength(dest: array<byte>, token: nat, op0: nat, matchCode: nat, limited: bool, olimit: nat, ghost n: nat,
                    ghost left: nat)
    returns (ok: bool, op: nat)
    requires token < op0 <= dest.Length && dest[token] <= 240 && matchCode + MINMATCH <= left && matchCode + 10 <= n
    requires if limited then olimit + Slack(n) <= dest.Length else op0 + left / 255 + 4 <= dest.Length
    modifies dest
    ensures ok <==> !limited || op0 + (1 + LASTLITERALS) + matchCode / 256 <= olimit
    ensures ok ==> op0 <= op && op + 3 <= dest.Length
    ensures ok ==> Spilled(dest[..], op, op0 + Written(matchCode))
    ensures ok ==> dest[..op] == old(dest[..op0])[token := old(dest[token]) + Nibble(matchCode)] + Extra(matchCode)
  {
    hide Extra, Slack, Nibble, Written, Untested;
    if limited && op0 + (1 + LASTLITERALS) + matchCode / 256 > olimit {
      return false, op0;
    }
    LengthFits(limited, op0, matchCode, olimit, n, dest.Length, left);
    ok := true;
    op := EmitMatchLength(dest, token, op0, matchCode);
  }

  method EmitOffset(dest: array<byte>, op0: nat, distance: nat) returns (op: nat)
    requires distance <= MAX_DISTANCE && op0 + 2 <= dest.Length
    modifies dest
    ensures op == op0 + 2 && dest[..op] == old(dest[..op0]) + [distance % 256, distance / 256]
  {
    var offset := distance % 0x1_0000;
    dest[op0], dest[op0 + 1] := offset % 256, offset / 256;
    op := op0 + 2;
  }

  /** Either bound leaves room for the length bytes and, in the limited mode, more. */
  lemma LengthFits(limited: bool, op0: nat, code: nat, olimit: nat, n: nat, size: nat, left: nat)
    requires code + MINMATCH <= left && code + 10 <= n
    requires if limited then olimit + Slack(n) <= size else op0 + left / 255 + 4 <= size
    requires limited ==> op0 + (1 + LASTLITERALS) + code / 256 <= olimit
    ensures op0 + Untested(code) <= size
  {
    hide Slack, Written;
    GuardSuffices(code, n);
  }

  /** The two offset bytes and the extra length bytes together. */
  lemma Emitted(was: Bytes, after: Bytes, token: nat, offset: nat, len: nat)
    requires offset <= MAX_DISTANCE && len >= MINMATCH && token < |was| && was[token] <= 240
    requires var o: Bytes := [offset % 256, offset / 256];
      after == (was + o)[token := was[token] + Nibble(len - MINMATCH)] + Extra(len - MINMATCH)
    ensures MatchEmitted(was, after, token, offset, len)
  {
    var o: Bytes := [offset % 256, offset / 256];
    Joined(was, o, Extra(len - MINMATCH), token, was[token] + Nibble(len - MINMATCH));
    assert Tail(Sequence([], offset, len)) == o + Extra(len - MINMATCH);
  }

  lemma Joined(was: Bytes, o: Bytes, e: Bytes, token: nat, v: byte)
    requires token < |was|
    ensures (was + o)[token := v] + e == was[token := v] + (o + e)
  {}

  method EmitMatchLength(dest: array<byte>, token: nat, op0: nat, matchCode: nat) returns (op: nat)
    requires token < op0 && op0 + Untested(matchCode) <= dest.Length && dest[token] <= 240
    modifies dest
    ensures op == op0 + |Extra(matchCode)| && op + 3 <= dest.Length
    ensures Spilled(dest[..], op, op0 + Written(matchCode))
    ensures dest[..op] == old(dest[..op0])[token := old(dest[token]) + Nibble(matchCode)] + Extra(matchCode)
  {
    ghost var was := dest[..op0];
    op := op0;
    if matchCode >= ML_MASK {
      dest[token] := dest[token] + ML_MASK;
      assert dest[..op] == was[token := was[token] + ML_MASK];
      op := EmitFours(dest, op, matchCode - ML_MASK);
    } else {
      dest[token] := dest[token] + matchCode;
      assert dest[..op] == was[token := was[token] + matchCode];
    }
  }

  lemma HeadPatched(lits: Bytes, code: nat)
    ensures |Head(lits, 0)| > 0 && |Head(lits, code)| > 0 && Head(lits, 0)[0] <= 240
    ensures Head(lits, 0)[0 := Head(lits, 0)[0] + Nibble(code)] == Head(lits, code)
  {
    var rest := Extra(|lits|) + lits;
    var t: byte, t': byte := Nibble(|lits|) * 16 + Nibble(0), Nibble(|lits|) * 16 + Nibble(code);
    assert Head(lits, 0) == [t] + rest;
    assert Head(lits, code) == [t'] + rest;
    assert ([t] + rest)[0 := t'] == [t'] + rest;
  }

  /** With the token patched and the match appended, one more sequence is encoded. */
  lemma SequenceDone(written: Bytes, xs: seq<Sequence>, x: Sequence)
    requires AllEncodable(xs) && Encodable(x) && written == Encode(xs) + Head(x.lits, 0)
    ensures |Encode(xs)| < |written| && written[|Encode(xs)|] <= 240
    ensures AllEncodable(xs + [x])
    ensures written[|Encode(xs)| := written[|Encode(xs)|] + Nibble(x.len - MINMATCH)] + Tail(x) == Encode(xs + [x])
    ensures Span(xs + [x]) == Span(xs) + |x.lits| + x.len
  {
    hide Encode, Head, Tail, EncodeOne, Span, Nibble;
    EncodeSnoc(xs, x);
    HeadPatched(x.lits, x.len - MINMATCH);
    EncodeOneSplit(x, []);
    var a, h, h', z := Encode(xs), Head(x.lits, 0), Head(x.lits, x.len - MINMATCH), Tail(x);
    assert EncodeOne(x) + [] == EncodeOne(x) && z + [] == z;
    Patch(a, h, z, h'[0]);
  }

  lemma Patch(a: Bytes, h: Bytes, z: Bytes, v: byte)
    requires |h| > 0
    ensures (a + h)[|a|] == h[0]
    ensures (a + h)[|a| := v] + z == a + (h[0 := v] + z)
  {
    assert (a + h)[|a| := v] == a + h[0 := v];
  }

  /** The block so far: `op` bytes hold the sequences for everything before `anchor`. */
  ghost predicate Encoded(written: Bytes, xs: seq<Sequence>, anchor: nat) {
    AllEncodable(xs) && written == Encode(xs) && Span(xs) == anchor
  }

  /** The same with the next sequence's token and literals. */
  ghost predicate Opened(written: Bytes, xs: seq<Sequence>, anchor: nat, token: nat, lits: Bytes) {
    AllEncodable(xs) && written == Encode(xs) + Head(lits, 0) && Span(xs) == anchor && token == |Encode(xs)|
  }

  /** Everything the match loop needs of a candidate; the ghost `probe` is where the search
      found it, before any catching up. */
  ghost predicate Candidate(src: Bytes, table: seq<nat>, ip: nat, cand: nat, probe: nat) {
    && cand <= ip <= cand + MAX_DISTANCE && ip <= probe && probe + MFLIMIT <= |src|
    && Repeats(src, ip, probe + MINMATCH, ip - cand) && Below(table, probe + 1)
  }

  /** What a match of `len` bytes adds, whatever the literals before it. */
  ghost predicate MatchEmitted(before: Bytes, after: Bytes, token: nat, offset: nat, len: nat) {
    var x := Sequence([], offset, len);
    && Encodable(x) && token < |before| && before[token] <= 240
    && after == before[token := before[token] + Nibble(x.len - MINMATCH)] + Tail(x)
  }

  /** One sequence ends: encode it and continue behind it. */
  method CloseSequence(src: Bytes, dest: array<byte>, table: array<nat>, token: nat, op0: nat, anchor: nat, ip0: nat,
                       cand: nat,
                       limited: bool, olimit: nat, ghost xs: seq<Sequence>, ghost probe: nat, ghost m: nat)
    returns (ok: bool, op: nat, ip: nat, ghost xs': seq<Sequence>)
    requires anchor <= ip0 && Candidate(src, table[..], ip0, cand, probe) && Room(limited, olimit, |src|, m, dest.Length)
    requires cand < ip0 || |src| < m
    requires op0 + 2 <= dest.Length && Opened(dest[..op0], xs, anchor, token, src[anchor..ip0])
    modifies dest
    ensures probe + MINMATCH <= ip && ip + LASTLITERALS <= |src| && (cand == ip0 || Uniform(src) ==> ip + LASTLITERALS == |src|)
    ensures ok <==> !limited || op0 + 2 + (1 + LASTLITERALS) + (ip - ip0 - MINMATCH) / 256 <= olimit
    ensures ok ==> Spilled(dest[..], op, op0 + 2 + Written(ip - ip0 - MINMATCH))
    ensures ip0 <= ip && xs' == xs + [Sequence(src[anchor..ip0], ip0 - cand, ip - ip0)]
    ensures ok ==> op <= dest.Length && Encoded(dest[..op], xs', ip) && (limited ==> op + 3 <= dest.Length)
    ensures Parses(src, xs, anchor, RULES) && cand < ip0 ==> Parses(src, xs', ip, RULES)
  {
    hide Candidate, Opened, Encoded, Room, Parses, Same4, Repeats, MatchEmitted, Below, Slack, Bound, Encode, Head,
      Span, AllEncodable, Written, Spilled, Uniform;
    ghost var written := dest[..op0];
    CandidateView(src, table[..], ip0, cand, probe);
    OpenedView(written, xs, anchor, token, src[anchor..ip0]);
    if !limited { OpenedFits(xs, src[anchor..ip0], |src|); }
    RoomView(limited, olimit, |src|, m, dest.Length);
    ok, op, ip := EmitMatch(src, dest, token, op0, ip0, cand, limited, olimit, m);
    if Uniform(src) { UniformEnd(src, ip, ip0 - cand); }
    ghost var x := Sequence(src[anchor..ip0], ip0 - cand, ip - ip0);
    xs' := xs + [x];
    if ok {
      CloseDone(written, dest[..op], xs, anchor, token, x);
    }
    if Parses(src, xs, anchor, RULES) && cand < ip0 {
      ParsesMore(src, xs, anchor, ip0, ip0 - cand, ip, RULES);
    }
  }

  lemma UniformEnd(src: Bytes, end: nat, off: nat)
    requires Uniform(src) && off <= end <= |src| && (end + LASTLITERALS < |src| ==> src[end] != src[end - off])
    requires end + LASTLITERALS <= |src|
    ensures end + LASTLITERALS == |src|
  {}

  lemma RoomView(limited: bool, maxOutputSize: nat, n: nat, m: nat, size: nat)
    requires Room(limited, maxOutputSize, n, m, size)
    ensures n <= m && if limited then maxOutputSize + Slack(m) <= size else Bound(n) <= size
  {}

  lemma CloseDone(written: Bytes, after: Bytes, xs: seq<Sequence>, anchor: nat, token: nat, x: Sequence)
    requires Opened(written, xs, anchor, token, x.lits) && MatchEmitted(written, after, token, x.offset, x.len)
    ensures Encoded(after, xs + [x], anchor + |x.lits| + x.len)
  {
    assert Tail(x) == Tail(Sequence([], x.offset, x.len));
    SequenceDone(written, xs, x);
  }

  lemma OpenedView(written: Bytes, xs: seq<Sequence>, anchor: nat, token: nat, lits: Bytes)
    requires Opened(written, xs, anchor, token, lits)
    ensures token < |written| && written[token] <= 240
    ensures AllEncodable(xs) && Span(xs) == anchor && |written| == |Encode(xs)| + |Head(lits, 0)|
  {
    HeadPatched(lits, 0);
    assert written[token] == Head(lits, 0)[0];
  }

  lemma OpenedFits(xs: seq<Sequence>, lits: Bytes, n: nat)
    requires AllEncodable(xs) && Span(xs) + |lits| + MFLIMIT <= n
    ensures var op := |Encode(xs)| + |Head(lits, 0)|;
      op + 2 + (n - Span(xs) - |lits|) / 255 + 4 <= Bound(n)
  {
    EncodeSize(xs);
  }

  lemma CandidateView(src: Bytes, table: seq<nat>, ip: nat, cand: nat, probe: nat)
    requires Candidate(src, table, ip, cand, probe)
    ensures Same4(src, cand, ip) && cand <= ip <= cand + MAX_DISTANCE && ip <= probe && probe + MFLIMIT <= |src|
    ensures Repeats(src, ip, probe + MINMATCH, ip - cand) && Below(table, probe + 1)
  {
    assert src[ip] == src[cand] && src[ip + 1] == src[cand + 1] && src[ip + 2] == src[cand + 2] && src[ip + 3] == src[cand + 3];
  }

  /** Token and literals of the next sequence. */
  method OpenSequence(src: Bytes, dest: array<byte>, op0: nat, anchor: nat, ip: nat, limited: bool, olimit: nat,
                      ghost xs: seq<Sequence>,
                      ghost m: nat)
    returns (ok: bool, op: nat)
    requires anchor <= ip && ip + MFLIMIT <= |src| && op0 <= dest.Length && Encoded(dest[..op0], xs, anchor)
    requires Room(limited, olimit, |src|, m, dest.Length)
    modifies dest
    ensures ok <==> !limited || op0 + 1 + (ip - anchor) + (2 + 1 + LASTLITERALS) + (ip - anchor) / 255 <= olimit
    ensures ok ==> op + 2 <= dest.Length && Opened(dest[..op], xs, anchor, op0, src[anchor..ip])
  {
    if !limited { LiteralsFit(xs, anchor, ip, |src|); }
    ok, op := EmitLiterals(src, dest, op0, anchor, ip, limited, olimit);
    if !limited { OpenedFits(xs, src[anchor..ip], |src|); }
  }

  lemma LiteralsFit(xs: seq<Sequence>, anchor: nat, ip: nat, n: nat)
    requires AllEncodable(xs) && Span(xs) == anchor <= ip && ip + MFLIMIT <= n
    ensures |Encode(xs)| + 1 + (ip - anchor) + (ip - anchor + 240) / 255 + 8 <= Bound(n)
    ensures |Encode(xs)| + 3 <= Bound(n)
  {
    EncodeSize(xs);
  }

  /** A sequence without literals, when the next match follows at once. */
  method OpenEmpty(src: Bytes, dest: array<byte>, op0: nat, ip: nat, limited: bool, olimit: nat, ghost xs: seq<Sequence>,
                   ghost m: nat)
    returns (op: nat)
    requires ip + MFLIMIT <= |src| && op0 <= dest.Length && Encoded(dest[..op0], xs, ip)
    requires Room(limited, olimit, |src|, m, dest.Length) && (limited ==> op0 + 3 <= dest.Length)
    modifies dest
    ensures op + 2 <= dest.Length && Opened(dest[..op], xs, ip, op0, src[ip..ip])
  {
    LiteralsFit(xs, ip, ip, |src|);
    dest[op0] := 0;
    op := op0 + 1;
    assert Head(src[ip..ip], 0) == [0];
    assert dest[..op] == old(dest[..op0]) + [0];
  }

  /** Right behind a match; nothing of its last two bytes has been entered. */
  ghost predicate Behind(src: Bytes, s: Finder, table: seq<nat>, xs: seq<Sequence>, entered: set<nat>, q: nat) {
    q >= 2 && Scanned(src, s, table, xs, entered, q) && Before(entered, q - 2) && !LiteralAt(xs, q - 2)
  }

  lemma Entered(src: Bytes, byU16: bool, a: nat, hash: Bytes -> nat, table: seq<nat>, xs: seq<Sequence>,
                entered: set<nat>, q: nat)
    requires Behind(src, FastFinder(byU16, a, hash), table, xs, entered, q) && q + MFLIMIT <= |src|
    requires hash(Hashed(src, q - 2, byU16)) < |table|
    ensures Scanned(src, FastFinder(byU16, a, hash), table[hash(Hashed(src, q - 2, byU16)) := q - 2], xs, entered + {q - 2}, q)
  {
    hide Scanned, Before, LiteralAt;
    CodeIs(src, byU16, a, hash, q - 2);
    ScanEnter(src, FastFinder(byU16, a, hash), table, xs, entered, q - 2, q);
  }

  /** After a match: enter the position two back and this one, and see what was here. */
  method NextCandidate(src: Bytes, table: array<nat>, byU16: bool, hash: Bytes -> nat, ip: nat, ghost q: nat, ghost a: nat,
                       ghost xs: seq<Sequence>, ghost entered: set<nat>)
    returns (again: bool, cand: nat)
    requires 3 <= ip && ip + MFLIMIT <= |src| <= MAX_INPUT_SIZE && (byU16 ==> |src| < SMALL_LIMIT)
    requires InTable(hash, table.Length) && Below(table[..], q) && q + 3 <= ip
    requires a > 0 ==> Behind(src, FastFinder(byU16, a, hash), table[..], xs, entered, ip)
    modifies table
    ensures Below(table[..], ip + 1)
    ensures again ==> cand < ip && Candidate(src, table[..], ip, cand, ip)
    ensures a > 0 && again ==>
      Follows(src, FastFinder(byU16, a, hash), table[..], xs, entered + {ip - 2}, ip) && Before(entered + {ip - 2}, ip)
    ensures a > 0 && !again ==> Scanned(src, FastFinder(byU16, a, hash), table[..], xs, entered + {ip - 2} + {ip}, ip + 1)
  {
    hide Scanned, Follows, Before, Behind, FastFinder, Hashed, Same4, InTable, Below, Candidate;
    SlotOf(hash, table.Length, Hashed(src, ip - 2, byU16));
    SlotOf(hash, table.Length, Hashed(src, ip, byU16));
    if a > 0 { Entered(src, byU16, a, hash, table[..], xs, entered, ip); }
    Put(table, hash(Hashed(src, ip - 2, byU16)), ip - 2, byU16, |src|, q);
    var h := hash(Hashed(src, ip, byU16));
    cand := table[h];
    EntryBelow(table[..], ip - 1, h);
    ghost var before := table[..];
    Put(table, h, ip, byU16, |src|, ip - 1);
    again := ip <= cand + MAX_DISTANCE && Same4(src, cand, ip);
    if again { FourCandidate(src, table[..], ip, cand); }
    if a > 0 {
      if again {
        Accepted(src, byU16, a, hash, before, xs, entered + {ip - 2}, ip);
      } else {
        Rejected(src, byU16, a, hash, before, xs, entered + {ip - 2}, ip, cand);
      }
    }
  }

  lemma EntryBelow(table: seq<nat>, p: nat, h: nat)
    requires Below(table, p) && h < |table|
    ensures table[h] < p
  {}

  lemma FourCandidate(src: Bytes, table: seq<nat>, ip: nat, cand: nat)
    requires ip + MFLIMIT <= |src| && cand < ip <= cand + MAX_DISTANCE && Same4(src, cand, ip) && Below(table, ip + 1)
    ensures Candidate(src, table, ip, cand, ip)
  {
    FourRepeat(src, cand, ip);
  }

  lemma CaughtUp(src: Bytes, table: seq<nat>, probe: nat, cand0: nat, ip: nat, cand: nat)
    requires cand0 <= probe <= cand0 + MAX_DISTANCE && probe + MFLIMIT <= |src| && Same4(src, cand0, probe) && Below(table, probe + 1)
    requires ip <= probe && cand <= ip && ip - cand == probe - cand0 && Repeats(src, ip, probe, ip - cand)
    ensures Candidate(src, table, ip, cand, probe)
  {
    FourRepeat(src, cand0, probe);
  }

  /** From a match on: one sequence after another while the next match follows at once. */
  /** How the search stands behind a match. */
  lemma Closed(src: Bytes, byU16: bool, a: nat, hash: Bytes -> nat, table: seq<nat>, xs: seq<Sequence>, x: Sequence,
               entered: set<nat>,
               written: Bytes, probe: nat, ip: nat)
    requires Follows(src, FastFinder(byU16, a, hash), table, xs, entered, probe) && Before(entered, probe)
    requires Encoded(written, xs + [x], ip) && a > 0
    requires ip <= |src| && ip == Span(xs) + |x.lits| + x.len && ip >= probe + MINMATCH && probe >= Span(xs) + |x.lits|
    ensures Behind(src, FastFinder(byU16, a, hash), table, xs + [x], entered + {probe}, ip)
    ensures ip > |src| - MFLIMIT ==> NothingMissed(src, FastFinder(byU16, a, hash), xs + [x], SearchEnd(|src|, a))
  {
    hide Scanned, Before, Encode, LiteralAt, NothingMissed;
    var s := FastFinder(byU16, a, hash);
    assert Takes(s, xs, x, probe);
    assert Scanned(src, s, table, xs + [x], entered + {probe}, ip);
    EncodedLong(written, xs + [x], ip);
    assert AllLong(xs) by { assert forall i :: 0 <= i < |xs| ==> xs[i] == (xs + [x])[i]; }
    InMatch(xs, x, 2);
    BeforeMore(entered, probe, ip - 2);
    if ip > |src| - MFLIMIT { ScanEnd(src, s, table, xs + [x], entered + {probe}, ip, SearchEnd(|src|, a)); }
  }

  lemma BeforeMore(entered: set<nat>, p: nat, q: nat)
    requires Before(entered, p) && p < q
    ensures Before(entered + {p}, q)
  {}

  lemma EncodedLong(written: Bytes, xs: seq<Sequence>, anchor: nat)
    requires Encoded(written, xs, anchor)
    ensures AllLong(xs) && Span(xs) == anchor
  {}

  method EmitChain(src: Bytes, dest: array<byte>, table: array<nat>, token0: nat, op0: nat, anchor0: nat, ip0: nat,
                   cand0: nat,
                   limited: bool, olimit: nat, byU16: bool, hash: Bytes -> nat, ghost xs0: seq<Sequence>, ghost probe: nat,
                   ghost m: nat, ghost a: nat, ghost entered0: set<nat>)
    returns (ok: bool, last: bool, op: nat, ip: nat, ghost xs: seq<Sequence>, ghost entered: set<nat>)
    requires |src| <= MAX_INPUT_SIZE && (byU16 ==> |src| < SMALL_LIMIT)
    requires Room(limited, olimit, |src|, m, dest.Length) && InTable(hash, table.Length) && (cand0 < ip0 || |src| < m)
    requires anchor0 <= ip0 && Candidate(src, table[..], ip0, cand0, probe)
    requires op0 + 2 <= dest.Length && Opened(dest[..op0], xs0, anchor0, token0, src[anchor0..ip0])
    requires a > 0 ==> Follows(src, FastFinder(byU16, a, hash), table[..], xs0, entered0, probe) && Before(entered0, probe)
    modifies dest, table
    ensures !limited ==> ok
    ensures probe < ip <= |src| && (cand0 == ip0 || Uniform(src) ==> last && ip + LASTLITERALS == |src|)
    ensures ok ==> op <= dest.Length && Encoded(dest[..op], xs, ip)
    ensures ok && !last ==> ip + MFLIMIT <= |src| && Below(table[..], ip + 1)
    ensures a > 0 && ok && !last ==> Scanned(src, FastFinder(byU16, a, hash), table[..], xs, entered, ip + 1)
    ensures a > 0 && ok && last ==> NothingMissed(src, FastFinder(byU16, a, hash), xs, SearchEnd(|src|, a))
    ensures ok && cand0 < ip0 && Parses(src, xs0, anchor0, RULES) ==> Parses(src, xs, ip, RULES)
    ensures cand0 == ip0 || Uniform(src) ==> ip0 <= ip && xs == xs0 + [Sequence(src[anchor0..ip0], ip0 - cand0, ip - ip0)]
    ensures cand0 == ip0 || Uniform(src) ==>
      (ok <==> !limited || op0 + 2 + (1 + LASTLITERALS) + (|src| - LASTLITERALS - ip0 - MINMATCH) / 256 <= olimit)
    ensures ok && (cand0 == ip0 || Uniform(src)) ==>
      Spilled(dest[..], op, op0 + 2 + Written(|src| - LASTLITERALS - ip0 - MINMATCH))
  {
    hide Room, InTable, Candidate, Opened, Encoded, Parses, Below, Uniform, Spilled, Written, Scanned, Follows,
      Before, Behind, FastFinder,
      NothingMissed, SearchEnd, Takes, Encode, Head, AllEncodable, Span, Same4;
    ghost var sane := cand0 < ip0 && Parses(src, xs0, anchor0, RULES);
    ghost var reach: nat := probe;
    var token: nat, anchor: nat, cand: nat := token0, anchor0, cand0;
    op, ip, xs, entered := op0, ip0, xs0, entered0;
    CandidateView(src, table[..], ip, cand, reach);
    while true
      invariant anchor <= ip <= reach && cand <= ip && probe <= reach && reach + MFLIMIT <= |src|
      invariant op + 2 <= dest.Length && Opened(dest[..op], xs, anchor, token, src[anchor..ip])
      invariant Candidate(src, table[..], ip, cand, reach)
      invariant a > 0 ==> Follows(src, FastFinder(byU16, a, hash), table[..], xs, entered, reach) && Before(entered, reach)
      invariant sane ==> cand < ip && Parses(src, xs, anchor, RULES)
      invariant cand < ip || |src| < m
      invariant cand0 == ip0 || Uniform(src) ==> cand == cand0 && ip == ip0 && xs == xs0 && anchor == anchor0 && op == op0
      decreases |src| - reach
    {
      CandidateView(src, table[..], ip, cand, reach);
      ghost var was, start := xs, ip;
      OpenedView(dest[..op], xs, anchor, token, src[anchor..ip]);
      ok, op, ip, xs := CloseSequence(src, dest, table, token, op, anchor, ip, cand, limited, olimit, xs, reach, m);
      if ok && a > 0 {
        Closed(src, byU16, a, hash, table[..], was, Sequence(src[anchor..start], start - cand, ip - start), entered, dest[..op], reach, ip);
        entered := entered + {reach};
      }
      if !ok || ip > |src| - MFLIMIT {
        last := true;
        return;
      }
      var again;
      again, cand := NextCandidate(src, table, byU16, hash, ip, reach + 1, a, xs, entered);
      entered := entered + {ip - 2};
      anchor, reach := ip, ip;
      if !again {
        entered := entered + {ip};
        last := false;
        return;
      }
      token := op;
      op := OpenEmpty(src, dest, op, ip, limited, olimit, xs, m);
    }
  }

  lemma NothingYet(src: Bytes, written: Bytes)
    requires written == []
    ensures Encoded(written, [], 0) && Parses(src, [], 0, RULES)
  {
    assert src[..0] == [];
  }

  /** Input of which all but the last five bytes become one match, in the one case behind a
      single literal, in the other from the very start. */
  ghost predicate OneMatch(src: Bytes, acceleration: nat) {
    Uniform(src) || (!StepsOn(acceleration) && Unrepetitive(src))
  }

  ghost function Lead(src: Bytes): nat {
    if Uniform(src) then 1 else 0
  }

  ghost function LongCode(src: Bytes): nat
    requires |src| >= 14
  {
    |src| - LASTLITERALS - Lead(src) - MINMATCH
  }

  /** What the length of the input is charged as when the room is reckoned. */
  ghost function Charged(n: nat, acceleration: nat): nat {
    if StepsOn(acceleration) then n else n + 1
  }

  /** What there is to know about the single match. */
  ghost predicate Alone(src: Bytes, limited: bool, olimit: nat, ok: bool, xs: seq<Sequence>, anchor: nat,
                        written: Bytes, op: nat)
    requires |src| >= 14
  {
    && (ok <==> !limited || Lead(src) + 9 + LongCode(src) / 256 <= olimit)
    && (ok ==> anchor == |src| - LASTLITERALS >= Lead(src) && xs == [Sequence(src[..Lead(src)], Lead(src), anchor - Lead(src))]
               && Spilled(written, op, Lead(src) + 3 + Written(LongCode(src))))
  }

  lemma UniformStart(src: Bytes, byU16: bool, hash: Bytes -> nat, table: seq<nat>)
    requires Uniform(src) && MIN_LENGTH <= |src| && InTable(hash, |table|) && table[hash(Hashed(src, 0, byU16))] == 0
    requires |src| >= 14
    ensures FirstHit(src, table, byU16, hash, 1) && table[hash(Hashed(src, 1, byU16))] == 0
  {
    assert src[0..8] == src[1..9] && src[0..4] == src[1..5];
    assert Hashed(src, 0, byU16) == Hashed(src, 1, byU16);
  }

  lemma NotBoth(src: Bytes)
    requires Unrepetitive(src)
    ensures !Uniform(src)
  {
    if Uniform(src) { assert Same4(src, 0, 1); }
  }

  /** All sequences: search, emit, and as long as a match follows at once, emit again. */
  method EmitSequences(src: Bytes, dest: array<byte>, table: array<nat>, limited: bool, olimit: nat, byU16: bool,
                       hash: Bytes -> nat,
                       acceleration: nat)
    returns (ok: bool, op: nat, anchor: nat, ghost xs: seq<Sequence>)
    requires MIN_LENGTH <= |src| <= MAX_INPUT_SIZE && (byU16 ==> |src| < SMALL_LIMIT)
    requires Room(limited, olimit, |src|, Charged(|src|, acceleration), dest.Length) && InTable(hash, table.Length) && Below(table[..], 1)
    modifies dest, table
    ensures !limited ==> ok
    ensures ok ==> op <= dest.Length && anchor <= |src| && Encoded(dest[..op], xs, anchor)
    ensures ok && StepsOn(acceleration) ==> Parses(src, xs, anchor, RULES)
    ensures ok && StepsOn(acceleration) ==>
      NothingMissed(src, FastFinder(byU16, Effective(acceleration), hash), xs, SearchEnd(|src|, Effective(acceleration)))
    ensures OneMatch(src, acceleration) && |src| >= 14 ==>
      Alone(src, limited, olimit, ok, xs, anchor, dest[..], op)
  {
    hide Encoded, Parses, Below, InTable, StepsOn, Unrepetitive, Room, Hashed, Candidate, Opened, Encode, Head,
      FirstHit, Uniform, Spilled,
      Written, OneMatch, Scanned, Follows, Before, FastFinder, NothingMissed, SearchEnd, Span;
    ghost var a, entered := Effective(acceleration), {0};
    StepsOnIs(acceleration);
    SlotOf(hash, table.Length, Hashed(src, 0, byU16));
    FirstEntered(src, byU16, a, hash, table[..]);
    Put(table, hash(Hashed(src, 0, byU16)), 0, byU16, |src|, 1);
    op, anchor, xs := 0, 0, [];
    var ip := 1;
    NothingYet(src, dest[..op]);
    ghost var alone := OneMatch(src, acceleration) && |src| >= 14;
    while true
      invariant 1 <= ip && ip + 11 <= |src| && anchor <= ip && Below(table[..], ip)
      invariant op <= dest.Length && Encoded(dest[..op], xs, anchor)
      invariant StepsOn(acceleration) ==> Parses(src, xs, anchor, RULES)
      invariant StepsOn(acceleration) ==> ip == anchor + 1 && Scanned(src, FastFinder(byU16, a, hash), table[..], xs, entered, ip)
      invariant alone ==> ip == 1 && anchor == 0 && xs == [] && op == 0
      invariant alone ==> hash(Hashed(src, 0, byU16)) < table.Length && table[hash(Hashed(src, 0, byU16))] == 0
      decreases |src| - ip
    {
      if alone { AloneStart(src, byU16, hash, table[..], acceleration); }
      EncodedLong(dest[..op], xs, anchor);
      var found, probe, cand0;
      found, probe, cand0, entered := FindMatch(src, table, byU16, hash, ip, acceleration, xs, entered);
      if !found {
        return true, op, anchor, xs;
      }
      var cand;
      ip, cand := CatchUp(src, probe, cand0, anchor);
      CaughtUp(src, table[..], probe, cand0, ip, cand);
      var token, last := op, false;
      ghost var was := xs;
      ok, op := OpenSequence(src, dest, op, anchor, ip, limited, olimit, xs, Charged(|src|, acceleration));
      if !ok { return; }
      if alone { AloneOpen(src, dest[..op]); }
      ghost var start := op;
      ok, last, op, ip, xs, entered := EmitChain(src, dest, table, token, op, anchor, ip, cand, limited, olimit, byU16, hash, xs, probe,
                                        Charged(|src|, acceleration), a, entered);
      if !ok { return; }
      anchor := ip;
      if last {
        return true, op, anchor, xs;
      }
      ip := ip + 1;
    }
  }

  lemma StepsOnIs(acceleration: nat)
    ensures StepsOn(acceleration) <==> Effective(acceleration) > 0
  {}

  lemma FirstEntered(src: Bytes, byU16: bool, a: nat, hash: Bytes -> nat, table: seq<nat>)
    requires MFLIMIT <= |src| && hash(Hashed(src, 0, byU16)) < |table|
    ensures Scanned(src, FastFinder(byU16, a, hash), table[hash(Hashed(src, 0, byU16)) := 0], [], {0}, 1)
  {
    var s := FastFinder(byU16, a, hash);
    CodeIs(src, byU16, a, hash, 0);
    ScanStart(src, s, table, [], 0);
    ScanMiss(src, s, table, [], {}, 0);
    assert {} + {0} == {0};
  }

  lemma AloneStart(src: Bytes, byU16: bool, hash: Bytes -> nat, table: seq<nat>, acceleration: nat)
    requires OneMatch(src, acceleration) && |src| >= 14 && InTable(hash, |table|) && table[hash(Hashed(src, 0, byU16))] == 0
    ensures Uniform(src) ==> FirstHit(src, table, byU16, hash, 1) && table[hash(Hashed(src, 1, byU16))] == 0
    ensures !Uniform(src) ==> !StepsOn(acceleration) && Unrepetitive(src)
  {
    if Uniform(src) { UniformStart(src, byU16, hash, table); }
  }

  lemma AloneOpen(src: Bytes, written: Bytes)
    requires |src| >= 14 && Opened(written, [], 0, 0, src[0..Lead(src)])
    ensures |written| == 1 + Lead(src)
  {}

  /** The literals after the last match. */
  method EmitLast(src: Bytes, dest: array<byte>, op0: nat, anchor: nat, limited: bool, maxOutputSize: nat,
                  ghost xs: seq<Sequence>)
    returns (res: nat)
    requires anchor <= |src| && op0 <= dest.Length && Encoded(dest[..op0], xs, anchor)
    requires !limited ==> Bound(|src|) <= dest.Length
    requires limited ==> maxOutputSize <= dest.Length
    modifies dest
    ensures res <= dest.Length && (limited ==> res <= maxOutputSize)
    ensures res > 0 <==> !limited || op0 + (|src| - anchor) + 1 + (|src| - anchor + 240) / 255 <= maxOutputSize
    ensures res == 0 ==> dest[..] == old(dest[..])
    ensures res > 0 ==> dest[..res] == Block(xs, src[anchor..])
  {
    var lastRun := |src| - anchor;
    if limited && op0 + lastRun + 1 + (lastRun + 255 - RUN_MASK) / 255 > maxOutputSize {
      return 0;
    }
    BlockSize(xs, src[anchor..]);
    ghost var was, last := dest[..op0], src[anchor..];
    hide Encoded, Block;
    var op := EmitToken(dest, op0, lastRun);
    ghost var t: Bytes := [Nibble(lastRun) * 16];
    CopyIn(dest, op, src, anchor);
    Assoc(was, t + Extra(lastRun), last);
    res := op + lastRun;
  }

  /** `memcpy` of the rest of the input. */
  method CopyIn(a: array<byte>, op: nat, src: Bytes, anchor: nat)
    requires anchor <= |src| && op + |src| - anchor <= a.Length
    modifies a
    ensures a[..op + |src| - anchor] == old(a[..op]) + src[anchor..]
  {
    forall k | 0 <= k < |src| - anchor {
      a[op + k] := src[anchor + k];
    }
  }

  /** Whatever buffer starts with the block, and however much room there is beyond what is
      needed, the decoder gives `out`. */
  ghost predicate DecodesTo(block: Bytes, out: Bytes) {
    forall buffer: Bytes, cap: nat :: Opens(buffer) && block <= buffer && |out| <= cap ==>
      Decode(buffer, |block|, cap) == Done(out)
  }

  lemma ParsedDecodes(src: Bytes, xs: seq<Sequence>, anchor: nat)
    requires Parses(src, xs, anchor, RULES) && AllEncodable(xs)
    ensures DecodesTo(Block(xs, src[anchor..]), src)
  {
    var block := Block(xs, src[anchor..]);
    assert src[..anchor] + src[anchor..] == src;
    forall buffer: Bytes, cap: nat | Opens(buffer) && block <= buffer && |src| <= cap
      ensures Decode(buffer, |block|, cap) == Done(src)
    {
      DecodeBlock(buffer, |block|, xs, src[anchor..], |src|, cap);
    }
  }

  /** The test for the room of the long match passes, the one for the last literals fails. */
  ghost predicate Overtaken(src: Bytes, acceleration: nat, maxOutputSize: nat) {
    && |src| >= 14 && OneMatch(src, acceleration)
    && Lead(src) + 9 + LongCode(src) / 256 <= maxOutputSize
    && maxOutputSize < Lead(src) + 3 + |Extra(LongCode(src))| + 6
  }

  /** What `n` equal bytes are compressed to: a literal, a match and five literals. */
  function UniformSize(n: nat): nat
    requires n >= 14
  {
    10 + if n >= 25 then (n - 25) / 255 + 1 else 0
  }

  /** `LZ4_compress_generic` without a dictionary, on a zeroed table. */
  method CompressGeneric(src: Bytes, dest: array<byte>, maxOutputSize: nat, limited: bool, byU16: bool, table: array<nat>,
                         hash: Bytes -> nat, acceleration: nat)
    returns (res: nat, ghost xs: seq<Sequence>, ghost anchor: nat)
    requires |src| <= MAX_INPUT_SIZE ==> Room(limited, maxOutputSize, |src|, Charged(|src|, acceleration), dest.Length)
    requires InTable(hash, table.Length) && Below(table[..], 1)
    modifies dest, table
    ensures res <= dest.Length && (limited ==> res <= maxOutputSize)
    ensures |src| > MAX_INPUT_SIZE || (byU16 && |src| >= SMALL_LIMIT) ==> res == 0
    ensures |src| <= MAX_INPUT_SIZE && (byU16 ==> |src| < SMALL_LIMIT) && !limited ==> res > 0
    ensures res > 0 ==> anchor <= |src| && AllEncodable(xs) && Span(xs) == anchor && dest[..res] == Block(xs, src[anchor..])
    ensures res > 0 && (StepsOn(acceleration) || |src| < MIN_LENGTH) ==> Parses(src, xs, anchor, RULES)
    ensures res > 0 && !StepsOn(acceleration) && Unrepetitive(src) ==>
      anchor == |src| - LASTLITERALS && xs == [Sequence([], 0, anchor)]
    ensures res > 0 && StepsOn(acceleration) && |src| >= MIN_LENGTH ==>
      NothingMissed(src, FastFinder(byU16, Effective(acceleration), hash), xs, SearchEnd(|src|, Effective(acceleration)))
    ensures res > 0 && |src| >= 14 && Uniform(src) ==> res == UniformSize(|src|)
    ensures |src| <= MAX_INPUT_SIZE && (byU16 ==> |src| < SMALL_LIMIT) && limited && Overtaken(src, acceleration, maxOutputSize) ==>
      res == 0 && Spilled(dest[..], Lead(src) + 3 + |Extra(LongCode(src))|, Lead(src) + 3 + Written(LongCode(src)))
  {
    xs, anchor := [], 0;
    if |src| > MAX_INPUT_SIZE || (byU16 && |src| >= SMALL_LIMIT) {
      return 0, xs, anchor;
    }
    hide Block, Parses, Unrepetitive, Overtaken, Alone, OneMatch, Encoded, Spilled, Written, NothingMissed,
      FastFinder, SearchEnd;
    var op, from := 0, 0;
    NothingYet(src, dest[..op]);
    RoomView(limited, maxOutputSize, |src|, Charged(|src|, acceleration), dest.Length);
    if |src| >= MIN_LENGTH {
      var ok;
      ok, op, from, xs := EmitSequences(src, dest, table, limited, maxOutputSize, byU16, hash, acceleration);
      AloneView(src, limited, maxOutputSize, acceleration, ok, xs, from, dest[..], op);
      if !ok {
        return 0, xs, 0;
      }
    }
    anchor := from;
    ghost var was := dest[..];
    EncodedView(dest[..op], xs, from);
    Short(src, acceleration, maxOutputSize);
    res := EmitLast(src, dest, op, from, limited, maxOutputSize, xs);
  }

  lemma EncodedView(written: Bytes, xs: seq<Sequence>, anchor: nat)
    requires Encoded(written, xs, anchor)
    ensures AllEncodable(xs) && Span(xs) == anchor
  {}

  lemma Short(src: Bytes, acceleration: nat, maxOutputSize: nat)
    ensures |src| < MIN_LENGTH ==> !Overtaken(src, acceleration, maxOutputSize) && !Unrepetitive(src)
  {}

  lemma UniformBlock(src: Bytes, xs: seq<Sequence>, anchor: nat)
    requires |src| >= 14 && anchor == |src| - LASTLITERALS && xs == [Sequence(src[..1], 1, anchor - 1)] && AllEncodable(xs)
    ensures |Block(xs, src[anchor..])| == UniformSize(|src|)
  {
    assert Encode(xs) == EncodeOne(xs[0]) + Encode([]) == EncodeOne(xs[0]);
    assert |src[..1]| == 1 && |src[anchor..]| == 5;
  }

  /** What the single match means for the outcome. */
  lemma AloneView(src: Bytes, limited: bool, maxOutputSize: nat, acceleration: nat, ok: bool, xs: seq<Sequence>, anchor: nat,
                  dest: Bytes, op: nat)
    requires ok ==> op <= |dest| && Encoded(dest[..op], xs, anchor)
    requires OneMatch(src, acceleration) && |src| >= 14 ==> Alone(src, limited, maxOutputSize, ok, xs, anchor, dest, op)
    ensures ok && !StepsOn(acceleration) && Unrepetitive(src) ==> anchor == |src| - LASTLITERALS && xs == [Sequence([], 0, anchor)]
    ensures ok && Uniform(src) && |src| >= 14 ==> anchor == |src| - LASTLITERALS && |Block(xs, src[anchor..])| == UniformSize(|src|)
    ensures limited && Overtaken(src, acceleration, maxOutputSize) ==>
      ok && anchor == |src| - LASTLITERALS && op + LASTLITERALS + 1 > maxOutputSize
      && Spilled(dest, Lead(src) + 3 + |Extra(LongCode(src))|, Lead(src) + 3 + Written(LongCode(src)))
  {
    hide Spilled, Written, Same4, StepsOn;
    if Unrepetitive(src) { NotBoth(src); }
    if ok && Uniform(src) && |src| >= 14 { UniformBlock(src, xs, anchor); }
    if limited && Overtaken(src, acceleration, maxOutputSize) {
      var x := Sequence(src[..Lead(src)], Lead(src), anchor - Lead(src));
      assert Encode([x]) == EncodeOne(x) + Encode([]) == EncodeOne(x);
      assert |Head(x.lits, x.len - MINMATCH)| == 1 + Lead(src);
    }
  }
}
