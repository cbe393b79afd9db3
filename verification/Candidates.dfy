/**
 Which repetitions the compressors find.  A table under an arbitrary hash keeps the newest
 position for each hash value; a position that was looked up and yet became a literal had
 nothing equal there, so any equal place before it had been overwritten by a collision.
 */
module Candidates {
  import opened Lz77

  // ---------- literals and matches by position ----------

  ghost predicate LiteralAt(xs: seq<Sequence>, q: nat) {
    xs == [] || q < |xs[0].lits| ||
    (q >= |xs[0].lits| + xs[0].len && LiteralAt(xs[1..], q - |xs[0].lits| - xs[0].len))
  }

  ghost predicate MatchAt(xs: seq<Sequence>, q: nat) {
    xs != [] &&
    (q == |xs[0].lits| || (q >= |xs[0].lits| + xs[0].len && MatchAt(xs[1..], q - |xs[0].lits| - xs[0].len)))
  }

  /** Where the literals begin that lead up to a position. */
  ghost function RunStart(xs: seq<Sequence>, q: nat): nat {
    if xs == [] || q < |xs[0].lits| + xs[0].len then 0
    else |xs[0].lits| + xs[0].len + RunStart(xs[1..], q - |xs[0].lits| - xs[0].len)
  }

  ghost predicate AllLong(xs: seq<Sequence>) {
    forall i :: 0 <= i < |xs| ==> xs[i].len > 0
  }

  /** Beyond the last match everything is literal. */
  lemma {:induction false} Beyond(xs: seq<Sequence>, q: nat)
    requires AllLong(xs) && q >= Span(xs)
    ensures LiteralAt(xs, q) && !MatchAt(xs, q) && RunStart(xs, q) == Span(xs)
  {
    if xs != [] { Beyond(xs[1..], q - |xs[0].lits| - xs[0].len); }
  }

  /** One more sequence changes nothing before its match. */
  lemma {:induction false} Snoc(xs: seq<Sequence>, x: Sequence, q: nat)
    requires AllLong(xs) && x.len > 0
    ensures var m := Span(xs) + |x.lits|;
      && (q < m ==> (LiteralAt(xs + [x], q) <==> LiteralAt(xs, q)) && (MatchAt(xs + [x], q) <==> MatchAt(xs, q))
                    && RunStart(xs + [x], q) == RunStart(xs, q))
      && (m <= q < m + x.len ==> !LiteralAt(xs + [x], q) && (MatchAt(xs + [x], q) <==> q == m) && RunStart(xs + [x], q) == Span(xs))
  {
    if xs == [] {
      assert xs + [x] == [x];
    } else {
      assert (xs + [x])[1..] == xs[1..] + [x];
      var a := |xs[0].lits| + xs[0].len;
      if q >= a {
        Snoc(xs[1..], x, q - a);
      }
    }
  }

  // ---------- the table ----------

  /** How a compressor searches: table entries are relative to `base`; the search starts at `first`, and up to
      `width` places behind the start of a run all are looked up; `key` bytes are hashed; a match reaches back at
      most `reach` bytes; and `exact` says that matches begin where they are looked up. */
  datatype Finder = Finder(base: nat, first: nat, width: nat, key: nat, reach: nat, exact: bool, hash: Bytes -> nat)

  ghost function Code(src: Bytes, s: Finder, p: nat): nat
    requires p + s.key <= |src|
  {
    s.hash(src[p..p + s.key])
  }

  ghost predicate Equal(src: Bytes, s: Finder, p: nat, q: nat) {
    p + s.key <= |src| && q + s.key <= |src| && src[p..p + s.key] == src[q..q + s.key]
  }

  lemma EqualStart(src: Bytes, s: Finder, p: nat, q: nat)
    requires s.key >= 4 && Equal(src, s, p, q)
    ensures Same4(src, p, q)
  {
    var a, b := src[p..p + s.key], src[q..q + s.key];
    assert a[0] == src[p] && a[1] == src[p + 1] && a[2] == src[p + 2] && a[3] == src[p + 3];
    assert b[0] == src[q] && b[1] == src[q + 1] && b[2] == src[q + 2] && b[3] == src[q + 3];
  }

  lemma NotEqual(src: Bytes, s: Finder, p: nat, q: nat)
    requires s.key >= 4 && p + 4 <= |src| && q + 4 <= |src| && !Same4(src, p, q)
    ensures !Equal(src, s, p, q)
  {
    hide Equal, Same4;
    if Equal(src, s, p, q) { EqualStart(src, s, p, q); }
  }

  /** Each position entered is still there, or a newer one with its hash value is. */
  ghost predicate Kept(src: Bytes, s: Finder, table: seq<nat>, entered: set<nat>, p: nat) {
    && s.base <= p && p + s.key <= |src| && Code(src, s, p) < |table|
    && var r := s.base + table[Code(src, s, p)];
       p <= r && r in entered && r + s.key <= |src| && Code(src, s, r) == Code(src, s, p)
  }

  ghost predicate Tracks(src: Bytes, s: Finder, table: seq<nat>, entered: set<nat>) {
    forall p :: p in entered ==> Kept(src, s, table, entered, p)
  }

  ghost predicate Before(entered: set<nat>, q: nat) {
    forall p :: p in entered ==> p < q
  }

  lemma KeptOn(src: Bytes, s: Finder, table: seq<nat>, entered: set<nat>, p: nat, q: nat)
    requires Kept(src, s, table, entered, p) && Before(entered, q)
    requires s.base <= q && q + s.key <= |src| && Code(src, s, q) < |table|
    ensures Kept(src, s, table[Code(src, s, q) := q - s.base], entered + {q}, p)
  {
    hide Code;
    var r := s.base + table[Code(src, s, p)];
    assert r < q;
  }

  lemma Enter(src: Bytes, s: Finder, table: seq<nat>, entered: set<nat>, q: nat)
    requires Tracks(src, s, table, entered) && Before(entered, q)
    requires s.base <= q && q + s.key <= |src| && Code(src, s, q) < |table|
    ensures Tracks(src, s, table[Code(src, s, q) := q - s.base], entered + {q}) && Before(entered + {q}, q + 1)
  {
    hide Code, Kept;
    var table', entered' := table[Code(src, s, q) := q - s.base], entered + {q};
    forall p | p in entered' ensures Kept(src, s, table', entered', p) {
      if p in entered {
        KeptOn(src, s, table, entered, p, q);
      } else {
        KeptNow(src, s, table, entered, q);
      }
    }
  }

  lemma KeptNow(src: Bytes, s: Finder, table: seq<nat>, entered: set<nat>, q: nat)
    requires s.base <= q && q + s.key <= |src| && Code(src, s, q) < |table|
    ensures Kept(src, s, table[Code(src, s, q) := q - s.base], entered + {q}, q)
  {
    hide Code;
  }

  /** Different bytes with the same hash value. */
  ghost predicate Collides(src: Bytes, s: Finder, r: nat, q: nat) {
    r + s.key <= |src| && q + s.key <= |src| && Code(src, s, r) == Code(src, s, q) && !Equal(src, s, r, q)
  }

  /** A place in reach with the same bytes. */
  ghost predicate Repeat(src: Bytes, s: Finder, p: nat, q: nat) {
    p < q <= p + s.reach && Equal(src, s, p, q)
  }

  ghost predicate Hidden(src: Bytes, s: Finder, p: nat, q: nat) {
    exists r: nat :: p < r < q && Collides(src, s, r, q)
  }

  /** All that `q` repeats is hidden by a collision. */
  ghost predicate Passed(src: Bytes, s: Finder, entered: set<nat>, q: nat) {
    forall p :: p in entered && Repeat(src, s, p, q) ==> Hidden(src, s, p, q)
  }

  lemma MissOne(src: Bytes, s: Finder, table: seq<nat>, entered: set<nat>, p: nat, q: nat)
    requires Kept(src, s, table, entered, p) && Before(entered, q) && q + s.key <= |src| && Repeat(src, s, p, q)
    requires Code(src, s, q) < |table| && !Repeat(src, s, s.base + table[Code(src, s, q)], q)
    ensures Hidden(src, s, p, q)
  {
    var r := s.base + table[Code(src, s, q)];
    assert Code(src, s, p) == Code(src, s, q);
    hide Code, Equal, Before;
    assert r != p;
    assert r < q by { BeforeThis(entered, q, r); }
    assert Collides(src, s, r, q);
  }

  lemma BeforeThis(entered: set<nat>, q: nat, r: nat)
    requires Before(entered, q) && r in entered
    ensures r < q
  {}

  /** The entry is looked at and is no match. */
  lemma Miss(src: Bytes, s: Finder, table: seq<nat>, entered: set<nat>, q: nat)
    requires Tracks(src, s, table, entered) && Before(entered, q) && q + s.key <= |src|
    requires Code(src, s, q) < |table| && !Repeat(src, s, s.base + table[Code(src, s, q)], q)
    ensures Passed(src, s, entered, q)
  {
    hide Code, Repeat, Kept, Before, Hidden;
    forall p | p in entered && Repeat(src, s, p, q) ensures Hidden(src, s, p, q) {
      MissOne(src, s, table, entered, p, q);
    }
  }

  // ---------- the search ----------

  function Max(a: nat, b: nat): nat {
    if a < b then b else a
  }

  /** Places that are looked up for certain: where a match begins, and the first literals of a run. */
  ghost predicate Sure(xs: seq<Sequence>, s: Finder, p: nat) {
    && s.first <= p && (MatchAt(xs, p) || LiteralAt(xs, p))
    && ((MatchAt(xs, p) && s.exact) || p <= Max(RunStart(xs, p), s.base) + s.width)
  }

  ghost predicate Misses(src: Bytes, s: Finder, xs: seq<Sequence>, entered: set<nat>) {
    forall q :: q in entered && LiteralAt(xs, q) ==> Passed(src, s, entered, q)
  }

  ghost predicate Dense(s: Finder, xs: seq<Sequence>, entered: set<nat>, upto: nat) {
    forall q :: s.first <= q < upto && Sure(xs, s, q) ==> q in entered
  }

  /** Before `upto` all is looked up that has to be, and nothing was passed over. */
  ghost predicate Scanned(src: Bytes, s: Finder, table: seq<nat>, xs: seq<Sequence>, entered: set<nat>, upto: nat) {
    && AllLong(xs) && Tracks(src, s, table, entered) && Before(entered, upto)
    && Misses(src, s, xs, entered) && Dense(s, xs, entered, upto)
  }

  lemma ScanStart(src: Bytes, s: Finder, table: seq<nat>, xs: seq<Sequence>, upto: nat)
    requires AllLong(xs) && upto <= s.first
    ensures Scanned(src, s, table, xs, {}, upto)
  {}

  /** The next place to look up is no further away than it has to be. */
  ghost predicate Steps(s: Finder, xs: seq<Sequence>, upto: nat, q: nat) {
    Span(xs) <= q && upto <= q && (q == upto || (Span(xs) <= upto && upto > Max(Span(xs), s.base) + s.width))
  }

  lemma Skip(src: Bytes, s: Finder, table: seq<nat>, xs: seq<Sequence>, entered: set<nat>, upto: nat, q: nat)
    requires Scanned(src, s, table, xs, entered, upto) && Steps(s, xs, upto, q)
    ensures Scanned(src, s, table, xs, entered, q)
  {
    forall p | s.first <= p < q && Sure(xs, s, p) ensures p in entered {
      if p >= upto { Beyond(xs, p); }
    }
  }

  lemma StillPassed(src: Bytes, s: Finder, entered: set<nat>, q: nat, q': nat)
    requires Passed(src, s, entered, q) && q <= q'
    ensures Passed(src, s, entered + {q'}, q)
  {
    hide Equal, Hidden;
  }

  lemma MissesOn(src: Bytes, s: Finder, xs: seq<Sequence>, xs': seq<Sequence>, entered: set<nat>, q: nat)
    requires Misses(src, s, xs, entered) && Before(entered, q)
    requires LiteralAt(xs', q) ==> Passed(src, s, entered, q)
    requires forall p :: p in entered && LiteralAt(xs', p) ==> LiteralAt(xs, p)
    ensures Misses(src, s, xs', entered + {q})
  {
    hide Passed, LiteralAt;
    forall p | p in entered + {q} && LiteralAt(xs', p) ensures Passed(src, s, entered + {q}, p) {
      StillPassed(src, s, entered, p, q);
    }
  }

  lemma ScanMiss(src: Bytes, s: Finder, table: seq<nat>, xs: seq<Sequence>, entered: set<nat>, q: nat)
    requires Scanned(src, s, table, xs, entered, q) && s.base <= q && q + s.key <= |src|
    requires Code(src, s, q) < |table| && !Repeat(src, s, s.base + table[Code(src, s, q)], q)
    ensures Scanned(src, s, table[Code(src, s, q) := q - s.base], xs, entered + {q}, q + 1)
  {
    hide Tracks, Before, Passed, Code, Repeat, Sure, LiteralAt, Misses;
    Miss(src, s, table, entered, q);
    Enter(src, s, table, entered, q);
    MissesOn(src, s, xs, xs, entered, q);
  }

  /** The match `x` is made of what was found at `q`. */
  ghost predicate Takes(s: Finder, xs: seq<Sequence>, x: Sequence, q: nat) {
    Span(xs) + |x.lits| <= q < Span(xs) + |x.lits| + x.len && (s.exact ==> q == Span(xs) + |x.lits|)
  }

  lemma DenseOn(src: Bytes, s: Finder, xs: seq<Sequence>, entered: set<nat>, q: nat, x: Sequence)
    requires AllLong(xs) && Dense(s, xs, entered, q) && Takes(s, xs, x, q)
    ensures Dense(s, xs + [x], entered + {q}, Span(xs) + |x.lits| + x.len)
  {
    hide LiteralAt, MatchAt, RunStart;
    var m := Span(xs) + |x.lits|;
    Beyond(xs, m);
    forall p | s.first <= p < m + x.len && Sure(xs + [x], s, p) ensures p in entered + {q} {
      Snoc(xs, x, p);
    }
  }

  lemma ScanMatch(src: Bytes, s: Finder, table: seq<nat>, xs: seq<Sequence>, entered: set<nat>, q: nat, x: Sequence)
    requires Scanned(src, s, table, xs, entered, q) && s.base <= q && q + s.key <= |src|
    requires Code(src, s, q) < |table| && Takes(s, xs, x, q)
    ensures Scanned(src, s, table[Code(src, s, q) := q - s.base], xs + [x], entered + {q}, Span(xs) + |x.lits| + x.len)
  {
    hide Tracks, Passed, Code, Equal, LiteralAt, MatchAt, RunStart, Misses, Dense;
    Enter(src, s, table, entered, q);
    forall p | p in entered && LiteralAt(xs + [x], p) ensures LiteralAt(xs, p) { Snoc(xs, x, p); }
    Snoc(xs, x, q);
    MissesOn(src, s, xs, xs + [x], entered, q);
    DenseOn(src, s, xs, entered, q, x);
  }

  /** Whatever match is made of what was found at `q`, the scan goes on behind it. */
  ghost predicate Follows(src: Bytes, s: Finder, table: seq<nat>, xs: seq<Sequence>, entered: set<nat>, q: nat) {
    forall x: Sequence {:trigger xs + [x]} :: Takes(s, xs, x, q) ==>
      Scanned(src, s, table, xs + [x], entered + {q}, Span(xs) + |x.lits| + x.len)
  }

  lemma Followed(src: Bytes, s: Finder, table: seq<nat>, xs: seq<Sequence>, entered: set<nat>, q: nat)
    requires Scanned(src, s, table, xs, entered, q) && s.base <= q && q + s.key <= |src| && Code(src, s, q) < |table|
    ensures Follows(src, s, table[Code(src, s, q) := q - s.base], xs, entered, q)
  {
    hide Scanned, Takes, Code;
    forall x: Sequence | Takes(s, xs, x, q)
      ensures Scanned(src, s, table[Code(src, s, q) := q - s.base], xs + [x], entered + {q}, Span(xs) + |x.lits| + x.len)
    {
      ScanMatch(src, s, table, xs, entered, q, x);
    }
  }

  /** Of two equal places the later one is a literal only if a collision between them hides it. */
  ghost predicate NothingMissed(src: Bytes, s: Finder, xs: seq<Sequence>, limit: nat) {
    forall p: nat, q: nat :: q < limit && Sure(xs, s, p) && Sure(xs, s, q) && LiteralAt(xs, q) && Repeat(src, s, p, q) ==>
      Hidden(src, s, p, q)
  }

  lemma ScanEnd(src: Bytes, s: Finder, table: seq<nat>, xs: seq<Sequence>, entered: set<nat>, upto: nat, limit: nat)
    requires Scanned(src, s, table, xs, entered, upto) && limit <= upto
    ensures NothingMissed(src, s, xs, limit)
  {
    hide Tracks, Before, Equal, LiteralAt, Sure, Hidden;
    forall p: nat, q: nat | q < limit && Sure(xs, s, p) && Sure(xs, s, q) && LiteralAt(xs, q) && Repeat(src, s, p, q)
      ensures Hidden(src, s, p, q)
    {
      SureFirst(xs, s, p);
      SureFirst(xs, s, q);
      assert Passed(src, s, entered, q);
    }
  }

  lemma SureFirst(xs: seq<Sequence>, s: Finder, p: nat)
    requires Sure(xs, s, p)
    ensures s.first <= p
  {}

  /** A place inside the last match is entered as well. */
  lemma ScanEnter(src: Bytes, s: Finder, table: seq<nat>, xs: seq<Sequence>, entered: set<nat>, q: nat, upto: nat)
    requires Scanned(src, s, table, xs, entered, upto) && Before(entered, q) && q < upto && !LiteralAt(xs, q)
    requires s.base <= q && q + s.key <= |src| && Code(src, s, q) < |table|
    ensures Scanned(src, s, table[Code(src, s, q) := q - s.base], xs, entered + {q}, upto)
  {
    hide Tracks, Passed, Code, Sure, LiteralAt;
    Enter(src, s, table, entered, q);
    MissesOn(src, s, xs, xs, entered, q);
  }

  lemma InMatch(xs: seq<Sequence>, x: Sequence, d: nat)
    requires AllLong(xs) && 1 <= d <= x.len
    ensures !LiteralAt(xs + [x], Span(xs) + |x.lits| + x.len - d)
  {
    Snoc(xs, x, Span(xs) + |x.lits| + x.len - d);
  }

  // ---------- one chunk after another ----------

  ghost predicate Agree(xs: seq<Sequence>, ys: seq<Sequence>, limit: nat) {
    forall q: nat :: q < limit ==>
      (LiteralAt(xs, q) <==> LiteralAt(ys, q)) && (MatchAt(xs, q) <==> MatchAt(ys, q)) && RunStart(xs, q) == RunStart(ys, q)
  }

  lemma AgreeMore(xs: seq<Sequence>, ys: seq<Sequence>, x: Sequence, limit: nat)
    requires Agree(xs, ys, limit) && AllLong(ys) && x.len > 0 && limit <= Span(ys) + |x.lits|
    ensures Agree(xs, ys + [x], limit)
  {
    hide LiteralAt, MatchAt, RunStart;
    forall q: nat | q < limit
      ensures (LiteralAt(xs, q) <==> LiteralAt(ys + [x], q)) && (MatchAt(xs, q) <==> MatchAt(ys + [x], q))
        && RunStart(xs, q) == RunStart(ys + [x], q)
    {
      Snoc(ys, x, q);
    }
  }

  lemma StillNothing(src: Bytes, s: Finder, xs: seq<Sequence>, ys: seq<Sequence>, limit: nat)
    requires NothingMissed(src, s, xs, limit) && Agree(xs, ys, limit)
    ensures NothingMissed(src, s, ys, limit)
  {
    hide LiteralAt, MatchAt, RunStart, Equal, Hidden;
    forall p: nat, q: nat | q < limit && Sure(ys, s, p) && Sure(ys, s, q) && LiteralAt(ys, q) && Repeat(src, s, p, q)
      ensures Hidden(src, s, p, q)
    {
      assert Sure(xs, s, p) && Sure(xs, s, q) && LiteralAt(xs, q);
    }
  }
}
