/**
 What the codecs share: bytes, and the meaning of a back-reference as the
 byte-at-a-time copy that may read what it has just written.
 */
module Lz77 {

  type byte = x: int | 0 <= x < 256

  type Bytes = seq<byte>

  // ---------- numbers ----------

  /** `n` little-endian bytes of a number. */
  function LittleEndian(x: nat, n: nat): (r: Bytes)
    ensures |r| == n
  {
    if n == 0 then [] else [x % 256] + LittleEndian(x / 256, n - 1)
  }

  function Number(s: Bytes): nat {
    if s == [] then 0 else s[0] + 256 * Number(s[1..])
  }

  ghost function Limit(n: nat): (r: nat)
    ensures r > 0
  {
    if n == 0 then 1 else 256 * Limit(n - 1)
  }

  lemma {:induction false} NumberRead(x: nat, n: nat)
    requires x < Limit(n)
    ensures Number(LittleEndian(x, n)) == x
  {
    if n > 0 {
      assert x / 256 < Limit(n - 1);
      NumberRead(x / 256, n - 1);
    }
  }

  // ---------- copies ----------

  /** Append `len` bytes, each the one `offset` places back; an offset of zero stands for
      zero bytes, as the LZ4 decoder reads it. */
  ghost function MatchCopy(out: Bytes, offset: nat, len: nat): (r: Bytes)
    requires offset <= |out|
    ensures |r| == |out| + len
    decreases len
  {
    if len == 0 then out else MatchCopy(out + [Back(out, offset)], offset, len - 1)
  }

  ghost function Back(out: Bytes, offset: nat): byte
    requires offset <= |out|
  {
    if offset == 0 then 0 else out[|out| - offset]
  }

  /** From `from` on, every byte repeats the one `offset` places back. */
  ghost predicate Periodic(s: Bytes, from: nat, offset: nat) {
    offset <= from <= |s| && forall k :: from <= k < |s| ==> s[k] == if offset == 0 then 0 else s[k - offset]
  }

  /** The copy is the periodic extension, and there is only one. */
  lemma {:induction false} CopyIsPeriodic(out: Bytes, offset: nat, r: Bytes)
    requires offset <= |out| <= |r| && r[..|out|] == out && Periodic(r, |out|, offset)
    ensures MatchCopy(out, offset, |r| - |out|) == r
    decreases |r| - |out|
  {
    if |r| > |out| {
      assert r[|out|] == Back(out, offset);
      assert r[..|out| + 1] == out + [Back(out, offset)];
      CopyIsPeriodic(out + [Back(out, offset)], offset, r);
    }
  }

  lemma {:induction false} CopyExtends(out: Bytes, offset: nat, len: nat)
    requires offset <= |out|
    ensures MatchCopy(out, offset, len)[..|out|] == out && Periodic(MatchCopy(out, offset, len), |out|, offset)
    decreases len
  {
    if len > 0 {
      var out' := out + [Back(out, offset)];
      CopyExtends(out', offset, len - 1);
      var r := MatchCopy(out, offset, len);
      assert r[..|out|] == r[..|out'|][..|out|] == out;
      assert r[|out|] == r[..|out'|][|out|];
    }
  }

  /** A run in which every byte equals the one `off` places back. */
  ghost predicate Repeats(s: Bytes, from: nat, to: nat, off: nat)
    requires off <= from && to <= |s|
  {
    forall k :: from <= k < to ==> s[k] == s[k - off]
  }

  /** Copying over such a run gives what is there already. */
  lemma CopyRepeats(s: Bytes, from: nat, to: nat, off: nat)
    requires 1 <= off <= from <= to <= |s| && Repeats(s, from, to, off)
    ensures MatchCopy(s[..from], off, to - from) == s[..to]
  {
    CopyIsPeriodic(s[..from], off, s[..to]);
  }

  /** Eight bytes read at once agree. */
  predicate Eight(src: Bytes, i: nat, m: nat)
    requires m <= i && i + 8 <= |src|
  {
    src[i..i + 8] == src[m..m + 8]
  }

  lemma RepeatsOn(s: Bytes, from: nat, mid: nat, to: nat, off: nat)
    requires off <= from <= mid <= to <= |s| && Repeats(s, from, mid, off) && Repeats(s, mid, to, off)
    ensures Repeats(s, from, to, off)
  {}

  lemma SameEight(src: Bytes, i: nat, m: nat)
    requires m <= i && i + 8 <= |src|
    ensures Eight(src, i, m) <==> Repeats(src, i, i + 8, i - m)
  {
    if Eight(src, i, m) {
      forall k | i <= k < i + 8 ensures src[k] == src[k - (i - m)] {
        assert src[i..i + 8][k - i] == src[m..m + 8][k - i];
      }
    }
  }
  /** Going back by a multiple of the period. */
  lemma {:induction false} BackBy(a: Bytes, op: nat, offset: nat, k: nat, m: nat)
    requires 1 <= offset <= op && k + m * offset < |a| && op <= k + offset
    requires forall j :: op <= j <= k + m * offset ==> a[j] == a[j - offset]
    ensures a[k + m * offset] == a[k]
    decreases m
  {
    if m > 0 {
      assert k + (m - 1) * offset == k + m * offset - offset;
      BackBy(a, op, offset, k, m - 1);
      assert k + m * offset >= k + offset;
    }
  }

  // ---------- parses ----------

  /** Literals, then a copy of `len` bytes from `offset` bytes back. */
  datatype Sequence = Sequence(lits: Bytes, offset: nat, len: nat)

  /** What a format asks of its copies: the shortest, the farthest, and how much input there
      is to be left where one starts and where it ends. */
  datatype Rules = Rules(minLen: nat, maxOffset: nat, atStart: nat, atEnd: nat)

  ghost predicate Reaches(out: Bytes, x: Sequence) {
    x.offset <= |out| + |x.lits|
  }

  ghost function Apply(out: Bytes, x: Sequence): Bytes
    requires Reaches(out, x)
  {
    MatchCopy(out + x.lits, x.offset, x.len)
  }

  /** The sequences can be applied from `pos` on within a total of `n` bytes. */
  ghost predicate Fits(pos: nat, xs: seq<Sequence>, n: nat, r: Rules)
    decreases |xs|
  {
    xs == [] || (
      && xs[0].len >= r.minLen && 1 <= xs[0].offset <= r.maxOffset && xs[0].offset <= pos + |xs[0].lits|
      && pos + |xs[0].lits| + r.atStart <= n
      && pos + |xs[0].lits| + xs[0].len + r.atEnd <= n
      && Fits(pos + |xs[0].lits| + xs[0].len, xs[1..], n, r))
  }

  ghost function Grow(out: Bytes, xs: seq<Sequence>, n: nat, r: Rules): Bytes
    requires Fits(|out|, xs, n, r)
    decreases |xs|
  {
    if xs == [] then out else Grow(Apply(out, xs[0]), xs[1..], n, r)
  }

  /** How many bytes of output the sequences make. */
  ghost function Span(xs: seq<Sequence>): nat {
    if xs == [] then 0 else |xs[0].lits| + xs[0].len + Span(xs[1..])
  }

  lemma {:induction false} SpanSnoc(xs: seq<Sequence>, x: Sequence)
    ensures Span(xs + [x]) == Span(xs) + |x.lits| + x.len
  {
    if xs == [] {
      assert xs + [x] == [x];
    } else {
      SpanSnoc(xs[1..], x);
      assert (xs + [x])[1..] == xs[1..] + [x];
    }
  }

  lemma {:induction false} GrowSpan(out: Bytes, xs: seq<Sequence>, n: nat, r: Rules)
    requires Fits(|out|, xs, n, r)
    ensures |Grow(out, xs, n, r)| == |out| + Span(xs)
    decreases |xs|
  {
    if xs != [] { GrowSpan(Apply(out, xs[0]), xs[1..], n, r); }
  }

  lemma {:induction false} GrowSnoc(out: Bytes, xs: seq<Sequence>, x: Sequence, n: nat, r: Rules)
    requires Fits(|out|, xs, n, r) && Fits(|out| + Span(xs), [x], n, r)
    ensures |Grow(out, xs, n, r)| == |out| + Span(xs)
    ensures Fits(|out|, xs + [x], n, r) && Grow(out, xs + [x], n, r) == Apply(Grow(out, xs, n, r), x)
    decreases |xs|
  {
    if xs == [] {
      assert xs + [x] == [x];
    } else {
      GrowSnoc(Apply(out, xs[0]), xs[1..], x, n, r);
      assert (xs + [x])[1..] == xs[1..] + [x];
    }
  }

  /** The sequences so far stand for the first `anchor` bytes. */
  ghost predicate Parses(src: Bytes, xs: seq<Sequence>, anchor: nat, r: Rules) {
    anchor <= |src| && Fits(0, xs, |src|, r) && Grow([], xs, |src|, r) == src[..anchor]
  }

  lemma ParsesMore(src: Bytes, xs: seq<Sequence>, anchor: nat, ip: nat, off: nat, end: nat, r: Rules)
    requires Parses(src, xs, anchor, r) && anchor <= ip && ip + r.atStart <= |src| && ip + r.minLen <= end && end + r.atEnd <= |src|
    requires 1 <= off <= r.maxOffset && off <= ip && Repeats(src, ip, end, off)
    ensures Parses(src, xs + [Sequence(src[anchor..ip], off, end - ip)], end, r)
  {
    var x := Sequence(src[anchor..ip], off, end - ip);
    GrowSpan([], xs, |src|, r);
    assert Fits(Span(xs), [x], |src|, r);
    GrowSnoc([], xs, x, |src|, r);
    assert src[..anchor] + src[anchor..ip] == src[..ip];
    CopyRepeats(src, ip, end, off);
  }

  // ---------- where candidates come from ----------

  /** Nothing is known of the hash except that its values index the table. */
  ghost predicate InTable(hash: Bytes -> nat, size: nat) {
    forall s :: hash(s) < size
  }

  lemma SlotOf(hash: Bytes -> nat, size: nat, s: Bytes)
    requires InTable(hash, size)
    ensures hash(s) < size
  {}

  /** All entries are earlier positions. */
  ghost predicate Below(table: seq<nat>, p: nat) {
    forall h :: 0 <= h < |table| ==> table[h] < p
  }

  lemma BelowMore(table: seq<nat>, p: nat, q: nat)
    requires Below(table, p) && p <= q
    ensures Below(table, q)
  {}

  /** The same four bytes at two places. */
  predicate Same4(s: Bytes, m: nat, i: nat)
    requires m + 4 <= |s| && i + 4 <= |s|
  {
    s[m] == s[i] && s[m + 1] == s[i + 1] && s[m + 2] == s[i + 2] && s[m + 3] == s[i + 3]
  }

  lemma FourRepeat(s: Bytes, m: nat, i: nat)
    requires m <= i && i + 4 <= |s| && Same4(s, m, i)
    ensures Repeats(s, i, i + 4, i - m)
  {}

  /** Input that repeats one byte. */
  ghost predicate Uniform(src: Bytes) {
    forall i :: 0 <= i < |src| ==> src[i] == src[0]
  }

  lemma UniformSame(src: Bytes, i: nat, j: nat)
    requires Uniform(src) && i + 4 <= |src| && j + 4 <= |src|
    ensures Same4(src, i, j)
  {}
}
