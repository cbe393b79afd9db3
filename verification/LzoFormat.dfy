/**
 The part of the LZO1X stream format that `lzo1x_1_compress` writes: literal runs,
 matches of three kinds, literal counts of one to three in the byte before, end marker.
 */
module LzoFormat {
  import opened Lz77

  const M2_MAX_LEN := 8
  const M2_MAX_OFFSET := 0x800
  const M3_MAX_LEN := 33
  const M3_MAX_OFFSET := 0x4000
  const M4_MAX_LEN := 9
  const M4_MAX_OFFSET := 0xBFFF
  const M3_MARKER := 32
  const M4_MARKER := 16

  const END: Bytes := [M4_MARKER + 1, 0, 0]

  const RULES := Rules(4, M4_MAX_OFFSET, 0, 0)

  // ---------- encoding ----------

  /** A count beyond what its field holds: zero bytes, then what is left. */
  ghost function ZeroRun(x: nat): (r: Bytes)
    requires x > 0
    ensures |r| == (x - 1) / 255 + 1
  {
    if x > 255 then [0] + ZeroRun(x - 255) else [x]
  }

  ghost function RunHead(t: nat): Bytes
    requires t >= 4
  {
    if t <= 18 then [t - 3] else [0] + ZeroRun(t - 18)
  }

  ghost function RunBytes(lits: Bytes): Bytes {
    if |lits| <= 3 then lits else RunHead(|lits|) + lits
  }

  /** What goes into the two low bits of the byte before. */
  ghost function Small(lits: Bytes): (r: nat)
    ensures r <= 3
  {
    if |lits| <= 3 then |lits| else 0
  }

  ghost predicate Codable(offset: nat, len: nat) {
    1 <= offset <= M4_MAX_OFFSET && len >= 4
  }

  /** The head of a match: its kind and length. */
  ghost function MatchHead(offset: nat, len: nat): Bytes
    requires Codable(offset, len)
  {
    if offset <= M3_MAX_OFFSET then
      if len <= M3_MAX_LEN then [M3_MARKER + len - 2] else [M3_MARKER] + ZeroRun(len - M3_MAX_LEN)
    else
      var high := (offset - 0x4000) / 0x4000 * 8;
      if len <= M4_MAX_LEN then [M4_MARKER + high + len - 2] else [M4_MARKER + high] + ZeroRun(len - M4_MAX_LEN)
  }

  ghost predicate Short(offset: nat, len: nat) {
    len <= M2_MAX_LEN && offset <= M2_MAX_OFFSET
  }

  ghost function Distance(offset: nat): nat
    requires offset >= 1
  {
    if offset <= M3_MAX_OFFSET then offset - 1 else offset - 0x4000
  }

  /** A match, with the number `s` of literals that follow it if they are few. */
  ghost function Match(offset: nat, len: nat, s: nat): Bytes
    requires Codable(offset, len) && s <= 3
  {
    var m := Distance(offset);
    if Short(offset, len) then
      [(len - 1) * 32 + m % 8 * 4 + s, m / 8]
    else
      MatchHead(offset, len) + [m % 64 * 4 + s, m / 64 % 256]
  }

  ghost predicate AllCodable(xs: seq<Sequence>) {
    forall i :: 0 <= i < |xs| ==> Codable(xs[i].offset, xs[i].len)
  }

  /** How many literals the match before `xs` and `s` announces. */
  ghost function Announced(xs: seq<Sequence>, s: nat): (r: nat)
    requires s <= 3
    ensures r <= 3
  {
    if xs == [] then s else Small(xs[0].lits)
  }

  /** All sequences; the last match announces `s` literals. */
  ghost function Middle(xs: seq<Sequence>, s: nat): Bytes
    requires AllCodable(xs) && s <= 3
  {
    if xs == [] then []
    else RunBytes(xs[0].lits) + (Match(xs[0].offset, xs[0].len, Announced(xs[1..], s)) + Middle(xs[1..], s))
  }

  ghost function Stream(xs: seq<Sequence>, last: Bytes): Bytes
    requires AllCodable(xs)
  {
    if xs == [] && 0 < |last| <= 238 then [17 + |last|] + last + END
    else Middle(xs, Small(last)) + (RunBytes(last) + END)
  }

  /** A stream starts with a literal run that stands for itself. */
  ghost predicate Starts(xs: seq<Sequence>) {
    xs != [] ==> |xs[0].lits| >= 4
  }

  // ---------- appending ----------

  /** The byte before last has room for a literal count. */
  ghost predicate LowClear(w: Bytes) {
    |w| >= 2 ==> w[|w| - 2] % 4 == 0
  }

  ghost function Patched(w: Bytes, s: nat): Bytes
    requires s <= 3 && LowClear(w)
  {
    if |w| < 2 then w else w[|w| - 2 := w[|w| - 2] + s]
  }

  lemma MatchPatch(offset: nat, len: nat, s: nat)
    requires Codable(offset, len) && s <= 3
    ensures var w := Match(offset, len, 0); |w| >= 2 && LowClear(w) && Match(offset, len, s) == Patched(w, s)
  {
    var m := Distance(offset);
    if !Short(offset, len) {
      var h := MatchHead(offset, len);
      var a: Bytes, b: Bytes := [m % 64 * 4 + 0, m / 64 % 256], [m % 64 * 4 + s, m / 64 % 256];
      assert (h + a)[|h| := a[0] + s] == h + b;
    }
  }

  lemma PatchedTail(a: Bytes, b: Bytes, s: nat)
    requires |b| >= 2 && LowClear(b) && s <= 3
    ensures LowClear(a + b) && Patched(a + b, s) == a + Patched(b, s)
  {}

  lemma {:induction false} MiddlePatch(xs: seq<Sequence>, s: nat)
    requires AllCodable(xs) && s <= 3
    ensures var w := Middle(xs, 0);
      (xs != [] ==> |w| >= 2) && LowClear(w) && Middle(xs, s) == Patched(w, s)
    decreases |xs|
  {
    if xs != [] {
      var x, rest := xs[0], xs[1..];
      var a, m0, m1 := RunBytes(x.lits), Match(x.offset, x.len, Announced(rest, 0)), Match(x.offset, x.len, Announced(rest, s));
      MiddlePatch(rest, s);
      MatchPatch(x.offset, x.len, s);
      if rest == [] {
        assert m0 + Middle(rest, 0) == m0 && m1 + Middle(rest, s) == m1;
        PatchedTail(a, m0, s);
      } else {
        assert m0 == m1;
        var w := Middle(rest, 0);
        hide *;
        PatchedTail(m0, w, s);
        PatchedTail(a, m0 + w, s);
      }
    }
  }

  /** One more sequence: the literal count goes into the match before it. */
  lemma {:induction false} MiddleSnoc(xs: seq<Sequence>, x: Sequence, s: nat)
    requires AllCodable(xs) && Codable(x.offset, x.len) && s <= 3
    ensures AllCodable(xs + [x])
    ensures Middle(xs + [x], s) == Middle(xs, Small(x.lits)) + (RunBytes(x.lits) + Match(x.offset, x.len, s))
    decreases |xs|
  {
    if xs == [] {
      assert xs + [x] == [x];
      assert Match(x.offset, x.len, s) + Middle([], s) == Match(x.offset, x.len, s);
    } else {
      var rest := xs[1..];
      MiddleSnoc(rest, x, s);
      assert (xs + [x])[1..] == rest + [x];
      var a, m := RunBytes(xs[0].lits), Match(xs[0].offset, xs[0].len, Announced(rest, Small(x.lits)));
      assert Announced(rest + [x], s) == Announced(rest, Small(x.lits));
      var w, z := Middle(rest, Small(x.lits)), RunBytes(x.lits) + Match(x.offset, x.len, s);
      hide RunBytes, Match;
      Assoc3(a, m, w, z);
    }
  }

  lemma Assoc3(a: Bytes, m: Bytes, w: Bytes, z: Bytes)
    ensures a + (m + (w + z)) == a + (m + w) + z
  {}

  // ---------- size ----------

  lemma RunSize(lits: Bytes)
    ensures 16 * |RunBytes(lits)| <= 17 * |lits| + 16
    ensures |lits| >= 19 ==> 16 * |RunBytes(lits)| <= 17 * |lits| + 20
    ensures |lits| >= 4 ==> |RunBytes(lits)| <= |lits| + 2 + (|lits| - 4) / 255
  {}

  lemma {:induction false} MiddleSize(xs: seq<Sequence>, s: nat)
    requires AllCodable(xs) && s <= 3
    ensures 16 * |Middle(xs, s)| <= 17 * Span(xs)
    decreases |xs|
  {
    if xs != [] {
      RunSize(xs[0].lits);
      MiddleSize(xs[1..], s);
    }
  }

  /** The output bound that the buffers are sized by. */
  function Bound(n: nat): nat {
    n + n / 16 + 64 + 3
  }

  lemma StreamSize(xs: seq<Sequence>, last: Bytes)
    requires AllCodable(xs)
    ensures |Stream(xs, last)| <= Bound(Span(xs) + |last|)
  {
    MiddleSize(xs, Small(last));
    RunSize(last);
  }

  // ---------- reading ----------

  lemma {:induction false} ZeroRunShape(x: nat)
    requires x > 0
    ensures var k := (x - 1) / 255;
      |ZeroRun(x)| == k + 1 && ZeroRun(x)[k] == x - 255 * k && (forall i :: 0 <= i < k ==> ZeroRun(x)[i] == 0)
    ensures 1 <= x - 255 * ((x - 1) / 255) <= 255
  {
    if x > 255 {
      ZeroRunShape(x - 255);
      forall i | 0 <= i < (x - 1) / 255 ensures ZeroRun(x)[i] == 0 {
        if i > 0 { assert ZeroRun(x)[i] == ZeroRun(x - 255)[i - 1]; }
      }
    }
  }

  /** Dropping what has been read. */
  lemma Advance(s: Bytes, ip: nat, a: Bytes, b: Bytes)
    requires ip <= |s| && s[ip..] == a + b
    ensures ip + |a| <= |s| && s[ip..ip + |a|] == a && s[ip + |a|..] == b
    ensures forall k :: 0 <= k < |a| ==> s[ip + k] == a[k]
  {
    assert s[ip + |a|..] == s[ip..][|a|..] == b;
    assert s[ip..ip + |a|] == s[ip..][..|a|] == a;
    forall k | 0 <= k < |a| ensures s[ip + k] == a[k] { assert s[ip + k] == s[ip..][k]; }
  }

  // ---------- written out ----------

  /** A length of `k` zero bytes and a last one. */
  lemma {:induction false} ZeroRunIs(k: nat, last: byte)
    requires last >= 1
    ensures ZeroRun(255 * k + last) == seq(k, _ => 0) + [last]
  {
    var x := 255 * k + last;
    if k == 0 {
      assert seq(k, _ => 0) + [last] == [last];
    } else {
      ZeroRunIs(k - 1, last);
      assert ZeroRun(x) == [0] + ZeroRun(x - 255);
      assert [0] + (seq(k - 1, _ => 0) + [last]) == seq(k, _ => 0) + [last];
    }
  }

  /** Two bytes: three bits of length, eleven of distance, and the number of literals that follow. */
  lemma NearMatch(c: byte, d: byte)
    requires c >= 96
    ensures var off, len := 1 + c / 4 % 8 + 8 * d, c / 32 + 1;
      Codable(off, len) && Match(off, len, c % 4) == [c, d]
  {
    assert c == c / 32 * 32 + c / 4 % 8 * 4 + c % 4;
    var off := 1 + c / 4 % 8 + 8 * d;
    assert (off - 1) % 8 == c / 4 % 8 && (off - 1) / 8 == d;
  }

  /** Fourteen bits of distance, which is at most 16384; what the two-byte form can say is not said so. */
  lemma MiddleMatch(c: byte, lo: byte, hi: byte)
    requires 34 <= c < 64
    ensures var off, len := 1 + lo / 4 + 64 * hi, c - 30;
      Codable(off, len) && (len > 8 || off > 2048 ==> Match(off, len, lo % 4) == [c, lo, hi])
  {
    var off := 1 + lo / 4 + 64 * hi;
    assert (off - 1) % 64 == lo / 4 && (off - 1) / 64 == hi;
  }

  lemma LongMiddleMatch(k: nat, last: byte, lo: byte, hi: byte)
    requires last >= 1
    ensures var off, len := 1 + lo / 4 + 64 * hi, 33 + 255 * k + last;
      Codable(off, len) && Match(off, len, lo % 4) == [32] + seq(k, _ => 0) + [last, lo, hi]
  {
    hide ZeroRun;
    var off, len := 1 + lo / 4 + 64 * hi, 33 + 255 * k + last;
    assert (off - 1) % 64 == lo / 4 && (off - 1) / 64 == hi;
    ZeroRunIs(k, last);
    assert Distance(off) == off - 1 && !Short(off, len);
    LongJoined(32, seq(k, _ => 0), last, lo, hi);
  }

  /** From 16385 on, with one more bit of distance in the first byte. */
  lemma FarMatch(c: byte, lo: byte, hi: byte)
    requires 16 <= c < 32 && c % 8 >= 2 && (c >= 24 || lo >= 4 || hi > 0)
    ensures var off, len := 16384 + c / 8 % 2 * 16384 + lo / 4 + 64 * hi, c % 8 + 2;
      Codable(off, len) && Match(off, len, lo % 4) == [c, lo, hi]
  {
    FarDistance(c / 8 % 2, lo, hi);
  }

  lemma FarDistance(h: nat, lo: byte, hi: byte)
    requires h <= 1
    ensures var m := h * 16384 + lo / 4 + 64 * hi; m / 16384 == h && m % 64 == lo / 4 && m / 64 % 256 == hi
  {
    var v := lo / 4 + 64 * hi;
    assert v % 64 == lo / 4 && v / 64 == hi;
  }

  lemma LongFarMatch(h: nat, k: nat, last: byte, lo: byte, hi: byte)
    requires h <= 1 && last >= 1 && (h == 1 || lo >= 4 || hi > 0)
    ensures var off, len := 16384 + h * 16384 + lo / 4 + 64 * hi, 9 + 255 * k + last;
      Codable(off, len) && Match(off, len, lo % 4) == [16 + 8 * h] + seq(k, _ => 0) + [last, lo, hi]
  {
    hide ZeroRun;
    var off, len := 16384 + h * 16384 + lo / 4 + 64 * hi, 9 + 255 * k + last;
    FarDistance(h, lo, hi);
    ZeroRunIs(k, last);
    assert Distance(off) == off - 16384 && !Short(off, len);
    LongJoined(16 + 8 * h, seq(k, _ => 0), last, lo, hi);
  }

  lemma LongJoined(first: byte, zeros: Bytes, last: byte, lo: byte, hi: byte)
    ensures [first] + (zeros + [last]) + [lo, hi] == [first] + zeros + [last, lo, hi]
  {}

  /** Literals: up to eighteen with a count of their own, more with zero bytes. */
  lemma RunWritten(lits: Bytes)
    ensures 4 <= |lits| <= 18 ==> RunBytes(lits) == [|lits| - 3] + lits
    ensures |lits| > 18 ==> var x := |lits| - 19;
      RunBytes(lits) == [0] + seq(x / 255, _ => 0) + [x % 255 + 1] + lits
  {
    hide ZeroRun;
    if |lits| > 18 {
      var k, last := (|lits| - 19) / 255, (|lits| - 19) % 255 + 1;
      assert |lits| - 18 == 255 * k + last;
      ZeroRunIs(k, last);
    }
  }
}
