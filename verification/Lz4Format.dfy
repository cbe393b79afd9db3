/**
 The LZ4 block format: what a block says, which blocks the safe decoder accepts, and
 what it makes of every input whatsoever.
 */
module Lz4Format {
  import opened Lz77

  const MINMATCH := 4
  const LASTLITERALS := 5
  const MFLIMIT := 12
  const RUN_MASK := 15
  const ML_MASK := 15
  const MAX_DISTANCE := 65535

  /** Twelve bytes of input remain where a copy starts, five where it ends. */
  const RULES := Rules(MINMATCH, MAX_DISTANCE, MFLIMIT, LASTLITERALS)

  // ---------- encoding ----------

  /** A length beyond the token's four bits. */
  ghost function RunBytes(x: nat): (r: Bytes)
    ensures |r| == x / 255 + 1
  {
    if x >= 255 then [255] + RunBytes(x - 255) else [x]
  }

  ghost function Extra(x: nat): (r: Bytes)
    ensures |r| == if x < 15 then 0 else (x - 15) / 255 + 1
  {
    if x < 15 then [] else RunBytes(x - 15)
  }

  ghost function Nibble(x: nat): (r: nat)
    ensures r <= 15
  {
    if x < 15 then x else 15
  }

  ghost function Head(lits: Bytes, code: nat): Bytes {
    [Nibble(|lits|) * 16 + Nibble(code)] + Extra(|lits|) + lits
  }

  ghost predicate Encodable(x: Sequence) {
    x.offset <= MAX_DISTANCE && x.len >= MINMATCH
  }

  ghost function Tail(x: Sequence): Bytes
    requires Encodable(x)
  {
    [x.offset % 256, x.offset / 256] + Extra(x.len - MINMATCH)
  }

  ghost function EncodeOne(x: Sequence): Bytes
    requires Encodable(x)
  {
    Head(x.lits, x.len - MINMATCH) + Tail(x)
  }

  ghost predicate AllEncodable(xs: seq<Sequence>) {
    forall i :: 0 <= i < |xs| ==> Encodable(xs[i])
  }

  ghost function Encode(xs: seq<Sequence>): Bytes
    requires AllEncodable(xs)
  {
    if xs == [] then [] else EncodeOne(xs[0]) + Encode(xs[1..])
  }

  /** A whole block: sequences, then literals without a copy. */
  ghost function Block(xs: seq<Sequence>, last: Bytes): Bytes
    requires AllEncodable(xs)
  {
    Encode(xs) + Head(last, 0)
  }

  // ---------- meaning ----------

  lemma {:induction false} FitsEncodable(pos: nat, xs: seq<Sequence>, n: nat)
    requires Fits(pos, xs, n, RULES)
    ensures AllEncodable(xs)
    decreases |xs|
  {
    if xs != [] {
      FitsEncodable(pos + |xs[0].lits| + xs[0].len, xs[1..], n);
      forall i | 0 <= i < |xs| ensures Encodable(xs[i]) {
        if i > 0 { assert xs[i] == xs[1..][i - 1]; }
      }
    }
  }

  // ---------- the decoder's reading of any input ----------

  function Word(lo: nat, hi: nat): nat {
    lo + 256 * hi
  }

  datatype Run = Run(len: nat, next: nat) | Stuck(at: nat)

  datatype Outcome = Done(out: Bytes) | Bad(at: nat)

  /** `LZ4_decompress_safe`'s return value. */
  ghost function ReturnValue(o: Outcome): int {
    match o
    case Done(out) => |out|
    case Bad(at) => -(at as int) - 1
  }

  /** The first token and, if it asks for it, the byte behind it can be read.  Of an input
      that has them this says nothing; the decoder reads them of shorter inputs, too. */
  ghost predicate Opens(s: Bytes) {
    |s| >= 1 && (s[0] >= 240 ==> |s| >= 2)
  }

  /** The literal-length loop: a stretch of 255s stops early near the end of the input. */
  ghost function LitRun(s: Bytes, n: nat, ip: nat): (r: Run)
    requires n <= |s| && ip < |s|
    ensures r.Run? && ip < r.next && (r.next <= n || r.next == ip + 1)
    decreases |s| - ip
  {
    if s[ip] == 255 && ip + 1 < n - RUN_MASK then
      var r := LitRun(s, n, ip + 1);
      Run(255 + r.len, r.next)
    else
      Run(s[ip], ip + 1)
  }

  ghost function Literals(s: Bytes, n: nat, ip: nat): (r: Run)
    requires n <= |s| && ip < |s| && (ip == 0 ==> Opens(s)) && (ip > 0 ==> ip + LASTLITERALS <= n)
    ensures r.Run? && ip < r.next
  {
    if s[ip] / 16 == RUN_MASK then
      var r := LitRun(s, n, ip + 1);
      Run(RUN_MASK + r.len, r.next)
    else
      Run(s[ip] / 16, ip + 1)
  }

  /** The match-length loop gives up inside the last five bytes. */
  ghost function MatchRun(s: Bytes, n: nat, ip: nat): (r: Run)
    requires n <= |s| && ip < n
    ensures r.Run? ==> ip < r.next && r.next + LASTLITERALS <= n
    decreases n - ip
  {
    if ip + 1 + LASTLITERALS > n then
      Stuck(ip + 1)
    else if s[ip] == 255 then
      var r := MatchRun(s, n, ip + 1);
      if r.Stuck? then r else Run(255 + r.len, r.next)
    else
      Run(s[ip], ip + 1)
  }

  ghost function MatchLength(s: Bytes, n: nat, token: byte, ip: nat): (r: Run)
    requires n <= |s| && ip + LASTLITERALS < n
    ensures r.Run? ==> ip <= r.next && r.next + LASTLITERALS <= n
  {
    if token % 16 == ML_MASK then
      var r := MatchRun(s, n, ip);
      if r.Stuck? then r else Run(ML_MASK + MINMATCH + r.len, r.next)
    else
      Run(token % 16 + MINMATCH, ip)
  }

  datatype Step = Next(ip: nat, out: Bytes) | Halt(at: nat)

  /** The copy that follows the literals of a sequence, described at `at`. */
  ghost function CopyStep(s: Bytes, n: nat, token: byte, at: nat, out: Bytes, cap: nat): (r: Step)
    requires n <= |s| && at + 2 + LASTLITERALS < n
    ensures r.Next? ==> at < r.ip && r.ip + LASTLITERALS <= n
  {
    var offset := Word(s[at], s[at + 1]);
    if offset > |out| then
      Halt(at + 2)
    else
      var m := MatchLength(s, n, token, at + 2);
      if m.Stuck? then Halt(m.at)
      else if |out| + m.len + LASTLITERALS > cap then Halt(m.next)
      else Next(m.next, MatchCopy(out, offset, m.len))
  }

  /** One sequence after another, from position `ip` of an input of `n` bytes, with `cap`
      bytes of room for the output. */
  ghost function DecodeFrom(s: Bytes, n: nat, ip: nat, out: Bytes, cap: nat): Outcome
    requires n <= |s| && Opens(s) && (ip > 0 ==> ip + LASTLITERALS <= n)
    decreases n - ip
  {
    var lit := Literals(s, n, ip);
    var at := lit.next + lit.len;
    if |out| + lit.len + MFLIMIT > cap || at + 2 + 1 + LASTLITERALS > n then
      if at != n || |out| + lit.len > cap then Bad(lit.next) else Done(out + s[lit.next..n])
    else
      match CopyStep(s, n, s[ip], at, out + s[lit.next..at], cap)
      case Halt(p) => Bad(p)
      case Next(ip', out') => DecodeFrom(s, n, ip', out', cap)
  }

  /** The first `n` bytes of `s` as a block. */
  ghost function Decode(s: Bytes, n: nat, cap: nat): Outcome
    requires n <= |s| && (cap > 0 ==> Opens(s))
  {
    if cap == 0 then
      if n == 1 && s[0] == 0 then Done([]) else Bad(0)
    else
      DecodeFrom(s, n, 0, [], cap)
  }

  // ---------- round trip ----------

  lemma {:induction false} LitRunReads(s: Bytes, n: nat, ip: nat, x: nat, tail: Bytes)
    requires ip <= n <= |s| && s[ip..n] == RunBytes(x) + tail && |tail| >= x + 15
    ensures ip < |s| && LitRun(s, n, ip) == Run(x, ip + |RunBytes(x)|)
    decreases x
  {
    assert n - ip == |RunBytes(x)| + |tail|;
    assert s[ip] == s[ip..n][0] == RunBytes(x)[0];
    if x >= 255 {
      assert s[ip + 1..n] == s[ip..n][1..] == RunBytes(x - 255) + tail;
      LitRunReads(s, n, ip + 1, x - 255, tail);
    }
  }

  lemma {:induction false} MatchRunReads(s: Bytes, n: nat, ip: nat, x: nat, tail: Bytes)
    requires ip <= n <= |s| && s[ip..n] == RunBytes(x) + tail && |tail| >= LASTLITERALS
    ensures ip < n && MatchRun(s, n, ip) == Run(x, ip + |RunBytes(x)|)
    decreases x
  {
    assert n - ip == |RunBytes(x)| + |tail|;
    assert s[ip] == s[ip..n][0] == RunBytes(x)[0];
    if x >= 255 {
      assert s[ip + 1..n] == s[ip..n][1..] == RunBytes(x - 255) + tail;
      MatchRunReads(s, n, ip + 1, x - 255, tail);
    }
  }

  /** Dropping what has been read. */
  lemma Advance(s: Bytes, n: nat, ip: nat, a: Bytes, b: Bytes)
    requires ip <= n <= |s| && s[ip..n] == a + b
    ensures ip + |a| <= n && s[ip..ip + |a|] == a && s[ip + |a|..n] == b
  {
    assert |s[ip..n]| == |a| + |b|;
    assert s[ip + |a|..n] == s[ip..n][|a|..] == b;
    assert s[ip..ip + |a|] == s[ip..n][..|a|] == a;
  }

  lemma HeadReads(s: Bytes, n: nat, ip: nat, lits: Bytes, code: nat, tail: Bytes)
    requires ip <= n <= |s| && Opens(s) && s[ip..n] == Head(lits, code) + tail
    requires ip > 0 ==> ip + LASTLITERALS <= n
    ensures s[ip] == Nibble(|lits|) * 16 + Nibble(code)
    ensures var r := Literals(s, n, ip); var at := r.next + r.len;
      r.len == |lits| && at <= n && s[r.next..at] == lits && s[at..n] == tail
      && at == ip + |Head(lits, code)|
  {
    hide Nibble, Head, Extra, Literals, LitRun, Opens;
    var t: Bytes := [Nibble(|lits|) * 16 + Nibble(code)];
    var e := Extra(|lits|);
    HeadSplit(lits, code, tail);
    NibbleBelow(|lits|, code);
    Advance(s, n, ip, t, e + (lits + tail));
    assert s[ip] == s[ip..ip + 1][0];
    LiteralsRead(s, n, ip, |lits|, lits + tail);
    Advance(s, n, ip + 1, e, lits + tail);
    Advance(s, n, ip + 1 + |e|, lits, tail);
  }

  lemma HeadSplit(lits: Bytes, code: nat, tail: Bytes)
    ensures Head(lits, code) + tail == [Nibble(|lits|) * 16 + Nibble(code)] + (Extra(|lits|) + (lits + tail))
    ensures |Head(lits, code)| == 1 + |Extra(|lits|)| + |lits|
  {}

  lemma LiteralsRead(s: Bytes, n: nat, ip: nat, k: nat, tail: Bytes)
    requires ip < n <= |s| && Opens(s) && (ip > 0 ==> ip + LASTLITERALS <= n)
    requires s[ip] / 16 == Nibble(k) && s[ip + 1..n] == Extra(k) + tail && |tail| >= k
    ensures Literals(s, n, ip) == Run(k, ip + 1 + |Extra(k)|)
  {
    if k >= 15 {
      LitRunReads(s, n, ip + 1, k - 15, tail);
    }
  }

  lemma TailReads(s: Bytes, n: nat, ip: nat, x: Sequence, token: byte, tail: Bytes)
    requires Encodable(x) && ip <= n <= |s| && s[ip..n] == Tail(x) + tail && |tail| >= LASTLITERALS + 1
    requires token % 16 == Nibble(x.len - MINMATCH)
    ensures ip + 2 + LASTLITERALS < n && Word(s[ip], s[ip + 1]) == x.offset
    ensures var m := MatchLength(s, n, token, ip + 2);
      m.Run? && m.len == x.len && m.next == ip + |Tail(x)| && s[m.next..n] == tail
  {
    hide Tail, Extra, Nibble, MatchLength, Word;
    var o: Bytes := [x.offset % 256, x.offset / 256];
    var e := Extra(x.len - MINMATCH);
    TailSplit(x, tail);
    Advance(s, n, ip, o, e + tail);
    assert s[ip] == s[ip..ip + 2][0] && s[ip + 1] == s[ip..ip + 2][1];
    LengthRead(s, n, ip + 2, token, x.len - MINMATCH, tail);
    Advance(s, n, ip + 2, e, tail);
  }

  lemma TailSplit(x: Sequence, tail: Bytes)
    requires Encodable(x)
    ensures Tail(x) + tail == [x.offset % 256, x.offset / 256] + (Extra(x.len - MINMATCH) + tail)
    ensures |Tail(x)| == 2 + |Extra(x.len - MINMATCH)| && Word(x.offset % 256, x.offset / 256) == x.offset
  {}

  lemma LengthRead(s: Bytes, n: nat, ip: nat, token: byte, code: nat, tail: Bytes)
    requires ip <= n <= |s| && s[ip..n] == Extra(code) + tail && |tail| >= LASTLITERALS + 1
    requires token % 16 == Nibble(code)
    ensures ip + LASTLITERALS < n && MatchLength(s, n, token, ip) == Run(code + MINMATCH, ip + |Extra(code)|)
  {
    assert |s[ip..n]| == |Extra(code)| + |tail|;
    if code >= 15 {
      MatchRunReads(s, n, ip, code - 15, tail);
    }
  }

  /** After a copy at least six bytes of block follow. */
  lemma {:induction false} EnoughLeft(pos: nat, xs: seq<Sequence>, n: nat, last: Bytes, out: Bytes)
    requires Fits(pos, xs, n, RULES) && AllEncodable(xs) && |out| == pos && pos + LASTLITERALS <= n && |Grow(out, xs, n, RULES)| + |last| == n
    ensures |Block(xs, last)| >= LASTLITERALS + 1
    decreases |xs|
  {
    if xs == [] {
      assert |Head(last, 0)| >= 1 + |last|;
    } else {
      hide EncodeOne, Head, Apply;
      EnoughLeft(|Apply(out, xs[0])|, xs[1..], n, last, Apply(out, xs[0]));
      assert Block(xs, last) == EncodeOne(xs[0]) + Block(xs[1..], last);
    }
  }

  /** One sequence of a block is read back as it was meant. */
  lemma DecodeStep(s: Bytes, n: nat, ip: nat, out: Bytes, x: Sequence, rest: Bytes, cap: nat) returns (next: nat)
    requires n <= |s| && Opens(s) && ip <= n && (ip > 0 ==> ip + LASTLITERALS <= n)
    requires Encodable(x) && s[ip..n] == EncodeOne(x) + rest && |rest| >= LASTLITERALS + 1
    requires x.offset <= |out| + |x.lits| && |out| + |x.lits| + MFLIMIT <= cap
    requires |out| + |x.lits| + x.len + LASTLITERALS <= cap
    ensures ip < next && next + LASTLITERALS <= n && s[next..n] == rest
    ensures DecodeFrom(s, n, ip, out, cap) == DecodeFrom(s, n, next, Apply(out, x), cap)
  {
    hide DecodeFrom, EncodeOne, Head, Tail, Apply, Nibble, Opens;
    var code := x.len - MINMATCH;
    EncodeOneSplit(x, rest);
    HeadReads(s, n, ip, x.lits, code, Tail(x) + rest);
    var at := ip + |Head(x.lits, code)|;
    NibbleBelow(|x.lits|, code);
    TailReads(s, n, at, x, s[ip], rest);
    next := at + |Tail(x)|;
    DecodeUnfold(s, n, ip, out, at, x, next, cap);
  }

  lemma EncodeOneSplit(x: Sequence, rest: Bytes)
    requires Encodable(x)
    ensures EncodeOne(x) + rest == Head(x.lits, x.len - MINMATCH) + (Tail(x) + rest)
    ensures |Head(x.lits, x.len - MINMATCH)| >= 1
  {}

  lemma NibbleBelow(a: nat, b: nat)
    ensures (Nibble(a) * 16 + Nibble(b)) % 16 == Nibble(b) && (Nibble(a) * 16 + Nibble(b)) / 16 == Nibble(a)
  {}

  lemma DecodeUnfold(s: Bytes, n: nat, ip: nat, out: Bytes, at: nat, x: Sequence, next: nat, cap: nat)
    requires n <= |s| && Opens(s) && (ip > 0 ==> ip + LASTLITERALS <= n)
    requires |x.lits| <= at && at + 2 + LASTLITERALS < n && Literals(s, n, ip) == Run(|x.lits|, at - |x.lits|)
    requires s[at - |x.lits|..at] == x.lits && Word(s[at], s[at + 1]) == x.offset
    requires MatchLength(s, n, s[ip], at + 2) == Run(x.len, next)
    requires x.offset <= |out| + |x.lits| && |out| + |x.lits| + MFLIMIT <= cap
    requires |out| + |x.lits| + x.len + LASTLITERALS <= cap
    ensures next + LASTLITERALS <= n && DecodeFrom(s, n, ip, out, cap) == DecodeFrom(s, n, next, Apply(out, x), cap)
  {
    hide Literals, MatchLength, MatchCopy;
  }

  lemma BlockSplit(xs: seq<Sequence>, last: Bytes)
    requires AllEncodable(xs) && xs != []
    ensures Block(xs, last) == EncodeOne(xs[0]) + Block(xs[1..], last)
  {}

  /** The decoder accepts a block that keeps its distance from the end, and gives back what
      it stands for. */
  lemma {:induction false} DecodeBlockFrom(s: Bytes, n: nat, ip: nat, out: Bytes, xs: seq<Sequence>, last: Bytes,
                                           total: nat, cap: nat)
    requires n <= |s| && Opens(s) && ip <= n && (ip > 0 ==> ip + LASTLITERALS <= n)
    requires Fits(|out|, xs, total, RULES) && AllEncodable(xs) && s[ip..n] == Block(xs, last)
    requires |Grow(out, xs, total, RULES)| + |last| == total <= cap && 0 < cap
    ensures DecodeFrom(s, n, ip, out, cap) == Done(Grow(out, xs, total, RULES) + last)
    decreases |xs|
  {
    if xs == [] {
      assert Block(xs, last) == Head(last, 0) + [];
      HeadReads(s, n, ip, last, 0, []);
      assert s[n..n] == [];
    } else {
      hide DecodeFrom, Block, EncodeOne;
      var x, rest := xs[0], Block(xs[1..], last);
      BlockSplit(xs, last);
      EnoughLeft(|Apply(out, x)|, xs[1..], total, last, Apply(out, x));
      var next := DecodeStep(s, n, ip, out, x, rest, cap);
      DecodeBlockFrom(s, n, next, Apply(out, x), xs[1..], last, total, cap);
    }
  }

  /** Round trip of the format. */
  lemma DecodeBlock(s: Bytes, n: nat, xs: seq<Sequence>, last: Bytes, total: nat, cap: nat)
    requires n <= |s| && Opens(s) && Fits(0, xs, total, RULES) && AllEncodable(xs) && s[..n] == Block(xs, last)
    requires |Grow([], xs, total, RULES)| + |last| == total <= cap
    ensures Decode(s, n, cap) == Done(Grow([], xs, total, RULES) + last)
  {
    assert s[0..n] == s[..n];
    if cap == 0 {
      assert xs == [] && last == [];
      assert Head(last, 0) == [0];
      assert s[0] == s[..n][0];
    } else {
      DecodeBlockFrom(s, n, 0, [], xs, last, total, cap);
    }
  }

  // ---------- blocks under construction ----------

  lemma {:induction false} EncodeSnoc(xs: seq<Sequence>, x: Sequence)
    requires AllEncodable(xs) && Encodable(x)
    ensures AllEncodable(xs + [x]) && Encode(xs + [x]) == Encode(xs) + EncodeOne(x)
    ensures Span(xs + [x]) == Span(xs) + |x.lits| + x.len
    decreases |xs|
  {
    if xs == [] {
      assert xs + [x] == [x];
      assert Encode([x]) == EncodeOne(x) + Encode([]);
    } else {
      EncodeSnoc(xs[1..], x);
      assert (xs + [x])[1..] == xs[1..] + [x];
      hide EncodeOne;
      assert EncodeOne(xs[0]) + (Encode(xs[1..]) + EncodeOne(x)) == EncodeOne(xs[0]) + Encode(xs[1..]) + EncodeOne(x);
    }
  }

  /** Each copy of at least four bytes pays for its token, its offset and the lengths. */
  lemma {:induction false} EncodeSize(xs: seq<Sequence>)
    requires AllEncodable(xs)
    ensures 255 * |Encode(xs)| <= 256 * Span(xs)
    decreases |xs|
  {
    if xs != [] { EncodeSize(xs[1..]); }
  }

  /** `LZ4_compressBound` */
  function Bound(n: nat): nat {
    n + n / 255 + 16
  }

  lemma BlockSize(xs: seq<Sequence>, last: Bytes)
    requires AllEncodable(xs)
    ensures |Block(xs, last)| <= Bound(Span(xs) + |last|)
  {
    EncodeSize(xs);
  }

  lemma {:induction false} RunBytesShape(x: nat)
    ensures forall i :: 0 <= i < x / 255 ==> RunBytes(x)[i] == 255
    ensures RunBytes(x)[x / 255] == x % 255
  {
    if x >= 255 {
      RunBytesShape(x - 255);
      forall i | 0 <= i < x / 255 ensures RunBytes(x)[i] == 255 {
        if i > 0 { assert RunBytes(x)[i] == RunBytes(x - 255)[i - 1]; }
      }
    }
  }

  // ---------- written out ----------

  /** What follows a full half of a token: as many times 255 as there are, and the rest. */
  function More(x: nat): Bytes {
    if x < 15 then [] else seq((x - 15) / 255, _ => 255) + [(x - 15) % 255]
  }

  lemma ExtraWritten(x: nat)
    ensures Extra(x) == More(x)
  {
    if x >= 15 {
      RunBytesShape(x - 15);
      assert |RunBytes(x - 15)| == |More(x)|;
    }
  }

  /** A sequence byte by byte: token, rest of the literal length, literals, offset, rest of the match length. */
  lemma SequenceWritten(x: Sequence)
    requires x.offset <= 65535 && x.len >= 4
    ensures var a, b := |x.lits|, x.len - 4;
      EncodeOne(x) == [(if a < 15 then a else 15) * 16 + (if b < 15 then b else 15)] + More(a) + x.lits
                      + [x.offset % 256, x.offset / 256] + More(b)
  {
    hide Extra, More;
    ExtraWritten(|x.lits|);
    ExtraWritten(x.len - 4);
  }
}
