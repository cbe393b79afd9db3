/**
 `lzo1x_decompress` on the streams that `lzo1x_1_compress` writes.  The decoder checks
 nothing; that it stays within its buffers is part of what is proved.
 */
module LzoDecompress {
  import opened Lz77
  import opened LzoFormat
  import opened LzoCompress

  const LZO_E_OK := 0
  const LZO_E_INPUT_NOT_CONSUMED := -8

  // ---------- copying ----------

  /** Eight bytes a time, then four, then one. */
  method CopyLiterals(out: array<byte>, op0: nat, s: Bytes, ip0: nat, n: nat)
    requires ip0 + n <= |s| && op0 + n <= out.Length
    modifies out
    ensures out[..op0 + n] == old(out[..op0]) + s[ip0..ip0 + n]
  {
    var op, ip, t := op0, ip0, n;
    while t >= 8
      invariant op == op0 + (n - t) && ip == ip0 + (n - t) && 0 <= t <= n
      invariant forall k :: op0 <= k < op ==> out[k] == s[ip0 + (k - op0)]
      invariant forall k :: 0 <= k < op0 ==> out[k] == old(out[k])
    {
      CopyN(out, op, s, ip, 8);
      op, ip, t := op + 8, ip + 8, t - 8;
    }
    if t >= 4 {
      CopyN(out, op, s, ip, 4);
      op, ip, t := op + 4, ip + 4, t - 4;
    }
    while t > 0
      invariant op == op0 + (n - t) && ip == ip0 + (n - t) && 0 <= t <= n
      invariant forall k :: op0 <= k < op ==> out[k] == s[ip0 + (k - op0)]
      invariant forall k :: 0 <= k < op0 ==> out[k] == old(out[k])
    {
      out[op] := s[ip];
      op, ip, t := op + 1, ip + 1, t - 1;
    }
    Copied(old(out[..]), out[..], op0, s, ip0, n);
  }

  method CopyBack(out: array<byte>, op: nat, pos: nat, n: nat)
    requires pos + n <= op && op + n <= out.Length
    modifies out
    ensures forall k :: op <= k < op + n ==> out[k] == out[k - (op - pos)]
    ensures forall k :: 0 <= k < out.Length && !(op <= k < op + n) ==> out[k] == old(out[k])
  {
    forall k | op <= k < op + n {
      out[k] := out[k - (op - pos)];
    }
  }

  /** Eight bytes at a time, and four more; says how many are left. */
  method CopyWords(out: array<byte>, op0: nat, off: nat, len: nat) returns (t: nat)
    requires 8 <= off <= op0 && op0 + len <= out.Length
    modifies out
    ensures t <= len && forall k :: op0 <= k < op0 + (len - t) ==> out[k] == out[k - off]
    ensures out[..op0] == old(out[..op0])
  {
    var op, pos := op0, op0 - off;
    t := len;
    while t >= 8
      invariant op == op0 + (len - t) && pos == op - off && 0 <= t <= len
      invariant forall k :: op0 <= k < op ==> out[k] == out[k - off]
      invariant out[..op0] == old(out[..op0])
    {
      ghost var was := out[..];
      CopyBack(out, op, pos, 8);
      op, pos, t := op + 8, pos + 8, t - 8;
    }
    if t >= 4 {
      ghost var was := out[..];
      CopyBack(out, op, pos, 4);
      t := t - 4;
    }
  }

  /** `copy_match`, and the faster form for far enough matches. */
  method CopyMatch(out: array<byte>, op0: nat, off: nat, len: nat, short: bool)
    requires 1 <= off <= op0 && op0 + len <= out.Length
    modifies out
    ensures out[..op0 + len] == MatchCopy(old(out[..op0]), off, len)
  {
    ghost var before := out[..op0];
    var op, pos, t := op0, op0 - off, len;
    if !short && off >= 8 {
      t := CopyWords(out, op0, off, len);
      op, pos := op + (len - t), pos + (len - t);
    }
    while t > 0
      invariant op == op0 + (len - t) && pos == op - off && 0 <= t <= len
      invariant forall k :: op0 <= k < op ==> out[k] == out[k - off]
      invariant out[..op0] == before
    {
      out[op] := out[pos];
      op, pos, t := op + 1, pos + 1, t - 1;
    }
    CopyIsPeriodic(before, off, out[..op]);
  }

  // ---------- reading ----------

  method ReadZeroRun(s: Bytes, ip0: nat, base: nat, ghost x: nat, ghost rest: Bytes) returns (t: nat, ip: nat)
    requires x > 0 && ip0 <= |s| && s[ip0..] == ZeroRun(x) + rest
    ensures t == base + x && ip == ip0 + |ZeroRun(x)| <= |s| && s[ip..] == rest
  {
    ip, t := ip0, 0;
    ZeroRunShape(x);
    Advance(s, ip0, ZeroRun(x), rest);
    ghost var k := (x - 1) / 255;
    while s[ip] == 0
      invariant ip0 <= ip <= ip0 + k < |s| && t == 255 * (ip - ip0)
      decreases ip0 + k - ip
    {
      t := t + 255;
      ip := ip + 1;
    }
    t := t + base + s[ip];
    ip := ip + 1;
  }

  lemma ShortArith(len: nat, m: nat, small: nat)
    requires 4 <= len <= M2_MAX_LEN && m < M2_MAX_OFFSET && small <= 3
    ensures var t := (len - 1) * 32 + m % 8 * 4 + small;
      64 <= t < 256 && t / 4 % 8 == m % 8 && t / 32 == len - 1 && t % 4 == small && m % 8 + m / 8 * 8 == m
  {}

  /** What the first byte of a long match says. */
  lemma HeadArith(off: nat, len: nat)
    requires Codable(off, len) && !Short(off, len)
    ensures |MatchHead(off, len)| > 0
    ensures var t := MatchHead(off, len)[0] as nat; var tail := MatchHead(off, len)[1..];
      if off <= M3_MAX_OFFSET then
        && 32 <= t < 64 && (t % 32 == 0 <==> len > M3_MAX_LEN)
        && if len > M3_MAX_LEN then tail == ZeroRun(len - M3_MAX_LEN) else tail == [] && t % 32 == len - 2
      else
        && 16 <= t < 32 && t / 8 % 2 == Distance(off) / 0x4000 && (t % 8 == 0 <==> len > M4_MAX_LEN)
        && if len > M4_MAX_LEN then tail == ZeroRun(len - M4_MAX_LEN) else tail == [] && t % 8 == len - 2
  {}

  /** The length of a long match, and where its offset starts from.  The end marker reads
      like a match whose offset starts from 0x4000. */
  method ReadHead(s: Bytes, p: nat, ghost end: bool, ghost off0: nat, ghost len0: nat, ghost rest: Bytes)
    returns (base: nat, len: nat, ip: nat)
    requires p <= |s|
    requires if end then s[p..] == END else Codable(off0, len0) && !Short(off0, len0) && s[p..] == MatchHead(off0, len0) + rest
    ensures end ==> base == 0x4000 && ip == p + 1
    ensures !end ==> len == len0 && ip == p + |MatchHead(off0, len0)| <= |s| && s[ip..] == rest
    ensures !end ==> base == if off0 <= M3_MAX_OFFSET then 1 else 0x4000 + Distance(off0) / 0x4000 * 0x4000
  {
    if end {
      assert s[p] == s[p..][0] == 17;
    } else {
      ghost var h := MatchHead(off0, len0);
      HeadArith(off0, len0);
      assert h + rest == [h[0]] + (h[1..] + rest);
      Advance(s, p, [h[0]], h[1..] + rest);
    }
    hide MatchHead, Distance, Short, Codable, ZeroRun;
    var t: nat := s[p];
    ip := p + 1;
    if t >= 32 {
      base, len := 1, t % 32;
      if len == 0 {
        len, ip := ReadZeroRun(s, ip, 31, len0 - M3_MAX_LEN, rest);
      } else {
        assert [] + rest == rest;
      }
    } else {
      base, len := 0x4000 + t / 8 % 2 * 0x4000, t % 8;
      if len == 0 {
        len, ip := ReadZeroRun(s, ip, 7, len0 - M4_MAX_LEN, rest);
      } else {
        assert [] + rest == rest;
      }
    }
    len := len + 2;
  }

  /** What the first byte of a match tells. */
  lemma KindHere(s: Bytes, p: nat, off: nat, len: nat, small: nat, rest: Bytes)
    requires p <= |s| && Codable(off, len) && small <= 3 && s[p..] == Match(off, len, small) + rest
    ensures p < |s| && 16 <= s[p] && (s[p] >= 64 <==> Short(off, len))
  {
    assert s[p] == s[p..][0] == Match(off, len, small)[0];
    if Short(off, len) {
      ShortArith(len, Distance(off), small);
    } else {
      HeadArith(off, len);
    }
  }

  lemma ShortHere(s: Bytes, p: nat, off: nat, len: nat, small: nat, rest: Bytes)
    requires p <= |s| && Codable(off, len) && Short(off, len) && small <= 3 && s[p..] == Match(off, len, small) + rest
    ensures p + 2 <= |s| && s[p + 2..] == rest
    ensures off == 1 + s[p] as nat / 4 % 8 + s[p + 1] as nat * 8 && len == s[p] as nat / 32 + 1 && s[p] % 4 == small
  {
    ShortArith(len, Distance(off), small);
    Advance(s, p, Match(off, len, small), rest);
    assert s[p] == s[p..][0] && s[p + 1] == s[p..][1];
  }

  /** The two bytes that end a long match. */
  ghost function LongTail(m: nat, small: nat): Bytes
    requires small <= 3
  {
    [m % 64 * 4 + small, m / 64 % 256]
  }

  lemma LongHere(s: Bytes, p: nat, off: nat, len: nat, small: nat, rest: Bytes)
    requires p <= |s| && Codable(off, len) && !Short(off, len) && small <= 3 && s[p..] == Match(off, len, small) + rest
    ensures s[p..] == MatchHead(off, len) + (LongTail(Distance(off), small) + rest)
  {
    var h, t := MatchHead(off, len), LongTail(Distance(off), small);
    assert Match(off, len, small) == h + t;
    hide *;
    assert h + t + rest == h + (t + rest);
  }

  lemma TailHere(s: Bytes, ip: nat, off: nat, len: nat, small: nat, rest: Bytes, base: nat)
    requires ip <= |s| && Codable(off, len) && small <= 3 && s[ip..] == LongTail(Distance(off), small) + rest
    requires base == if off <= M3_MAX_OFFSET then 1 else 0x4000 + Distance(off) / 0x4000 * 0x4000
    ensures ip + 2 <= |s| && s[ip + 2..] == rest && s[ip] % 4 == small
    ensures off == base + s[ip] as nat / 4 + s[ip + 1] as nat * 64
  {
    Advance(s, ip, LongTail(Distance(off), small), rest);
    assert s[ip] == s[ip..][0] && s[ip + 1] == s[ip..][1];
  }

  lemma EndHere(s: Bytes, p: nat)
    requires p <= |s| && s[p..] == END
    ensures |s| == p + 3 && s[p] == 17 && s[p + 1] == 0 && s[p + 2] == 0
  {
    assert s[p] == s[p..][0] && s[p + 1] == s[p..][1] && s[p + 2] == s[p..][2];
  }

  /** A match: an offset, a length, and whether it came in the short form; or the end. */
  method ReadMatch(s: Bytes, p: nat, ghost end: bool, ghost off0: nat, ghost len0: nat, ghost small: nat, ghost rest: Bytes)
    returns (eof: bool, off: nat, len: nat, ip: nat, short: bool)
    requires p <= |s|
    requires if end then s[p..] == END else Codable(off0, len0) && small <= 3 && s[p..] == Match(off0, len0, small) + rest
    ensures eof == end && (eof ==> ip == |s|)
    ensures !eof ==> off == off0 && len == len0
    ensures !eof ==> p < ip <= |s| && 2 <= ip && s[ip..] == rest && s[ip - 2] % 4 == small
  {
    hide MatchHead, Distance, Codable, Match, Short, LongTail, END;
    if end { EndHere(s, p); } else { KindHere(s, p, off0, len0, small, rest); }
    var t: nat := s[p];
    short := t >= 64;
    if short {
      ShortHere(s, p, off0, len0, small, rest);
      off := 1 + t / 4 % 8 + s[p + 1] as nat * 8;
      len, ip, eof := t / 32 + 1, p + 2, false;
      return;
    }
    ghost var tail := rest;
    if !end {
      LongHere(s, p, off0, len0, small, rest);
      CodableIf(off0, len0);
      tail := LongTail(Distance(off0), small) + rest;
    }
    var base;
    base, len, ip := ReadHead(s, p, end, off0, len0, tail);
    if !end { TailHere(s, ip, off0, len0, small, rest, base); }
    off := base + s[ip] as nat / 4 + s[ip + 1] as nat * 64;
    ip := ip + 2;
    eof := t < 32 && off == 0x4000;
    if !end { NotEnd(s, p, off0, len0, tail); }
  }

  /** No match reads like the end marker. */
  lemma NotEnd(s: Bytes, p: nat, off: nat, len: nat, rest: Bytes)
    requires p < |s| && Codable(off, len) && !Short(off, len) && s[p..] == MatchHead(off, len) + rest
    ensures !(s[p] < 32 && off == 0x4000)
  {
    HeadArith(off, len);
    assert s[p] == s[p..][0] == MatchHead(off, len)[0];
  }

  // ---------- the decoder ----------

  /** What is left of the stream after some output. */
  ghost function Tail(todo: seq<Sequence>, last: Bytes): Bytes
    requires AllCodable(todo)
  {
    Middle(todo, Small(last)) + (RunBytes(last) + END)
  }

  /** The literals that come next, and what is left when they are done. */
  ghost function NextLits(todo: seq<Sequence>, last: Bytes): Bytes {
    if todo == [] then last else todo[0].lits
  }

  ghost function Rest(todo: seq<Sequence>): seq<Sequence> {
    if todo == [] then [] else [todo[0].(lits := [])] + todo[1..]
  }

  ghost function RestLast(todo: seq<Sequence>, last: Bytes): Bytes {
    if todo == [] then [] else last
  }

  /** What is left completes the output `o` to `src`. */
  ghost predicate Yields(o: Bytes, todo: seq<Sequence>, last: Bytes, src: Bytes) {
    Fits(|o|, todo, |src|, RULES) && Grow(o, todo, |src|, RULES) + last == src
  }

  /** The decoder stands at `ip`, having written `o`. */
  ghost predicate Reading(s: Bytes, ip: nat, o: Bytes, todo: seq<Sequence>, last: Bytes, src: Bytes) {
    ip <= |s| && AllCodable(todo) && s[ip..] == Tail(todo, last) && Yields(o, todo, last, src)
  }

  lemma GrowRest(o: Bytes, todo: seq<Sequence>, last: Bytes, n: nat)
    requires AllCodable(todo) && Fits(|o|, todo, n, RULES)
    ensures var o' := o + NextLits(todo, last);
      && AllCodable(Rest(todo)) && Fits(|o'|, Rest(todo), n, RULES)
      && Grow(o', Rest(todo), n, RULES) + RestLast(todo, last) == Grow(o, todo, n, RULES) + last
  {
    if todo == [] {
      assert o + last + [] == o + last;
    } else {
      var x, x' := todo[0], todo[0].(lits := []);
      assert Rest(todo)[0] == x' && Rest(todo)[1..] == todo[1..];
      assert o + x.lits + x'.lits == o + x.lits;
      forall i | 0 <= i < |todo| ensures Codable(Rest(todo)[i].offset, Rest(todo)[i].len) {
        assert Codable(todo[i].offset, todo[i].len);
      }
    }
  }

  lemma LiteralsDone(s: Bytes, ip: nat, ip': nat, o: Bytes, todo: seq<Sequence>, last: Bytes, src: Bytes)
    requires Reading(s, ip, o, todo, last, src) && ip <= ip' <= |s|
    requires AllCodable(Rest(todo)) && s[ip'..] == Tail(Rest(todo), RestLast(todo, last))
    ensures Reading(s, ip', o + NextLits(todo, last), Rest(todo), RestLast(todo, last), src)
  {
    hide Tail, AllCodable, Rest, NextLits, RestLast, Yields;
    YieldsRest(o, todo, last, src);
  }

  lemma YieldsRest(o: Bytes, todo: seq<Sequence>, last: Bytes, src: Bytes)
    requires Yields(o, todo, last, src) && AllCodable(todo)
    ensures Yields(o + NextLits(todo, last), Rest(todo), RestLast(todo, last), src)
  {
    hide Fits, Grow, AllCodable, Rest, NextLits, RestLast;
    GrowRest(o, todo, last, |src|);
  }

  /** The first byte of what is left: below 16 it starts a literal run. */
  lemma FirstByte(s: Bytes, ip: nat, todo: seq<Sequence>, last: Bytes)
    requires ip <= |s| && AllCodable(todo) && s[ip..] == Tail(todo, last)
    requires var n := |NextLits(todo, last)|; n == 0 || n >= 4
    ensures ip < |s| && (s[ip] < 16 <==> |NextLits(todo, last)| > 0)
    ensures |NextLits(todo, last)| > 0 ==> s[ip..] == RunHead(|NextLits(todo, last)|) + (NextLits(todo, last) + Tail(Rest(todo), RestLast(todo, last)))
    ensures |NextLits(todo, last)| == 0 ==> s[ip..] == Tail(Rest(todo), RestLast(todo, last))
  {
    hide *;
    TailSplit(todo, last);
    RestBare(todo, last);
    var lits, t := NextLits(todo, last), Tail(Rest(todo), RestLast(todo, last));
    RunStarts(lits);
    if |lits| > 0 {
      assert RunHead(|lits|) + lits + t == RunHead(|lits|) + (lits + t);
      assert s[ip] == s[ip..][0] == RunHead(|lits|)[0];
    } else {
      assert [] + t == t;
      TailStarts(Rest(todo), RestLast(todo, last));
      assert s[ip] == s[ip..][0];
    }
  }

  lemma RestBare(todo: seq<Sequence>, last: Bytes)
    ensures NextLits(Rest(todo), RestLast(todo, last)) == []
  {}

  lemma RunStarts(lits: Bytes)
    requires |lits| == 0 || |lits| >= 4
    ensures |lits| == 0 ==> RunBytes(lits) == []
    ensures |lits| > 0 ==> RunBytes(lits) == RunHead(|lits|) + lits && |RunHead(|lits|)| > 0 && RunHead(|lits|)[0] < 16
  {}

  /** Without literals at its front, what is left starts with a match or the end marker. */
  lemma TailStarts(todo: seq<Sequence>, last: Bytes)
    requires AllCodable(todo) && NextLits(todo, last) == []
    ensures |Tail(todo, last)| > 0 && Tail(todo, last)[0] >= 16
  {
    if todo == [] {
      assert Tail(todo, last) == END;
    } else {
      var x := todo[0];
    }
  }

  lemma MiddleSplit(todo: seq<Sequence>, s: nat)
    requires AllCodable(todo) && todo != [] && s <= 3
    ensures AllCodable(Rest(todo)) && Middle(todo, s) == RunBytes(todo[0].lits) + Middle(Rest(todo), s)
  {
    hide RunBytes, Match, Announced, Codable;
    GrowCodable(todo);
    MiddleHead(Rest(todo), s);
    assert Rest(todo)[1..] == todo[1..];
  }

  lemma TailEnd(last: Bytes)
    ensures Tail([], last) == RunBytes(last) + END && (last == [] ==> Tail([], last) == END)
  {}

  lemma TailSplit(todo: seq<Sequence>, last: Bytes)
    requires AllCodable(todo)
    ensures AllCodable(Rest(todo))
    ensures Tail(todo, last) == RunBytes(NextLits(todo, last)) + Tail(Rest(todo), RestLast(todo, last))
  {
    hide RunBytes, Middle, AllCodable, Small, END;
    if todo == [] {
      TailEnd(last);
      TailEnd([]);
    } else {
      MiddleSplit(todo, Small(last));
      var a, w, z := RunBytes(todo[0].lits), Middle(Rest(todo), Small(last)), RunBytes(last) + END;
      assert a + w + z == a + (w + z);
    }
  }

  lemma GrowCodable(todo: seq<Sequence>)
    requires AllCodable(todo)
    ensures AllCodable(Rest(todo))
  {
    if todo != [] {
      forall i | 0 <= i < |todo| ensures Codable(Rest(todo)[i].offset, Rest(todo)[i].len) {
        assert Codable(todo[i].offset, todo[i].len);
      }
    }
  }

  lemma MiddleHead(todo: seq<Sequence>, s: nat)
    requires AllCodable(todo) && todo != [] && todo[0].lits == [] && s <= 3
    ensures AllCodable(todo[1..]) && Codable(todo[0].offset, todo[0].len)
    ensures Middle(todo, s) == Match(todo[0].offset, todo[0].len, Announced(todo[1..], s)) + Middle(todo[1..], s)
  {
    hide Match, Announced, Codable;
    forall i | 0 <= i < |todo[1..]| ensures Codable(todo[1..][i].offset, todo[1..][i].len) {
      assert todo[1..][i] == todo[i + 1];
    }
    assert RunBytes(todo[0].lits) == [];
  }

  lemma TailMatch(todo: seq<Sequence>, last: Bytes)
    requires AllCodable(todo) && todo != [] && todo[0].lits == []
    ensures AllCodable(todo[1..]) && Codable(todo[0].offset, todo[0].len)
    ensures Tail(todo, last) == Match(todo[0].offset, todo[0].len, Announced(todo[1..], Small(last))) + Tail(todo[1..], last)
  {
    hide Match, Announced, Middle, RunBytes, Codable, AllCodable, Small;
    MiddleHead(todo, Small(last));
  }

  lemma GrowMatch(o: Bytes, todo: seq<Sequence>, n: nat)
    requires Fits(|o|, todo, n, RULES) && todo != [] && todo[0].lits == []
    ensures var x := todo[0];
      && 1 <= x.offset <= |o| && |o| + x.len <= n && Fits(|o| + x.len, todo[1..], n, RULES)
      && Grow(MatchCopy(o, x.offset, x.len), todo[1..], n, RULES) == Grow(o, todo, n, RULES)
  {
    assert o + todo[0].lits == o;
  }

  lemma YieldsMatch(o: Bytes, todo: seq<Sequence>, last: Bytes, src: Bytes)
    requires Yields(o, todo, last, src) && todo != [] && todo[0].lits == []
    ensures var x := todo[0];
      1 <= x.offset <= |o| && |o| + x.len <= |src| && Yields(MatchCopy(o, x.offset, x.len), todo[1..], last, src)
  {
    hide Fits, Grow, MatchCopy;
    GrowMatch(o, todo, |src|);
  }

  lemma YieldsEnd(o: Bytes, src: Bytes)
    requires Yields(o, [], [], src)
    ensures o == src && Tail([], []) == END
  {
    assert o + [] == o;
  }

  /** With its literals done, what is left is a match and the rest, or the end marker. */
  lemma MatchAhead(s: Bytes, ip: nat, o: Bytes, todo: seq<Sequence>, last: Bytes, src: Bytes)
    requires Reading(s, ip, o, todo, last, src) && (if todo == [] then last == [] else todo[0].lits == [])
    ensures todo == [] ==> s[ip..] == END && o == src
    ensures todo != [] ==> var x := todo[0];
      && Codable(x.offset, x.len) && AllCodable(todo[1..])
      && s[ip..] == Match(x.offset, x.len, Announced(todo[1..], Small(last))) + Tail(todo[1..], last)
      && 1 <= x.offset <= |o| && |o| + x.len <= |src| && Yields(MatchCopy(o, x.offset, x.len), todo[1..], last, src)
  {
    hide Tail, Match, AllCodable, Codable, Small, Announced, MatchCopy, Yields;
    if todo == [] {
      YieldsEnd(o, src);
    } else {
      TailMatch(todo, last);
      YieldsMatch(o, todo, last, src);
    }
  }

  /** The length of a literal run. */
  method ReadRun(s: Bytes, ip0: nat, ghost n: nat, ghost rest: Bytes) returns (t: nat, ip: nat)
    requires n >= 4 && ip0 <= |s| && s[ip0..] == RunHead(n) + rest
    ensures t == n && ip0 < ip <= |s| && s[ip..] == rest
  {
    Advance(s, ip0, RunHead(n), rest);
    t := s[ip0];
    ip := ip0 + 1;
    if t == 0 {
      assert RunHead(n) + rest == [0] + (ZeroRun(n - 18) + rest);
      Advance(s, ip0, [0], ZeroRun(n - 18) + rest);
      t, ip := ReadZeroRun(s, ip, 15, n - 18, rest);
    }
    t := t + 3;
  }

  /** The literals that come next have been copied. */
  lemma CopiedLiterals(s: Bytes, ip: nat, ip': nat, o: Bytes, o': Bytes, todo: seq<Sequence>, last: Bytes, src: Bytes)
    requires Reading(s, ip, o, todo, last, src) && ip <= ip' && ip' + |NextLits(todo, last)| <= |s| && AllCodable(Rest(todo))
    requires s[ip'..] == NextLits(todo, last) + Tail(Rest(todo), RestLast(todo, last))
    requires o' == o + s[ip'..ip' + |NextLits(todo, last)|]
    ensures Reading(s, ip' + |NextLits(todo, last)|, o', Rest(todo), RestLast(todo, last), src)
    ensures if Rest(todo) == [] then RestLast(todo, last) == [] else Rest(todo)[0].lits == []
  {
    ConsumedFront(todo, last);
    hide Reading, NextLits, Rest, RestLast, AllCodable, Tail;
    var lits := NextLits(todo, last);
    Advance(s, ip', lits, Tail(Rest(todo), RestLast(todo, last)));
    LiteralsDone(s, ip, ip' + |lits|, o, todo, last, src);
  }

  lemma ConsumedFront(todo: seq<Sequence>, last: Bytes)
    ensures if Rest(todo) == [] then RestLast(todo, last) == [] else Rest(todo)[0].lits == []
    ensures |Rest(todo)| == |todo|
  {}

  lemma LiteralsFit(s: Bytes, ip: nat, o: Bytes, todo: seq<Sequence>, last: Bytes, src: Bytes)
    requires Reading(s, ip, o, todo, last, src)
    ensures |o| + |NextLits(todo, last)| <= |src| && AllCodable(todo) && s[ip..] == Tail(todo, last) && ip <= |s|
  {
    if todo != [] { LongerGrows(o, todo, |src|); }
  }

  lemma LongerGrows(o: Bytes, todo: seq<Sequence>, n: nat)
    requires Fits(|o|, todo, n, RULES)
    ensures |o| + Span(todo) == |Grow(o, todo, n, RULES)|
  {
    GrowSpan(o, todo, n, RULES);
  }

  /** Up to three literals that the match before them announced. */
  method CopyFew(s: Bytes, out: array<byte>, ip0: nat, op0: nat, t: nat, ghost todo: seq<Sequence>, ghost last: Bytes,
                 ghost src: Bytes)
    returns (ip: nat, op: nat)
    requires |src| <= out.Length && op0 <= out.Length && Reading(s, ip0, out[..op0], todo, last, src)
    requires 0 < t <= 3 && t == |NextLits(todo, last)|
    modifies out
    ensures op <= out.Length && Reading(s, ip, out[..op], Rest(todo), RestLast(todo, last), src)
    ensures if Rest(todo) == [] then RestLast(todo, last) == [] else Rest(todo)[0].lits == []
    ensures |Rest(todo)| == |todo|
  {
    hide Reading, Yields, AllCodable, Codable, Match, Tail, Middle, RunBytes, Announced, Small, MatchCopy, NextLits,
      Rest, RestLast;
    ip, op := ip0, op0;
    LiteralsFit(s, ip, out[..op], todo, last, src);
    SmallTail(s, ip, todo, last);
    ghost var o := out[..op];
    CopyLiterals(out, op, s, ip, t);
    CopiedLiterals(s, ip, ip, o, out[..op + t], todo, last, src);
    ConsumedFront(todo, last);
    ip, op := ip + t, op + t;
  }

  /** Matches with at most three literals after each: until a longer run, or the end. */
  method RunMatches(s: Bytes, out: array<byte>, ip0: nat, op0: nat, ghost todo0: seq<Sequence>, ghost last0: Bytes,
                    ghost src: Bytes)
    returns (eof: bool, ip: nat, op: nat, ghost todo: seq<Sequence>)
    requires |src| <= out.Length && op0 <= out.Length && Reading(s, ip0, out[..op0], todo0, last0, src)
    requires if todo0 == [] then last0 == [] else todo0[0].lits == []
    modifies out
    ensures eof ==> ip == |s| && op == |src| && out[..op] == src
    ensures !eof ==> op <= out.Length && Reading(s, ip, out[..op], todo, last0, src) && |todo| < |todo0|
    ensures !eof ==> var n := |NextLits(todo, last0)|; n == 0 || n >= 4
  {
    hide Reading, Yields, AllCodable, Codable, Match, Tail, Middle, RunBytes, Announced, Small, MatchCopy, NextLits,
      Rest, RestLast;
    ip, op, todo := ip0, op0, todo0;
    ghost var last := last0;
    while true
      invariant op <= out.Length && Reading(s, ip, out[..op], todo, last, src) && |todo| <= |todo0|
      invariant if todo == [] then last == [] else todo[0].lits == []
      invariant todo != [] ==> last == last0
      decreases |todo|
    {
      MatchAhead(s, ip, out[..op], todo, last, src);
      ReadingIp(s, ip, out[..op], todo, last, src);
      ghost var x, small := Sequence([], 1, 4), 0;
      if todo != [] {
        x, small := todo[0], Announced(todo[1..], Small(last));
      } else {
        CodableIf(1, 4);
      }
      var off, len, short;
      eof, off, len, ip, short := ReadMatch(s, ip, todo == [], x.offset, x.len, small, if todo == [] then [] else Tail(todo[1..], last));
      if eof {
        return;
      }
      CopyMatch(out, op, off, len, short);
      op := op + len;
      todo := todo[1..];
      ReadingIs(s, ip, out[..op], todo, last, src);
      AnnouncedIs(todo, last);
      var t := s[ip - 2] % 4;
      if t == 0 {
        return;
      }
      ip, op := CopyFew(s, out, ip, op, t, todo, last, src);
      RestIs(todo, last);
      todo, last := Rest(todo), RestLast(todo, last);
    }
  }

  lemma RestIs(todo: seq<Sequence>, last: Bytes)
    ensures Rest(todo) != [] ==> RestLast(todo, last) == last
  {}

  lemma ReadingIp(s: Bytes, ip: nat, o: Bytes, todo: seq<Sequence>, last: Bytes, src: Bytes)
    requires Reading(s, ip, o, todo, last, src)
    ensures ip <= |s|
  {}

  lemma ReadingIs(s: Bytes, ip: nat, o: Bytes, todo: seq<Sequence>, last: Bytes, src: Bytes)
    requires ip <= |s| && AllCodable(todo) && s[ip..] == Tail(todo, last) && Yields(o, todo, last, src)
    ensures Reading(s, ip, o, todo, last, src)
  {}

  lemma AnnouncedIs(todo: seq<Sequence>, last: Bytes)
    ensures var n := |NextLits(todo, last)|; Announced(todo, Small(last)) == if n <= 3 then n else 0
  {}

  lemma SmallTail(s: Bytes, ip: nat, todo: seq<Sequence>, last: Bytes)
    requires AllCodable(todo) && ip <= |s| && s[ip..] == Tail(todo, last) && |NextLits(todo, last)| <= 3
    ensures AllCodable(Rest(todo)) && s[ip..] == NextLits(todo, last) + Tail(Rest(todo), RestLast(todo, last))
    ensures ip + |NextLits(todo, last)| <= |s|
  {
    TailSplit(todo, last);
    assert |s[ip..]| == |s| - ip;
  }

  /** A stream that opens with its own literal count is all literals. */
  ghost predicate OnlyLiterals(xs: seq<Sequence>, src: Bytes) {
    xs == [] && 0 < |src| <= 238
  }

  lemma StreamStarts(s: Bytes, src: Bytes, xs: seq<Sequence>)
    requires StreamOf(s, src, xs)
    ensures Span(xs) <= |src| && |s| > 0 && (s[0] > 17 <==> OnlyLiterals(xs, src))
    ensures OnlyLiterals(xs, src) ==> s == [17 + |src|] + src + END
    ensures !OnlyLiterals(xs, src) ==> Reading(s, 0, [], xs, src[Span(xs)..], src)
    ensures !OnlyLiterals(xs, src) ==> var n := |NextLits(xs, src[Span(xs)..])|; n == 0 || n >= 4
  {
    hide Codable, AllCodable, Middle, RunBytes, Match, Fits, Grow, Small, RunHead;
    var last := src[Span(xs)..];
    if xs == [] { assert last == src; }
    if !OnlyLiterals(xs, src) {
      assert s[0..] == s == Tail(xs, last);
      assert src[..Span(xs)] + last == src;
      FirstOfTail(xs, last);
    }
  }

  lemma FirstOfTail(xs: seq<Sequence>, last: Bytes)
    requires AllCodable(xs) && Starts(xs) && (xs == [] ==> |last| == 0 || |last| > 238)
    ensures |Tail(xs, last)| > 0 && Tail(xs, last)[0] <= 17
  {
    if xs == [] && last == [] {
      assert Tail(xs, last) == END;
    } else {
      TailSplit(xs, last);
      var l := NextLits(xs, last);
      assert RunBytes(l)[0] <= 17;
    }
  }

  lemma OnlyLiteralsRead(s: Bytes, o: Bytes, src: Bytes)
    requires s == [17 + |src|] + src + END && o == src && |src| <= 238
    ensures 1 + |src| <= |s| && s[1..1 + |src|] == src && Reading(s, 1 + |src|, src, [], [], src)
  {
    assert s[1 + |src|..] == END;
    assert Tail([], []) == END;
    assert src + [] == src;
  }

  /** `lzo1x_decompress` */
  method Decompress(s: Bytes, out: array<byte>, ghost src: Bytes, ghost xs: seq<Sequence>) returns (res: int, outLen: nat)
    requires StreamOf(s, src, xs) && |src| <= out.Length
    modifies out
    ensures res == LZO_E_OK && outLen == |src| && out[..outLen] == src
  {
    hide Reading, StreamOf, AllCodable, Tail, NextLits, Rest, RestLast, Yields, RunBytes;
    StreamStarts(s, src, xs);
    ghost var todo, last := xs, src[Span(xs)..];
    var ip: nat, op: nat := 0, 0;
    assert out[..0] == [];
    var matches := false;
    if s[ip] > 17 {
      var t := s[ip] as nat - 17;
      OnlyLiteralsRead(s, src, src);
      ip := ip + 1;
      CopyLiterals(out, op, s, ip, t);
      assert out[..op + t] == src;
      ip, op, matches := ip + t, op + t, true;
      todo, last := [], [];
    }
    while true
      invariant op <= out.Length && Reading(s, ip, out[..op], todo, last, src)
      invariant if matches then (if todo == [] then last == [] else todo[0].lits == [])
                else var n := |NextLits(todo, last)|; n == 0 || n >= 4
      decreases |todo|, !matches
    {
      if !matches {
        ghost var o := out[..op];
        LiteralsFit(s, ip, o, todo, last, src);
        FirstByte(s, ip, todo, last);
        TailSplit(todo, last);
        ConsumedFront(todo, last);
        if s[ip] < 16 {
          var t;
          ghost var at := ip;
          ghost var lits := NextLits(todo, last);
          t, ip := ReadRun(s, ip, |lits|, lits + Tail(Rest(todo), RestLast(todo, last)));
          Advance(s, ip, lits, Tail(Rest(todo), RestLast(todo, last)));
          CopyLiterals(out, op, s, ip, t);
          CopiedLiterals(s, at, ip, o, out[..op + t], todo, last, src);
          ip, op := ip + t, op + t;
        } else {
          NoLiterals(s, ip, o, todo, last, src);
        }
        todo, last := Rest(todo), RestLast(todo, last);
      }
      matches := false;
      var eof;
      ghost var todo';
      eof, ip, op, todo' := RunMatches(s, out, ip, op, todo, last, src);
      todo := todo';
      if eof {
        return if ip == |s| then LZO_E_OK else LZO_E_INPUT_NOT_CONSUMED, op;
      }
    }
  }

  lemma NoLiterals(s: Bytes, ip: nat, o: Bytes, todo: seq<Sequence>, last: Bytes, src: Bytes)
    requires Reading(s, ip, o, todo, last, src) && NextLits(todo, last) == [] && AllCodable(Rest(todo))
    requires s[ip..] == Tail(Rest(todo), RestLast(todo, last))
    ensures Reading(s, ip, o, Rest(todo), RestLast(todo, last), src)
  {
    hide Tail, AllCodable, Yields, Rest, RestLast;
    YieldsRest(o, todo, last, src);
    assert o + [] == o;
  }
}
