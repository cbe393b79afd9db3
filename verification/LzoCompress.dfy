/**
 `lzo1x_1_compress`: chunks of at most 49152 bytes, a dictionary that starts afresh with
 each of them, and literals that are carried from one chunk to the next.
 */
module LzoCompress {
  import opened Lz77
  import opened Bits
  import opened LzoFormat
  import opened Candidates

  const CHUNK := 49152
  const DICT_SIZE := 16384  // 1 << D_BITS
  const MARGIN := 20

  // ---------- copying ----------

  method CopyN(out: array<byte>, op: nat, src: Bytes, ii: nat, n: nat)
    requires ii + n <= |src| && op + n <= out.Length
    modifies out
    ensures forall k :: op <= k < op + n ==> out[k] == src[ii + (k - op)]
    ensures forall k :: 0 <= k < out.Length && !(op <= k < op + n) ==> out[k] == old(out[k])
  {
    forall k | op <= k < op + n {
      out[k] := src[ii + (k - op)];
    }
  }

  lemma Copied(before: Bytes, after: Bytes, op: nat, src: Bytes, ii: nat, n: nat)
    requires op <= |before| && ii + n <= |src| && op + n <= |after|
    requires forall k :: 0 <= k < op ==> after[k] == before[k]
    requires forall k :: op <= k < op + n ==> after[k] == src[ii + (k - op)]
    ensures after[..op + n] == before[..op] + src[ii..ii + n]
  {}

  /** `UA_SET1` until the count fits a byte. */
  method EmitZeroRun(out: array<byte>, op0: nat, x: nat) returns (op: nat)
    requires x > 0 && op0 + (x - 1) / 255 + 1 <= out.Length
    modifies out
    ensures op == op0 + |ZeroRun(x)| && out[..op] == old(out[..op0]) + ZeroRun(x)
  {
    op := op0;
    var tt := x;
    while tt > 255
      invariant 0 < tt <= x && op + |ZeroRun(tt)| == op0 + |ZeroRun(x)|
      invariant out[..op] + ZeroRun(tt) == old(out[..op0]) + ZeroRun(x)
    {
      ghost var before := out[..op];
      assert before + ([0] + ZeroRun(tt - 255)) == before + [0] + ZeroRun(tt - 255);
      tt := tt - 255;
      out[op] := 0;
      op := op + 1;
      assert out[..op] == before + [0];
    }
    ghost var before := out[..op];
    out[op] := tt;
    op := op + 1;
    assert out[..op] == before + [tt];
  }

  /** The head of a run of at least nineteen literals. */
  method EmitLongHead(out: array<byte>, op0: nat, t: nat) returns (op: nat)
    requires t >= 19 && op0 + 2 + (t - 19) / 255 <= out.Length
    modifies out
    ensures op == op0 + |RunHead(t)| && out[..op] == old(out[..op0]) + RunHead(t)
  {
    ghost var before := out[..op0];
    out[op0] := 0;
    assert out[..op0 + 1] == before + [0];
    op := EmitZeroRun(out, op0 + 1, t - 18);
    assert before + [0] + ZeroRun(t - 18) == before + ([0] + ZeroRun(t - 18));
  }

  /** Sixteen bytes at a time, then one at a time. */
  method CopyLong(out: array<byte>, op0: nat, src: Bytes, ii0: nat, t0: nat) returns (op: nat)
    requires t0 >= 16 && ii0 + t0 <= |src| && op0 + t0 <= out.Length
    modifies out
    ensures op == op0 + t0 && out[..op] == old(out[..op0]) + src[ii0..ii0 + t0]
  {
    var ii, t := ii0, t0;
    op := op0;
    while t >= 16
      invariant op == op0 + (t0 - t) && ii == ii0 + (t0 - t) && 0 <= t <= t0
      invariant forall k :: op0 <= k < op ==> out[k] == src[ii0 + (k - op0)]
      invariant forall k :: 0 <= k < op0 ==> out[k] == old(out[k])
    {
      CopyN(out, op, src, ii, 8);
      CopyN(out, op + 8, src, ii + 8, 8);
      op, ii, t := op + 16, ii + 16, t - 16;
    }
    while t > 0
      invariant op == op0 + (t0 - t) && ii == ii0 + (t0 - t) && 0 <= t <= t0
      invariant forall k :: op0 <= k < op ==> out[k] == src[ii0 + (k - op0)]
      invariant forall k :: 0 <= k < op0 ==> out[k] == old(out[k])
    {
      out[op] := src[ii];
      op, ii, t := op + 1, ii + 1, t - 1;
    }
    Copied(old(out[..]), out[..], op0, src, ii0, t0);
  }

  /** Up to three literals, counted in the byte before last, whose two low bits are clear. */
  method EmitFew(src: Bytes, out: array<byte>, op0: nat, ii: nat, t: nat) returns (op: nat)
    requires 1 <= t <= 3 && ii + 4 <= |src| && 2 <= op0 && op0 + 4 <= out.Length && LowClear(out[..op0])
    modifies out
    ensures op == op0 + t && out[..op] == Patched(old(out[..op0]), t) + src[ii..ii + t]
  {
    ghost var before := out[..op0];
    out[op0 - 2] := out[op0 - 2] + t;
    ghost var now := out[..];
    CopyN(out, op0, src, ii, 4);
    op := op0 + t;
    Copied(now, out[..], op0, src, ii, t);
    assert now[..op0] == Patched(before, t);
  }

  /** Up to sixteen literals, copied eight bytes at a time. */
  method EmitSixteen(src: Bytes, out: array<byte>, op0: nat, ii: nat, t: nat) returns (op: nat)
    requires 4 <= t <= 16 && ii + 16 <= |src| && op0 + 17 <= out.Length
    modifies out
    ensures op == op0 + 1 + t && out[..op] == old(out[..op0]) + ([t - 3] + src[ii..ii + t])
  {
    ghost var before := out[..op0];
    out[op0] := t - 3;
    ghost var now := out[..];
    CopyN(out, op0 + 1, src, ii, 8);
    CopyN(out, op0 + 9, src, ii + 8, 8);
    op := op0 + 1 + t;
    Copied(now, out[..], op0 + 1, src, ii, t);
    assert now[..op0 + 1] == before + [t - 3];
    assert before + [t - 3] + src[ii..ii + t] == before + ([t - 3] + src[ii..ii + t]);
  }

  /** The literals before a match; up to three of them go into the byte before last. */
  method EmitLiterals(src: Bytes, out: array<byte>, op0: nat, ii: nat, t: nat) returns (op: nat)
    requires ii + t <= |src| && ii + 16 <= |src| && op0 <= out.Length
    requires 1 <= t <= 3 ==> op0 >= 2
    requires LowClear(out[..op0])
    requires op0 + 2 + t / 255 + t + 16 <= out.Length
    modifies out
    ensures op == op0 + |RunBytes(src[ii..ii + t])| && op <= out.Length
    ensures out[..op] == Patched(old(out[..op0]), Small(src[ii..ii + t])) + RunBytes(src[ii..ii + t])
  {
    ghost var before := out[..op0];
    ghost var lits := src[ii..ii + t];
    if t == 0 {
      assert Patched(before, 0) + [] == before;
      return op0;
    }
    if t <= 3 {
      op := EmitFew(src, out, op0, ii, t);
    } else if t <= 16 {
      op := EmitSixteen(src, out, op0, ii, t);
      PatchedNone(before);
    } else {
      ghost var head := RunHead(t);
      if t <= 18 {
        out[op0] := t - 3;
        op := op0 + 1;
        assert out[..op] == before + [t - 3];
      } else {
        op := EmitLongHead(out, op0, t);
      }
      op := CopyLong(out, op, src, ii, t);
      assert before + head + lits == before + (head + lits);
      PatchedNone(before);
    }
  }

  lemma PatchedNone(w: Bytes)
    requires LowClear(w)
    ensures Patched(w, 0) == w
  {}

  // ---------- matching ----------

  /** Equal bytes after the first four, eight at a time, until the margin is reached. */
  method EqualEights(src: Bytes, ip: nat, cand: nat, ipEnd: nat) returns (len: nat, ended: bool)
    requires cand <= ip < ipEnd && ipEnd + MARGIN <= |src| && Repeats(src, ip, ip + 4, ip - cand)
    ensures len >= 4 && ip + len <= ipEnd + 11 && Repeats(src, ip, ip + len, ip - cand)
    ensures if ended then ip + len >= ipEnd else !Eight(src, ip + len, cand + len)
  {
    hide Eight, Repeats;
    len := 4;
    var same := Eight(src, ip + len, cand + len);
    while same
      invariant len >= 4 && ip + len < ipEnd + 4 && Repeats(src, ip, ip + len, ip - cand)
      invariant same == Eight(src, ip + len, cand + len)
      decreases ipEnd + 4 - len
    {
      SameEight(src, ip + len, cand + len);
      RepeatsOn(src, ip, ip + len, ip + len + 8, ip - cand);
      len := len + 8;
      same := Eight(src, ip + len, cand + len);
      if ip + len >= ipEnd {
        return len, true;
      }
    }
    ended := false;
  }

  /** The length of a match of at least four bytes. */
  method MatchLength(src: Bytes, ip: nat, cand: nat, ipEnd: nat) returns (len: nat)
    requires cand <= ip < ipEnd && ipEnd + MARGIN <= |src| && Repeats(src, ip, ip + 4, ip - cand)
    ensures len >= 4 && ip + len <= ipEnd + MARGIN && Repeats(src, ip, ip + len, ip - cand)
    ensures ip + len < ipEnd ==> src[ip + len] != src[cand + len]
  {
    hide Eight, Repeats;
    var ended;
    len, ended := EqualEights(src, ip, cand, ipEnd);
    if !ended {
      var c := NbCommonBytes(src, ip + len, cand + len);
      RepeatsOn(src, ip, ip + len, ip + len + c, ip - cand);
      len := len + c;
    }
  }

  method EmitMatch(out: array<byte>, op0: nat, off: nat, len: nat) returns (op: nat)
    requires Codable(off, len) && op0 + 4 + len / 255 <= out.Length
    modifies out
    ensures op == op0 + |Match(off, len, 0)| && op <= out.Length && out[..op] == old(out[..op0]) + Match(off, len, 0)
  {
    ghost var before := out[..op0];
    if len <= M2_MAX_LEN && off <= M2_MAX_OFFSET {
      var mOff := off - 1;
      op := EmitTwo(out, op0, (len - 1) * 32 + mOff % 8 * 4, mOff / 8);
      return;
    }
    op := EmitMatchHead(out, op0, off, len);
    var mOff := if off <= M3_MAX_OFFSET then off - 1 else off - 0x4000;
    op := EmitTwo(out, op, mOff % 64 * 4, mOff / 64 % 256);
    ghost var tail: Bytes := [mOff % 64 * 4, mOff / 64 % 256];
    assert Match(off, len, 0) == MatchHead(off, len) + tail;
    hide *;
    assert before + MatchHead(off, len) + tail == before + (MatchHead(off, len) + tail);
  }

  method EmitTwo(out: array<byte>, op0: nat, a: byte, b: byte) returns (op: nat)
    requires op0 + 2 <= out.Length
    modifies out
    ensures op == op0 + 2 && out[..op] == old(out[..op0]) + [a, b]
  {
    out[op0], out[op0 + 1] := a, b;
    op := op0 + 2;
  }

  /** Forms M3 and M4: the marker with the length. */
  method EmitMatchHead(out: array<byte>, op0: nat, off: nat, len: nat) returns (op: nat)
    requires Codable(off, len) && !(len <= M2_MAX_LEN && off <= M2_MAX_OFFSET) && op0 + 4 + len / 255 <= out.Length
    modifies out
    ensures op == op0 + |MatchHead(off, len)| && op + 2 <= out.Length && out[..op] == old(out[..op0]) + MatchHead(off, len)
  {
    hide ZeroRun;
    if off <= M3_MAX_OFFSET {
      if len <= M3_MAX_LEN {
        op := EmitByte(out, op0, M3_MARKER + (len - 2));
      } else {
        op := EmitMarked(out, op0, M3_MARKER, len - M3_MAX_LEN);
      }
    } else {
      var high := (off - 0x4000) / 0x4000 * 8;  // (m_off >> 11) & 8
      if len <= M4_MAX_LEN {
        op := EmitByte(out, op0, M4_MARKER + high + (len - 2));
      } else {
        op := EmitMarked(out, op0, M4_MARKER + high, len - M4_MAX_LEN);
      }
    }
  }

  method EmitByte(out: array<byte>, op0: nat, b: byte) returns (op: nat)
    requires op0 < out.Length
    modifies out
    ensures op == op0 + 1 && out[..op] == old(out[..op0]) + [b]
  {
    out[op0] := b;
    op := op0 + 1;
  }

  method EmitMarked(out: array<byte>, op0: nat, marker: byte, x: nat) returns (op: nat)
    requires x > 0 && op0 + 1 + (x - 1) / 255 + 1 <= out.Length
    modifies out
    ensures op == op0 + |[marker] + ZeroRun(x)| && out[..op] == old(out[..op0]) + ([marker] + ZeroRun(x))
  {
    hide ZeroRun;
    ghost var before := out[..op0];
    op := EmitByte(out, op0, marker);
    op := EmitZeroRun(out, op, x);
    assert before + [marker] + ZeroRun(x) == before + ([marker] + ZeroRun(x));
  }

  // ---------- the state between emissions ----------

  /** The bytes written stand for the first `anchor` bytes of the input. */
  ghost predicate Encoded(src: Bytes, written: Bytes, xs: seq<Sequence>, anchor: nat) {
    AllCodable(xs) && written == Middle(xs, 0) && Span(xs) == anchor && Starts(xs) && Parses(src, xs, anchor, RULES)
  }

  lemma EncodedView(src: Bytes, written: Bytes, xs: seq<Sequence>, anchor: nat)
    requires Encoded(src, written, xs, anchor)
    ensures anchor <= |src| && 16 * |written| <= 17 * anchor && AllCodable(xs) && written == Middle(xs, 0)
    ensures LowClear(written)
    ensures xs == [] ==> written == [] && anchor == 0
    ensures xs != [] ==> |written| >= 2
  {
    MiddlePatch(xs, 0);
    MiddleSize(xs, 0);
  }

  lemma EncodedMore(src: Bytes, written: Bytes, xs: seq<Sequence>, anchor: nat, ip: nat, off: nat, end: nat, written': Bytes)
    requires Encoded(src, written, xs, anchor) && (xs == [] ==> ip >= anchor + 4)
    requires anchor <= ip && ip + 4 <= end <= |src| && 1 <= off <= M4_MAX_OFFSET && off <= ip && Repeats(src, ip, end, off)
    requires var xs' := xs + [Sequence(src[anchor..ip], off, end - ip)]; AllCodable(xs') && Middle(xs', 0) == written'
    ensures Encoded(src, written', xs + [Sequence(src[anchor..ip], off, end - ip)], end)
  {
    var x := Sequence(src[anchor..ip], off, end - ip);
    ParsesMore(src, xs, anchor, ip, off, end, RULES);
    SpanSnoc(xs, x);
    hide Middle, Parses, Span, Starts, AllCodable, Repeats, Fits, Grow;
  }

  /** What writing literals and a match does to the output. */
  ghost predicate Appended(w: Bytes, w': Bytes, lits: Bytes, off: nat, len: nat) {
    && Codable(off, len) && LowClear(w)
    && w' == Patched(w, Small(lits)) + RunBytes(lits) + Match(off, len, 0)
  }

  lemma MiddleMore(xs: seq<Sequence>, x: Sequence)
    requires AllCodable(xs) && Codable(x.offset, x.len)
    ensures AllCodable(xs + [x]) && LowClear(Middle(xs, 0))
    ensures Middle(xs + [x], 0) == Patched(Middle(xs, 0), Small(x.lits)) + RunBytes(x.lits) + Match(x.offset, x.len, 0)
  {
    hide Codable, AllCodable, LowClear, Patched, Middle;
    MiddlePatch(xs, Small(x.lits));
    MiddleSnoc(xs, x, 0);
    var a, b, c := Middle(xs, Small(x.lits)), RunBytes(x.lits), Match(x.offset, x.len, 0);
    hide *;
    assert a + (b + c) == a + b + c;
  }

  lemma AppendedIs(w: Bytes, w': Bytes, lits: Bytes, off: nat, len: nat)
    requires Appended(w, w', lits, off, len)
    ensures Codable(off, len) && LowClear(w) && w' == Patched(w, Small(lits)) + RunBytes(lits) + Match(off, len, 0)
    ensures |w'| == |w| + |RunBytes(lits)| + |Match(off, len, 0)|
  {}

  lemma CodableIf(off: nat, len: nat)
    ensures Codable(off, len) <==> 1 <= off <= M4_MAX_OFFSET && len >= 4
  {}

  lemma MakeAppended(w: Bytes, mid: Bytes, w': Bytes, lits: Bytes, off: nat, len: nat)
    requires LowClear(w) && Codable(off, len) && mid == Patched(w, Small(lits)) + RunBytes(lits) && w' == mid + Match(off, len, 0)
    ensures Appended(w, w', lits, off, len)
  {}

  /** Literals and the longest match there is before the margin; what comes next is again a literal. */
  method EmitSequence(src: Bytes, out: array<byte>, op0: nat, anchor: nat, ip0: nat, cand: nat, ipEnd: nat,
                      ghost xs: seq<Sequence>)
    returns (op: nat, ip: nat, ghost xs': seq<Sequence>)
    requires Bound(|src|) <= out.Length && op0 <= out.Length && Encoded(src, out[..op0], xs, anchor)
    requires anchor <= ip0 < ipEnd && ipEnd + MARGIN <= |src| && (xs == [] ==> ip0 >= anchor + 4)
    requires cand < ip0 <= cand + M4_MAX_OFFSET && Repeats(src, ip0, ip0 + 4, ip0 - cand)
    modifies out
    ensures op <= out.Length && Encoded(src, out[..op], xs', ip)
    ensures ip0 + 4 <= ip <= ipEnd + MARGIN && (ip < ipEnd ==> src[ip] != src[ip - (ip0 - cand)])
    ensures xs' == xs + [Sequence(src[anchor..ip0], ip0 - cand, ip - ip0)]
    ensures Codable(ip0 - cand, ip - ip0) && op == op0 + |RunBytes(src[anchor..ip0])| + |Match(ip0 - cand, ip - ip0, 0)|
  {
    hide *;
    ghost var written := out[..op0];
    EncodedView(src, written, xs, anchor);
    op, ip := WriteSequence(src, out, op0, anchor, ip0, cand, ipEnd);
    AppendedIs(written, out[..op], src[anchor..ip0], ip0 - cand, ip - ip0);
    MiddleMore(xs, Sequence(src[anchor..ip0], ip0 - cand, ip - ip0));
    EncodedMore(src, written, xs, anchor, ip0, ip0 - cand, ip, out[..op]);
    xs' := xs + [Sequence(src[anchor..ip0], ip0 - cand, ip - ip0)];
  }

  lemma RoomForLiterals(n: nat, op: nat, anchor: nat, ip: nat)
    requires 16 * op <= 17 * anchor && anchor <= ip && ip + MARGIN < n
    ensures op + 2 + (ip - anchor) / 255 + (ip - anchor) + 16 <= Bound(n)
  {}

  lemma RoomForMatch(n: nat, op: nat, ip: nat, len: nat)
    requires 16 * op <= 17 * ip + 20 && ip + len <= n
    ensures op + 4 + len / 255 <= Bound(n)
  {}

  method WriteSequence(src: Bytes, out: array<byte>, op0: nat, anchor: nat, ip0: nat, cand: nat, ipEnd: nat)
    returns (op: nat, ip: nat)
    requires Bound(|src|) <= out.Length && op0 <= out.Length && 16 * op0 <= 17 * anchor
    requires LowClear(out[..op0])
    requires anchor <= ip0 < ipEnd && ipEnd + MARGIN <= |src| && (op0 < 2 ==> ip0 >= anchor + 4)
    requires cand < ip0 <= cand + M4_MAX_OFFSET && Repeats(src, ip0, ip0 + 4, ip0 - cand)
    modifies out
    ensures op <= out.Length && ip0 + 4 <= ip <= ipEnd + MARGIN && Repeats(src, ip0, ip, ip0 - cand)
    ensures ip < ipEnd ==> src[ip] != src[ip - (ip0 - cand)]
    ensures Appended(old(out[..op0]), out[..op], src[anchor..ip0], ip0 - cand, ip - ip0)
  {
    hide Appended, Repeats, Patched, Small, RunBytes, Match, LowClear, Codable, Bound;
    RunSize(src[anchor..ip0]);
    RoomForLiterals(|src|, op0, anchor, ip0);
    op := EmitLiterals(src, out, op0, anchor, ip0 - anchor);
    var len := MatchLength(src, ip0, cand, ipEnd);
    CodableIf(ip0 - cand, len);
    ghost var mid := out[..op];
    RoomForMatch(|src|, op, ip0, len);
    op := EmitMatch(out, op, ip0 - cand, len);
    ip := ip0 + len;
    MakeAppended(old(out[..op0]), mid, out[..op], src[anchor..ip0], ip0 - cand, len);
  }

  // ---------- one chunk ----------

  /** Exchange the dictionary entry for the position. */
  method Lookup(src: Bytes, base: nat, ip: nat, dict: array<nat>, hash: Bytes -> nat) returns (cand: nat)
    requires base < ip && ip + 4 <= |src| && ip - base < 0x1_0000 && InTable(hash, dict.Length) && Below(dict[..], ip - base)
    modifies dict
    ensures base <= cand < ip && Below(dict[..], ip - base + 1)
    ensures hash(src[ip..ip + 4]) < dict.Length && cand == base + old(dict[..])[hash(src[ip..ip + 4])]
    ensures dict[..] == old(dict[..])[hash(src[ip..ip + 4]) := ip - base]
  {
    var dindex := hash(src[ip..ip + 4]);
    cand := base + dict[dindex];
    ghost var was := dict[..];
    var entry: nat := (ip - base) % 0x1_0000;
    dict[dindex] := entry;
    assert dict[..] == was[dindex := entry];
  }

  function ChunkFinder(base: nat, hash: Bytes -> nat): Finder {
    Finder(base, base + 5, 32, 4, M4_MAX_OFFSET, true, hash)
  }

  /** Look the position up and enter it. */
  method Probe(src: Bytes, base: nat, ip: nat, dict: array<nat>, hash: Bytes -> nat, ghost xs: seq<Sequence>,
               ghost entered: set<nat>)
    returns (same: bool, cand: nat)
    requires base < ip && ip + 4 <= |src| && ip - base < 0x1_0000 && InTable(hash, dict.Length) && Below(dict[..], ip - base)
    requires Scanned(src, ChunkFinder(base, hash), dict[..], xs, entered, ip)
    modifies dict
    ensures base <= cand < ip && Below(dict[..], ip - base + 1) && (Below(old(dict[..]), 1) ==> cand == base)
    ensures same <==> Same4(src, cand, ip)
    ensures !same ==> Scanned(src, ChunkFinder(base, hash), dict[..], xs, entered + {ip}, ip + 1)
    ensures same ==> Follows(src, ChunkFinder(base, hash), dict[..], xs, entered, ip)
  {
    hide Scanned, Same4, InTable, Below, Follows;
    ghost var was := dict[..];
    cand := Lookup(src, base, ip, dict, hash);
    FirstEntry(was, hash(src[ip..ip + 4]));
    same := Same4(src, cand, ip);
    if !same { NotEqual(src, ChunkFinder(base, hash), cand, ip); }
    if same {
      Followed(src, ChunkFinder(base, hash), was, xs, entered, ip);
    } else {
      ScanMiss(src, ChunkFinder(base, hash), was, xs, entered, ip);
    }
  }

  lemma FirstEntry(table: seq<nat>, h: nat)
    requires h < |table|
    ensures Below(table, 1) ==> table[h] == 0
  {}

  /** How far a chunk of equal bytes has come: the first position looked up is a match up to the margin. */
  ghost predicate Squeezed(src: Bytes, base: nat, len: nat, op0: nat, ti0: nat, table: seq<nat>, literal: bool,
                           ip: nat, ii: nat, ti: nat,
                           op: nat) {
    Uniform(src) && ti0 <= MARGIN ==>
      || (literal && ii == base && ti == ti0 && op == op0 && Below(table, 1) && ip == base + (if ti < 4 then 4 - ti else 0))
      || (!literal && ip == ii && ti == 0 && ip + MARGIN >= base + len && op <= op0 + ti0 + 10 + len / 255)
  }

  function Next(literal: bool, ip: nat, ii: nat): nat
    requires ii <= ip
  {
    if literal then ip + 1 + (ip - ii) / 32 else ip
  }

  /** Only the first position is looked up, and its candidate is the start of the chunk. */
  lemma SqueezedProbe(src: Bytes, base: nat, len: nat, op0: nat, ti0: nat, table: seq<nat>, literal: bool, ip: nat,
                      ii: nat, ti: nat, op: nat)
    requires Squeezed(src, base, len, op0, ti0, table, literal, ip, ii, ti, op) && ii <= ip && Next(literal, ip, ii) + MARGIN < base + len
    requires Uniform(src) && ti0 <= MARGIN
    ensures Below(table, 1) && ii == base && ti == ti0 && op == op0 && Next(literal, ip, ii) == base + 1 + (if ti0 < 4 then 4 - ti0 else 0)
  {}

  lemma SqueezedEnd(src: Bytes, base: nat, len: nat, op0: nat, ti0: nat, table: seq<nat>, literal: bool, ip: nat,
                    ii: nat, ti: nat, op: nat)
    requires Squeezed(src, base, len, op0, ti0, table, literal, ip, ii, ti, op) && ti <= ii <= ip && Next(literal, ip, ii) + MARGIN >= base + len
    requires ii <= base + len
    ensures Uniform(src) && ti0 <= MARGIN ==>
      var t := base + len - (ii - ti); (t <= MARGIN && op <= op0 + ti0 + 10 + len / 255) || (len <= MARGIN + 5 && t == ti0 + len && op == op0)
  {}

  lemma EncodedIs(src: Bytes, written: Bytes, xs: seq<Sequence>, anchor: nat)
    requires Encoded(src, written, xs, anchor)
    ensures AllLong(xs) && Span(xs) == anchor
  {}

  lemma StepOn(base: nat, hash: Bytes -> nat, xs: seq<Sequence>, literal: bool, ip: nat, ii: nat, ti: nat)
    requires base <= ii <= ip && ti <= ii && Span(xs) == ii - ti && (ti > 0 ==> ii == base)
    ensures Steps(ChunkFinder(base, hash), xs, if literal then ip + 1 else ip, Next(literal, ip, ii))
  {}

  lemma FirstOf(src: Bytes, base: nat, hash: Bytes -> nat, table: seq<nat>, xs: seq<Sequence>, ti: nat)
    requires AllLong(xs)
    ensures Scanned(src, ChunkFinder(base, hash), table, xs, {}, base + (if ti < 4 then 4 - ti else 0) + 1) && Agree(xs, xs, base)
  {
    ScanStart(src, ChunkFinder(base, hash), table, xs, base + (if ti < 4 then 4 - ti else 0) + 1);
  }

  lemma SqueezedMatch(src: Bytes, base: nat, len: nat, op0: nat, ti0: nat, ip0: nat, ip: nat, op: nat)
    requires Uniform(src) && ti0 <= base && base + len <= |src| && ip0 == base + 1 + (if ti0 < 4 then 4 - ti0 else 0)
    requires ti0 <= MARGIN && base < ip0 && ip0 + 4 <= ip <= base + len
    requires ip + MARGIN < base + len ==> src[ip] != src[ip - (ip0 - base)]
    requires Codable(ip0 - base, ip - ip0)
    requires op == op0 + |RunBytes(src[base - ti0..ip0])| + |Match(ip0 - base, ip - ip0, 0)|
    ensures ip + MARGIN >= base + len && op <= op0 + ti0 + 10 + len / 255
  {
    RunSize(src[base - ti0..ip0]);
  }

  lemma SqueezedDone(src: Bytes, base: nat, len: nat, op0: nat, ti0: nat, table: seq<nat>, literal: bool, ip: nat,
                     ii: nat, op: nat)
    requires Uniform(src) && ti0 <= MARGIN ==>
      !literal && ip == ii && ip + MARGIN >= base + len && op <= op0 + ti0 + 10 + len / 255
    ensures Squeezed(src, base, len, op0, ti0, table, literal, ip, ii, 0, op)
  {}

  lemma SqueezedNot(src: Bytes, base: nat, len: nat, op0: nat, ti0: nat, table: seq<nat>, literal: bool, ip: nat,
                    ii: nat, ti: nat, op: nat)
    requires !(Uniform(src) && ti0 <= MARGIN)
    ensures Squeezed(src, base, len, op0, ti0, table, literal, ip, ii, ti, op)
  {}

  /** `EmitSequence`, and how the scan stands behind the match. */
  method TakeMatch(src: Bytes, out: array<byte>, op0: nat, anchor: nat, ip0: nat, cand: nat, ipEnd: nat,
                   ghost xs: seq<Sequence>,
                   ghost base: nat, hash: Bytes -> nat, ghost table: seq<nat>, ghost entered: set<nat>, ghost xs0: seq<Sequence>)
    returns (op: nat, ip: nat, ghost xs': seq<Sequence>)
    requires Bound(|src|) <= out.Length && op0 <= out.Length && Encoded(src, out[..op0], xs, anchor)
    requires anchor <= ip0 < ipEnd && ipEnd + MARGIN <= |src| && (xs == [] ==> ip0 >= anchor + 4)
    requires base <= cand < ip0 <= cand + M4_MAX_OFFSET && Repeats(src, ip0, ip0 + 4, ip0 - cand)
    requires Follows(src, ChunkFinder(base, hash), table, xs, entered, ip0) && Agree(xs0, xs, base)
    modifies out
    ensures op <= out.Length && Encoded(src, out[..op], xs', ip) && xs' != []
    ensures ip0 + 4 <= ip <= ipEnd + MARGIN && (ip < ipEnd ==> src[ip] != src[ip - (ip0 - cand)])
    ensures Codable(ip0 - cand, ip - ip0) && op == op0 + |RunBytes(src[anchor..ip0])| + |Match(ip0 - cand, ip - ip0, 0)|
    ensures Scanned(src, ChunkFinder(base, hash), table, xs', entered + {ip0}, ip) && Agree(xs0, xs', base)
  {
    hide Encoded, Repeats, Scanned, Agree, Codable, RunBytes, Match, Bound;
    EncodedIs(src, out[..op0], xs, anchor);
    op, ip, xs' := EmitSequence(src, out, op0, anchor, ip0, cand, ipEnd, xs);
    AgreeMore(xs0, xs, Sequence(src[anchor..ip0], ip0 - cand, ip - ip0), base);
  }

  /** One position looked up: a match is written, or one more literal passed. */
  method Turn(src: Bytes, base: nat, len: nat, out: array<byte>, op0: nat, ip0: nat, ii0: nat, ti0: nat, dict: array<nat>,
              hash: Bytes -> nat, ghost first: seq<Sequence>, ghost firstOp: nat, ghost firstTi: nat,
              ghost xs0: seq<Sequence>, ghost entered0: set<nat>)
    returns (literal: bool, op: nat, ip: nat, ii: nat, ti: nat, ghost xs: seq<Sequence>, ghost entered: set<nat>)
    requires MARGIN < len <= CHUNK && base + len <= |src| && Bound(|src|) <= out.Length && InTable(hash, dict.Length)
    requires base <= ii0 <= ip0 && base < ip0 && ip0 + MARGIN < base + len && ti0 <= ii0 && (ti0 > 0 ==> ii0 == base)
    requires op0 <= out.Length && Encoded(src, out[..op0], xs0, ii0 - ti0) && (xs0 == [] ==> ip0 + ti0 >= ii0 + 4)
    requires Below(dict[..], ip0 - base) && Scanned(src, ChunkFinder(base, hash), dict[..], xs0, entered0, ip0) && Agree(first, xs0, base)
    requires Uniform(src) && firstTi <= MARGIN ==>
      Below(dict[..], 1) && ii0 == base && ti0 == firstTi <= base && op0 == firstOp && ip0 == base + 1 + (if firstTi < 4 then 4 - firstTi else 0)
    modifies out, dict
    ensures ip0 <= ip && (literal ==> ip == ip0) && (!literal ==> ip0 + 4 <= ip) && ip <= base + len
    ensures base <= ii <= ip && ti <= ii && (ti > 0 ==> ii == base) && ii <= base + len
    ensures op <= out.Length && Encoded(src, out[..op], xs, ii - ti) && (xs == [] ==> literal && ip + ti >= ii + 4)
    ensures Below(dict[..], ip0 - base + 1) && Agree(first, xs, base)
    ensures Scanned(src, ChunkFinder(base, hash), dict[..], xs, entered, if literal then ip + 1 else ip)
    ensures Squeezed(src, base, len, firstOp, firstTi, dict[..], literal, ip, ii, ti, op)
  {
    hide Encoded, Below, InTable, Repeats, Bound, Same4, Scanned, Agree, Follows, Uniform, Codable, RunBytes, Match,
      ChunkFinder, AllLong, Span, Squeezed;
    var same, cand := Probe(src, base, ip0, dict, hash, xs0, entered0);
    op, ip, ii, ti, literal, xs, entered := op0, ip0, ii0, ti0, true, xs0, entered0 + {ip0};
    if !same {
      if Uniform(src) { UniformSame(src, cand, ip); }
      SqueezedNot(src, base, len, firstOp, firstTi, dict[..], literal, ip, ii, ti, op);
      return;
    }
    FourRepeat(src, cand, ip);
    ii, ti := ii - ti, 0;
    op, ip, xs := TakeMatch(src, out, op, ii, ip, cand, base + len - MARGIN, xs, base, hash, dict[..], entered0, first);
    if Uniform(src) && firstTi <= MARGIN { SqueezedMatch(src, base, len, firstOp, firstTi, ip0, ip, op); }
    ii, literal := ip, false;
    SqueezedDone(src, base, len, firstOp, firstTi, dict[..], literal, ip, ii, op);
  }

  /** `lzo1x_1_compress_core`: one chunk, with `ti` literals left over from before it; how
      many are left over at its end.  No repetition is missed unless a hash collision hides it, and
      of equal bytes one match is made. */
  method Core(src: Bytes, base: nat, len: nat, out: array<byte>, op0: nat, ti0: nat, dict: array<nat>, hash: Bytes -> nat,
              ghost xs0: seq<Sequence>)
    returns (op: nat, t: nat, ghost xs: seq<Sequence>)
    requires MARGIN < len <= CHUNK && base + len <= |src| && ti0 <= base && Bound(|src|) <= out.Length
    requires op0 <= out.Length && Encoded(src, out[..op0], xs0, base - ti0)
    requires InTable(hash, dict.Length) && Below(dict[..], 1)
    modifies out, dict
    ensures op <= out.Length && t <= base + len && Encoded(src, out[..op], xs, base + len - t)
    ensures Agree(xs0, xs, base) && NothingMissed(src, ChunkFinder(base, hash), xs, base + len - MARGIN)
    ensures Uniform(src) && ti0 <= MARGIN ==>
      (t <= MARGIN && op <= op0 + ti0 + 10 + len / 255) || (len <= MARGIN + 5 && t == ti0 + len && op == op0)
  {
    hide Encoded, Below, InTable, Repeats, Bound, Same4, Scanned, Steps, Agree, NothingMissed, Uniform, ChunkFinder,
      AllLong, Span;
    var ipEnd := base + len - MARGIN;
    var ip: nat, ii: nat, ti: nat := base, base, ti0;
    ghost var reach: nat, entered: set<nat> := 1, {};
    op, xs := op0, xs0;
    ip := ip + if ti < 4 then 4 - ti else 0;
    var literal := true;
    EncodedIs(src, out[..op], xs, base - ti0);
    FirstOf(src, base, hash, dict[..], xs, ti0);
    assert Squeezed(src, base, len, op0, ti0, dict[..], literal, ip, ii, ti, op);
    hide Squeezed;
    while true
      invariant base <= ii <= ip && ip <= ipEnd + MARGIN && ti <= ii && ip - base < 0x1_0000 && ii <= base + len
      invariant Below(dict[..], reach) && reach <= if literal then ip - base + 1 else ip - base
      invariant op <= out.Length && Encoded(src, out[..op], xs, ii - ti)
      invariant xs == [] ==> literal && ip + ti >= ii + 4
      invariant literal || base < ip
      invariant Scanned(src, ChunkFinder(base, hash), dict[..], xs, entered, if literal then ip + 1 else ip)
      invariant Agree(xs0, xs, base) && (ti > 0 ==> ii == base)
      invariant Squeezed(src, base, len, op0, ti0, dict[..], literal, ip, ii, ti, op)
      decreases ipEnd + MARGIN - ip, !literal
    {
      ghost var was := ip;
      EncodedIs(src, out[..op], xs, ii - ti);
      StepOn(base, hash, xs, literal, ip, ii, ti);
      if literal {
        ip := ip + 1 + (ip - ii) / 32;
      }
      Skip(src, ChunkFinder(base, hash), dict[..], xs, entered, if literal then was + 1 else was, ip);
      if ip >= ipEnd {
        SqueezedEnd(src, base, len, op0, ti0, dict[..], literal, was, ii, ti, op);
        ScanEnd(src, ChunkFinder(base, hash), dict[..], xs, entered, ip, ipEnd);
        break;
      }
      if Uniform(src) && ti0 <= MARGIN { SqueezedProbe(src, base, len, op0, ti0, dict[..], literal, was, ii, ti, op); }
      BelowMore(dict[..], reach, ip - base);
      reach := ip - base + 1;
      literal, op, ip, ii, ti, xs, entered := Turn(src, base, len, out, op, ip, ii, ti, dict, hash, xs0, op0, ti0, xs, entered);
    }
    t := base + len - (ii - ti);
  }

  method ClearDict(dict: array<nat>)
    modifies dict
    ensures Below(dict[..], 1)
  {
    forall k | 0 <= k < dict.Length {
      dict[k] := 0;
    }
  }

  // ---------- the whole stream ----------

  /** The block is a stream that stands for `src`. */
  ghost predicate StreamOf(block: Bytes, src: Bytes, xs: seq<Sequence>) {
    && AllCodable(xs) && Starts(xs) && Span(xs) <= |src| && Parses(src, xs, Span(xs), RULES)
    && block == Stream(xs, src[Span(xs)..])
  }

  /** What announces the last literals. */
  method EmitLastHead(out: array<byte>, op0: nat, t: nat) returns (op: nat)
    requires t > 0 && op0 + 2 + t / 255 + 3 <= out.Length && LowClear(out[..op0]) && op0 != 1
    modifies out
    ensures op <= out.Length && op <= op0 + 2 + t / 255
    ensures LastHead(old(out[..op0]), t, out[..op])
  {
    ghost var before := out[..op0];
    op := op0;
    if op == 0 && t <= 238 {
      out[op] := 17 + t;
      op := op + 1;
    } else if t <= 3 {
      out[op - 2] := out[op - 2] + t;
    } else if t <= 18 {
      out[op] := t - 3;
      op := op + 1;
      assert out[..op] == before + [t - 3];
    } else {
      op := EmitLongHead(out, op, t);
    }
  }

  /** The last literals behind what is written: a short stream without matches has a form of
      its own. */
  ghost predicate Completed(written: Bytes, last: Bytes, body: Bytes)
    requires LowClear(written)
  {
    body == if written == [] && 0 < |last| <= 238 then [17 + |last|] + last
            else Patched(written, Small(last)) + RunBytes(last)
  }

  /** The literals after the last match. */
  method EmitLast(src: Bytes, out: array<byte>, op0: nat, t: nat) returns (op: nat)
    requires t <= |src| && Bound(|src|) <= out.Length && op0 + 2 + t / 255 + t + 3 <= out.Length
    requires LowClear(out[..op0]) && op0 != 1
    modifies out
    ensures op + 3 <= out.Length
    ensures Completed(old(out[..op0]), src[|src| - t..], out[..op])
  {
    ghost var before, last := out[..op0], src[|src| - t..];
    if t == 0 {
      PatchedNone(before);
      assert before + [] == before;
      return op0;
    }
    op := EmitLastHead(out, op0, t);
    ghost var now, head := out[..], out[..op];
    hide LastHead;
    CopyN(out, op, src, |src| - t, t);
    Copied(now, out[..], op, src, |src| - t, t);
    op := op + t;
    hide *;
    LastWritten(before, head, last, out[..op]);
  }

  ghost predicate LastHead(before: Bytes, t: nat, head: Bytes) {
    if before == [] && t <= 238 then head == [17 + t]
    else if t <= 3 then |before| >= 2 && before[|before| - 2] + t < 256 && head == before[|before| - 2 := before[|before| - 2] + t]
    else head == before + RunHead(t)
  }

  lemma LastWritten(before: Bytes, head: Bytes, last: Bytes, after: Bytes)
    requires LowClear(before) && |last| > 0 && after == head + last
    requires LastHead(before, |last|, head)
    ensures after == if before == [] && |last| <= 238 then [17 + |last|] + last
                     else Patched(before, Small(last)) + RunBytes(last)
  {
    if !(before == [] && |last| <= 238) && |last| > 3 {
      PatchedNone(before);
      assert before + RunHead(|last|) + last == before + (RunHead(|last|) + last);
    }
  }

  method EmitEnd(out: array<byte>, op0: nat) returns (op: nat)
    requires op0 + 3 <= out.Length
    modifies out
    ensures op == op0 + 3 && out[..op] == old(out[..op0]) + END
  {
    out[op0], out[op0 + 1], out[op0 + 2] := M4_MARKER + 1, 0, 0;
    op := op0 + 3;
  }

  // ---------- chunk by chunk ----------

  /** Where the search of a chunk ends. */
  function SearchEnd(n: nat, c: nat): nat {
    var end := if (c + 1) * CHUNK <= n then (c + 1) * CHUNK else n;
    if end < MARGIN then 0 else end - MARGIN
  }

  /** In the c-th chunk no repetition is missed. */
  ghost predicate ChunkDone(src: Bytes, hash: Bytes -> nat, xs: seq<Sequence>, c: nat) {
    NothingMissed(src, ChunkFinder(c * CHUNK, hash), xs, SearchEnd(|src|, c))
  }

  ghost predicate ChunksDone(src: Bytes, hash: Bytes -> nat, xs: seq<Sequence>, k: nat) {
    forall c: nat :: c < k ==> ChunkDone(src, hash, xs, c)
  }

  lemma ChunksMore(src: Bytes, hash: Bytes -> nat, xs: seq<Sequence>, xs': seq<Sequence>, k: nat, len: nat)
    requires ChunksDone(src, hash, xs, k) && Agree(xs, xs', k * CHUNK)
    requires MARGIN < len <= CHUNK && k * CHUNK + len <= |src| && (len < CHUNK ==> k * CHUNK + len == |src|)
    requires NothingMissed(src, ChunkFinder(k * CHUNK, hash), xs', k * CHUNK + len - MARGIN)
    ensures ChunksDone(src, hash, xs', k + 1)
  {
    hide NothingMissed, Agree, ChunkFinder;
    forall c: nat | c < k + 1 ensures ChunkDone(src, hash, xs', c) {
      if c < k {
        assert ChunkDone(src, hash, xs, c);
        AgreeLess(xs, xs', k * CHUNK, SearchEnd(|src|, c));
        StillNothing(src, ChunkFinder(c * CHUNK, hash), xs, xs', SearchEnd(|src|, c));
      } else {
        assert SearchEnd(|src|, c) == k * CHUNK + len - MARGIN;
      }
    }
  }

  lemma AgreeLess(xs: seq<Sequence>, ys: seq<Sequence>, limit: nat, less: nat)
    requires Agree(xs, ys, limit) && less <= limit
    ensures Agree(xs, ys, less)
  {}

  /** How much is written for `k` chunks of equal bytes. */
  ghost predicate Tight(src: Bytes, k: nat, ip: nat, t: nat, op: nat) {
    Uniform(src) ==>
      || (t <= MARGIN && op <= 30 * k + ip / 255 - (if k > 0 then MARGIN else t))
      || (ip == |src| && k > 0 && t <= MARGIN + 25 && op + t <= 30 * k + ip / 255)
  }

  lemma TightStep(src: Bytes, k: nat, ip: nat, len: nat, t: nat, op: nat, t': nat, op': nat)
    requires Tight(src, k, ip, t, op) && MARGIN < len && ip + len <= |src| && (len < CHUNK ==> ip + len == |src|)
    requires Uniform(src) && t <= MARGIN ==>
      (t' <= MARGIN && op' <= op + t + 10 + len / 255) || (len <= MARGIN + 5 && t' == t + len && op' == op)
    ensures Tight(src, k + 1, ip + len, t', op')
  {
    assert ip / 255 + len / 255 <= (ip + len) / 255;
  }

  /** What `n` equal bytes are compressed to, at most. */
  function UniformBound(n: nat): nat {
    30 * (n / CHUNK) + 40 + n / 255
  }

  lemma TightEnd(src: Bytes, k: nat, ip: nat, t: nat, op: nat, outLen: nat)
    requires Tight(src, k, ip, t, op) && Uniform(src) && ip <= |src| && (k == 0 ==> ip == t == 0)
    requires if ip == |src| then |src| > (k - 1) * CHUNK else ip == k * CHUNK && (|src| - ip <= MARGIN || t + (|src| - ip) < 32)
    requires t + (|src| - ip) <= 273 ==> outLen <= op + t + (|src| - ip) + 5
    ensures outLen <= UniformBound(|src|)
  {
    if ip == |src| {
      assert k <= |src| / CHUNK + 1;
    } else {
      assert k <= |src| / CHUNK;
    }
  }

  /** `lzo1x_1_compress`: the block stands for the input; in no chunk a repetition is missed; and
      equal bytes take next to no room. */
  method Compress(src: Bytes, out: array<byte>, dict: array<nat>, hash: Bytes -> nat) returns (outLen: nat,
                  ghost xs: seq<Sequence>)
    requires Bound(|src|) <= out.Length && InTable(hash, dict.Length)
    modifies out, dict
    ensures outLen <= Bound(|src|) && StreamOf(out[..outLen], src, xs)
    ensures forall c: nat :: c * CHUNK + 32 <= |src| ==> ChunkDone(src, hash, xs, c)
    ensures Uniform(src) ==> outLen <= UniformBound(|src|)
  {
    hide Encoded, Below, InTable, Bound, StreamOf, LowClear, Patched, RunBytes, Small, ChunksDone, Agree,
      NothingMissed, ChunkFinder, Uniform;
    var ip: nat, op: nat, l: nat, t: nat := 0, 0, |src|, 0;
    xs := [];
    ghost var k: nat := 0;
    EncodedStart(src, out[..0]);
    NoChunks(src, hash);
    while l > MARGIN
      invariant ip + l == |src| && t <= ip && op <= out.Length && Encoded(src, out[..op], xs, ip - t)
      invariant ChunksDone(src, hash, xs, k) && (if l == 0 then (k - 1) * CHUNK < |src| <= k * CHUNK || k == 0 else ip == k * CHUNK)
      invariant Tight(src, k, ip, t, op) && (k == 0 ==> ip == t == 0)
    {
      var ll := if l < CHUNK then l else CHUNK;
      if (t + ll) / 32 == 0 {  // also true if the sum overflows an address, which is not modelled
        break;
      }
      ClearDict(dict);
      ghost var was, t0, op0 := xs, t, op;
      op, t, xs := Core(src, ip, ll, out, op, t, dict, hash, xs);
      ChunksMore(src, hash, was, xs, k, ll);
      TightStep(src, k, ip, ll, t0, op0, t, op);
      ip, l, k := ip + ll, l - ll, k + 1;
    }
    outLen := Finish(src, out, op, t + l, xs);
    if Uniform(src) { TightEnd(src, k, ip, t, op, outLen); }
    AllChunks(src, hash, xs, k);
  }

  lemma NoChunks(src: Bytes, hash: Bytes -> nat)
    ensures ChunksDone(src, hash, [], 0)
  {}

  lemma AllChunks(src: Bytes, hash: Bytes -> nat, xs: seq<Sequence>, k: nat)
    requires ChunksDone(src, hash, xs, k) && k * CHUNK + 32 > |src|
    ensures forall c: nat :: c * CHUNK + 32 <= |src| ==> ChunkDone(src, hash, xs, c)
  {}

  /** The literals left over and the end marker. */
  method Finish(src: Bytes, out: array<byte>, op0: nat, t: nat, ghost xs: seq<Sequence>) returns (outLen: nat)
    requires Bound(|src|) <= out.Length && op0 <= out.Length && t <= |src| && Encoded(src, out[..op0], xs, |src| - t)
    modifies out
    ensures outLen <= Bound(|src|) && StreamOf(out[..outLen], src, xs)
    ensures t <= 273 ==> outLen <= op0 + t + 5
  {
    hide Encoded, Bound, StreamOf, LowClear, Completed, Middle, AllCodable;
    ghost var written := out[..op0];
    EncodedView(src, written, xs, |src| - t);
    RoomForLast(|src|, op0, t);
    var op := EmitLast(src, out, op0, t);
    ghost var body := out[..op];
    CompletedSize(written, src[|src| - t..], body);
    outLen := EmitEnd(out, op);
    StreamDone(src, written, xs, |src| - t, body, out[..outLen]);
  }

  lemma CompletedSize(written: Bytes, last: Bytes, body: Bytes)
    requires LowClear(written) && Completed(written, last, body)
    ensures |last| <= 273 ==> |body| <= |written| + |last| + 2
  {
    RunSize(last);
  }

  lemma EncodedStart(src: Bytes, w: Bytes)
    requires w == []
    ensures Encoded(src, w, [], 0)
  {
    assert src[..0] == [];
  }

  lemma RoomForLast(n: nat, op: nat, t: nat)
    requires t <= n && 16 * op <= 17 * (n - t)
    ensures op + 2 + t / 255 + t + 3 <= Bound(n)
  {}

  lemma StreamDone(src: Bytes, written: Bytes, xs: seq<Sequence>, anchor: nat, body: Bytes, block: Bytes)
    requires Encoded(src, written, xs, anchor) && LowClear(written) && anchor <= |src| && block == body + END
    requires Completed(written, src[anchor..], body)
    ensures |block| <= Bound(|src|) && StreamOf(block, src, xs)
  {
    hide Middle, RunBytes, Patched, LowClear, AllCodable, Small, Bound, Parses, Starts;
    var last := src[anchor..];
    EncodedView(src, written, xs, anchor);
    StreamSize(xs, last);
    MiddlePatch(xs, Small(last));
    var m, r := Middle(xs, Small(last)), RunBytes(last);
    assert m + r + END == m + (r + END);
  }
}
