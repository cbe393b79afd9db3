/**
 Snappy's compressor: blocks of 64 KiB, a hash table of 16-bit positions, and copies split
 so that no piece is shorter than four bytes.
 */
module SnappyCompress {
  import opened Powers
  import opened Lz77
  import opened Bits
  import opened SnappyFormat
  import opened SnappyStubs
  import opened Candidates

  const BLOCK := 65536  // kBlockSize
  const MARGIN := 15    // kInputMarginBytes

  // ---------- what is written, and what it decodes to ----------

  /** In front of anything, `w` takes the decoder from output `o` to output `o'`. */
  ghost predicate Yields(w: Bytes, o: Bytes, o': Bytes) {
    forall rest: Bytes, expected: nat :: |o'| <= expected ==> Decode(w + rest, o, expected) == Decode(rest, o', expected)
  }

  lemma YieldsNothing(o: Bytes)
    ensures Yields([], o, o)
  {
    forall rest: Bytes, expected: nat | |o| <= expected ensures Decode([] + rest, o, expected) == Decode(rest, o, expected) {
      assert [] + rest == rest;
    }
  }

  lemma YieldsBoth(w: Bytes, w': Bytes, o: Bytes, o': Bytes, o'': Bytes)
    requires Yields(w, o, o') && Yields(w', o', o'') && |o'| <= |o''|
    ensures Yields(w + w', o, o'')
  {
    forall rest: Bytes, expected: nat | |o''| <= expected
      ensures Decode(w + w' + rest, o, expected) == Decode(rest, o'', expected)
    {
      assert w + w' + rest == w + (w' + rest);
      assert Decode(w + (w' + rest), o, expected) == Decode(w' + rest, o', expected);
    }
  }

  lemma YieldsAll(w: Bytes, src: Bytes)
    requires Yields(w, [], src)
    ensures Decode(w, [], |src|) == Accept(src)
  {
    assert w + [] == w;
    assert Decode(w + [], [], |src|) == Decode([], src, |src|);
  }

  // ---------- literals ----------

  function ByteCount(n: nat): (r: nat)
    requires n < TWO32
    ensures 1 <= r <= 4
  {
    if n < 256 then 1 else if n < 65536 then 2 else if n < 16777216 then 3 else 4
  }

  ghost function LiteralHead(n: nat): Bytes
    requires n < TWO32
  {
    if n < 60 then [n * 4] else [(59 + ByteCount(n)) * 4] + LittleEndian(n, ByteCount(n))
  }

  ghost function LiteralBytes(data: Bytes): Bytes
    requires 1 <= |data| < TWO32
  {
    LiteralHead(|data| - 1) + data
  }

  lemma Limits()
    ensures Limit(1) == 256 && Limit(2) == 65536 && Limit(3) == 16777216 && Limit(4) == TWO32
  {
    assert Limit(2) == 256 * Limit(1);
    assert Limit(3) == 256 * Limit(2);
    assert Limit(4) == 256 * Limit(3);
  }

  lemma LiteralYields(data: Bytes, o: Bytes)
    requires 1 <= |data| < TWO32
    ensures Yields(LiteralBytes(data), o, o + data)
  {
    var n := |data| - 1;
    var w := LiteralBytes(data);
    Limits();
    if n >= 60 { NumberRead(n, ByteCount(n)); }
    forall rest: Bytes, expected: nat | |o + data| <= expected
      ensures Decode(w + rest, o, expected) == Decode(rest, o + data, expected)
    {
      var h := LiteralHead(n);
      LiteralTag(n);
      assert w + rest == h + (data + rest);
      TagDecodes(h, data + rest, o, expected);
      assert (data + rest)[..|data|] == data && (data + rest)[|data|..] == rest;
    }
  }

  /** The tag of a literal says its length. */
  lemma LiteralTag(n: nat)
    requires n < TWO32
    ensures var h := LiteralHead(n);
      && |h| == 1 + Extra(h[0]) && h[0] % 4 == 0 && LiteralLength(h[0], Number(h[1..])) == (if n + 1 == TWO32 && n >= 60 then 0 else n + 1)
  {
    Limits();
    if n >= 60 {
      NumberRead(n, ByteCount(n));
      assert LiteralHead(n)[1..] == LittleEndian(n, ByteCount(n));
    }
  }

  /** A tag in front of the rest. */
  lemma TagDecodes(h: Bytes, rest: Bytes, o: Bytes, expected: nat)
    requires |h| > 0 && |h| == 1 + Extra(h[0])
    ensures var arg := Number(h[1..]); var offset, len := CopyOffset(h[0], arg), CopyLength(h[0]);
      Decode(h + rest, o, expected) ==
        if h[0] % 4 == 0 then Literal(rest, LiteralLength(h[0], arg), o, expected)
        else if offset == 0 || offset > |o| || |o| + len > expected then Reject
        else Decode(rest, MatchCopy(o, offset, len), expected)
  {
    var s := h + rest;
    assert s[0] == h[0] && s[1..|h|] == h[1..] && s[|h|..] == rest;
  }

  // ---------- copies ----------

  ghost predicate Copyable(offset: nat, len: nat) {
    1 <= offset < 65536 && 4 <= len
  }

  ghost function ShortCopy(offset: nat, len: nat): Bytes
    requires Copyable(offset, len) && len <= 64
  {
    if len < 12 && offset < 2048 then [1 + (len - 4) * 4 + offset / 256 * 32, offset % 256]
    else [2 + (len - 1) * 4, offset % 256, offset / 256]
  }

  /** Pieces of 64 bytes, and at the end one or two that are no shorter than four. */
  ghost function CopyBytes(offset: nat, len: nat): Bytes
    requires Copyable(offset, len)
  {
    if len >= 68 then ShortCopy(offset, 64) + CopyBytes(offset, len - 64)
    else if len > 64 then ShortCopy(offset, 60) + ShortCopy(offset, len - 60)
    else ShortCopy(offset, len)
  }

  lemma ShortCopyTag(offset: nat, len: nat)
    requires Copyable(offset, len) && len <= 64
    ensures var h := ShortCopy(offset, len);
      |h| == 1 + Extra(h[0]) && h[0] % 4 != 0 && CopyOffset(h[0], Number(h[1..])) == offset && CopyLength(h[0]) == len
  {
    var h := ShortCopy(offset, len);
    if len < 12 && offset < 2048 {
      assert h[1..] == [offset % 256];
      assert Number([offset % 256]) == offset % 256 + 256 * Number([]);
    } else {
      assert h[1..] == [offset % 256, offset / 256];
      assert h[1..][1..] == [offset / 256];
      assert Number([offset / 256]) == offset / 256 + 256 * Number([]);
    }
  }

  lemma ShortCopyYields(offset: nat, len: nat, o: Bytes)
    requires Copyable(offset, len) && len <= 64 && offset <= |o|
    ensures Yields(ShortCopy(offset, len), o, MatchCopy(o, offset, len))
  {
    var h := ShortCopy(offset, len);
    ShortCopyTag(offset, len);
    forall rest: Bytes, expected: nat | |MatchCopy(o, offset, len)| <= expected
      ensures Decode(h + rest, o, expected) == Decode(rest, MatchCopy(o, offset, len), expected)
    {
      TagDecodes(h, rest, o, expected);
    }
  }

  lemma {:induction false} CopySplit(o: Bytes, offset: nat, a: nat, b: nat)
    requires offset <= |o|
    ensures MatchCopy(o, offset, a + b) == MatchCopy(MatchCopy(o, offset, a), offset, b)
    decreases a
  {
    if a > 0 { CopySplit(o + [Back(o, offset)], offset, a - 1, b); }
  }

  lemma {:induction false} CopyYields(offset: nat, len: nat, o: Bytes)
    requires Copyable(offset, len) && offset <= |o|
    ensures Yields(CopyBytes(offset, len), o, MatchCopy(o, offset, len))
  {
    hide Yields, MatchCopy, ShortCopy;
    if len > 64 {
      var a := if len >= 68 then 64 else 60;
      var o' := MatchCopy(o, offset, a);
      ShortCopyYields(offset, a, o);
      CopyYields(offset, len - a, o');
      CopySplit(o, offset, a, len - a);
      YieldsBoth(ShortCopy(offset, a), CopyBytes(offset, len - a), o, o', MatchCopy(o, offset, len));
    } else {
      ShortCopyYields(offset, len, o);
    }
  }

  // ---------- sizes ----------

  lemma LiteralSize(data: Bytes)
    requires 1 <= |data| <= BLOCK
    ensures |LiteralBytes(data)| <= |data| + (if |data| <= 60 then 1 else 3)
    ensures 120 * |LiteralBytes(data)| <= 139 * |data| + 120
  {}

  lemma {:induction false} CopySize(offset: nat, len: nat)
    requires Copyable(offset, len)
    ensures 120 * |CopyBytes(offset, len)| <= 139 * len - 196
  {
    if len >= 68 { CopySize(offset, len - 64); }
  }

  // ---------- emitting ----------

  method CopyBytesIn(dst: array<byte>, op: nat, src: Bytes, from: nat, n: nat)
    requires from + n <= |src| && op + n <= dst.Length
    modifies dst
    ensures forall k :: op <= k < op + n ==> dst[k] == src[from + (k - op)]
    ensures forall k :: 0 <= k < op ==> dst[k] == old(dst[k])
  {
    forall k | op <= k < op + n {
      dst[k] := src[from + (k - op)];
    }
  }

  method EmitLiteral(dst: array<byte>, op0: nat, src: Bytes, from: nat, len: nat, allowFastPath: bool) returns (op: nat)
    requires 1 <= len <= BLOCK && from + len <= |src| && op0 + len + 3 <= dst.Length
    requires allowFastPath ==> from + 16 <= |src| && op0 + 17 <= dst.Length
    modifies dst
    ensures op == op0 + |LiteralBytes(src[from..from + len])| && op <= dst.Length
    ensures dst[..op] == old(dst[..op0]) + LiteralBytes(src[from..from + len])
  {
    hide LiteralHead;
    ghost var before := dst[..op0];
    var n := len - 1;
    if allowFastPath && len <= 16 {
      TagOnly(n);
      op := EmitTag(dst, op0, n * 4);
      op := CopyLiteral(dst, op, src, from, len, 16, before, LiteralHead(n));
      return;
    }
    if n < 60 {
      TagOnly(n);
      op := EmitTag(dst, op0, n * 4);
    } else {
      op := EmitLength(dst, op0, n);
    }
    assert dst[..op] == before + LiteralHead(n);
    op := CopyLiteral(dst, op, src, from, len, len, before, LiteralHead(n));
  }

  lemma TagOnly(n: nat)
    requires n < 60
    ensures LiteralHead(n) == [n * 4]
  {}

  method EmitTag(dst: array<byte>, op0: nat, tag: byte) returns (op: nat)
    requires op0 < dst.Length
    modifies dst
    ensures op == op0 + 1 && dst[..op] == old(dst[..op0]) + [tag]
  {
    dst[op0] := tag;
    op := op0 + 1;
  }

  /** The data behind the head; `copied` bytes are stored, of which `len` count. */
  method CopyLiteral(dst: array<byte>, op0: nat, src: Bytes, from: nat, len: nat, copied: nat, ghost before: Bytes,
                     ghost head: Bytes)
    returns (op: nat)
    requires len <= copied && from + copied <= |src| && op0 + copied <= dst.Length && dst[..op0] == before + head
    modifies dst
    ensures op == op0 + len && dst[..op] == before + (head + src[from..from + len])
  {
    CopyBytesIn(dst, op0, src, from, copied);
    op := op0 + len;
    assert dst[op0..op] == src[from..from + len];
    assert dst[..op] == dst[..op0] + dst[op0..op];
  }

  /** A literal length beyond the tag byte. */
  method EmitLength(dst: array<byte>, op0: nat, n0: nat) returns (op: nat)
    requires 60 <= n0 < BLOCK && op0 + 3 <= dst.Length
    modifies dst
    ensures op == op0 + |LiteralHead(n0)| <= op0 + 3 && dst[..op] == old(dst[..op0]) + LiteralHead(n0)
  {
    ghost var before := dst[..op0];
    var n, count := n0, 0;
    op := op0 + 1;
    while n > 0
      invariant op == op0 + 1 + count && count <= 2 && 0 <= n && dst[..op0] == before
      invariant if count == 0 then n == n0 else if count == 1 then n == n0 / 256 && n < 256 else n == 0 && n0 >= 256
      invariant count >= 1 ==> dst[op0 + 1] == n0 % 256
      invariant count >= 2 ==> dst[op0 + 2] == n0 / 256
      decreases n
    {
      dst[op] := n % 256;
      op := op + 1;
      n := n / 256;
      count := count + 1;
    }
    assert count == ByteCount(n0);
    dst[op0] := (59 + count) * 4;
    assert LittleEndian(n0, 1) == [n0 % 256];
    assert LittleEndian(n0, 2) == [n0 % 256] + LittleEndian(n0 / 256, 1);
    assert dst[..op] == before + LiteralHead(n0);
  }

  method EmitCopyAtMost64(dst: array<byte>, op0: nat, offset: nat, len: nat, lenLessThan12: bool) returns (op: nat)
    requires Copyable(offset, len) && len <= 64 && lenLessThan12 == (len < 12) && op0 + 4 <= dst.Length
    modifies dst
    ensures op == op0 + |ShortCopy(offset, len)| && dst[..op] == old(dst[..op0]) + ShortCopy(offset, len)
  {
    if lenLessThan12 && offset < 2048 {
      dst[op0] := 1 + (len - 4) * 4 + offset / 256 * 32;
      dst[op0 + 1] := offset % 256;
      op := op0 + 2;
    } else {
      dst[op0], dst[op0 + 1], dst[op0 + 2], dst[op0 + 3] := 2 + (len - 1) * 4, offset % 256, offset / 256, 0;
      op := op0 + 3;
    }
    assert dst[..op] == old(dst[..op0]) + ShortCopy(offset, len);
  }

  method EmitCopy(dst: array<byte>, op0: nat, offset: nat, len0: nat, lenLessThan12: bool) returns (op: nat)
    requires Copyable(offset, len0) && lenLessThan12 == (len0 < 12) && op0 + |CopyBytes(offset, len0)| + 2 <= dst.Length
    modifies dst
    ensures op == op0 + |CopyBytes(offset, len0)| && dst[..op] == old(dst[..op0]) + CopyBytes(offset, len0)
  {
    if lenLessThan12 {
      op := EmitCopyAtMost64(dst, op0, offset, len0, true);
      return;
    }
    ghost var before, all := dst[..op0], CopyBytes(offset, len0);
    var len := len0;
    op := op0;
    hide ShortCopy;
    while len >= 68
      invariant Copyable(offset, len) && op + |CopyBytes(offset, len)| == op0 + |all| && op0 <= op
      invariant dst[..op] + CopyBytes(offset, len) == before + all
    {
      ghost var was := dst[..op];
      PieceSizes(offset, len);
      op := EmitCopyAtMost64(dst, op, offset, 64, false);
      assert was + (ShortCopy(offset, 64) + CopyBytes(offset, len - 64)) == was + ShortCopy(offset, 64) + CopyBytes(offset, len - 64);
      len := len - 64;
    }
    PieceSizes(offset, len);
    if len > 64 {
      ghost var was := dst[..op];
      op := EmitCopyAtMost64(dst, op, offset, 60, false);
      assert was + (ShortCopy(offset, 60) + ShortCopy(offset, len - 60)) == was + ShortCopy(offset, 60) + ShortCopy(offset, len - 60);
      len := len - 60;
    }
    op := EmitCopyAtMost64(dst, op, offset, len, len < 12);
  }

  lemma PieceSizes(offset: nat, len: nat)
    requires Copyable(offset, len)
    ensures |CopyBytes(offset, len)| >= 2 && (len >= 68 ==> |CopyBytes(offset, len)| >= 5) && (len > 64 ==> |CopyBytes(offset, len)| >= 5)
  {}

  // ---------- matching ----------

  /** The longest match up to the limit, and whether it is shorter than eight. */
  method FindMatchLength(src: Bytes, s1: nat, s2: nat, limit: nat) returns (matched: nat, short: bool)
    requires s1 <= s2 <= limit <= |src|
    ensures s2 + matched <= limit && Repeats(src, s2, s2 + matched, s2 - s1) && (short <==> matched < 8)
    ensures s2 + matched < limit ==> src[s2 + matched] != src[s1 + matched]
  {
    hide Eight, Repeats;
    matched := 0;
    NoneRepeats(src, s2, s2 - s1);
    if s2 <= limit - 8 {
      if !Eight(src, s2, s1) {
        matched := NbCommonBytes(src, s2, s1);
        return matched, true;
      }
      SameEight(src, s2, s1);
      matched := 8;
    }
    while s2 + matched <= limit - 8
      invariant s2 + matched <= limit && Repeats(src, s2, s2 + matched, s2 - s1)
      invariant matched >= 8 || s2 + matched > limit - 8
      decreases limit - matched
    {
      if Eight(src, s2 + matched, s1 + matched) {
        SameEight(src, s2 + matched, s1 + matched);
        RepeatsOn(src, s2, s2 + matched, s2 + matched + 8, s2 - s1);
        matched := matched + 8;
      } else {
        var c := NbCommonBytes(src, s2 + matched, s1 + matched);
        RepeatsOn(src, s2, s2 + matched, s2 + matched + c, s2 - s1);
        return matched + c, false;
      }
    }
    matched := FinishMatch(src, s1, s2, limit, matched);
    short := matched < 8;
  }

  lemma NoneRepeats(src: Bytes, i: nat, off: nat)
    requires off <= i <= |src|
    ensures Repeats(src, i, i, off)
  {}

  /** The last few bytes one by one. */
  method FinishMatch(src: Bytes, s1: nat, s2: nat, limit: nat, matched0: nat) returns (matched: nat)
    requires s1 <= s2 && s2 + matched0 <= limit <= |src| && Repeats(src, s2, s2 + matched0, s2 - s1)
    ensures s2 + matched <= limit && Repeats(src, s2, s2 + matched, s2 - s1)
    ensures s2 + matched < limit ==> src[s2 + matched] != src[s1 + matched]
  {
    matched := matched0;
    while s2 + matched < limit && src[s1 + matched] == src[s2 + matched]
      invariant s2 + matched <= limit && Repeats(src, s2, s2 + matched, s2 - s1)
    {
      matched := matched + 1;
    }
  }

  // ---------- the hash table ----------

  /** The candidate for a position, whose place in the table it takes. */
  method Lookup(src: Bytes, base: nat, ip: nat, table: array<nat>, hash: Bytes -> nat, ghost reach: nat) returns (cand: nat)
    requires base < ip && ip + 4 <= |src| && ip - base < BLOCK && InTable(hash, table.Length)
    requires Below(table[..], reach) && reach <= ip - base
    modifies table
    ensures base <= cand < base + reach && Below(table[..], ip - base + 1) && (Below(old(table[..]), 1) ==> cand == base)
    ensures var h := hash(src[ip..ip + 4]);
      h < table.Length && cand == base + old(table[..])[h] && table[..] == old(table[..])[h := ip - base]
  {
    var h := hash(src[ip..ip + 4]);
    cand := base + table[h];
    Store(src, base, ip, table, hash, reach);
  }

  method Store(src: Bytes, base: nat, ip: nat, table: array<nat>, hash: Bytes -> nat, ghost reach: nat)
    requires base <= ip && ip + 4 <= |src| && ip - base < BLOCK && InTable(hash, table.Length)
    requires Below(table[..], reach) && reach <= ip - base + 1
    modifies table
    ensures Below(table[..], ip - base + 1)
    ensures var h := hash(src[ip..ip + 4]); h < table.Length && table[..] == old(table[..])[h := ip - base]
  {
    var h := hash(src[ip..ip + 4]);
    ghost var was := table[..];
    var entry: nat := (ip - base) % 0x1_0000;
    table[h] := entry;
    assert table[..] == was[h := entry];
  }

  /** How a block is searched, by positions within it. */
  function BlockFinder(hash: Bytes -> nat): Finder {
    Finder(0, 1, 32, 4, BLOCK, true, hash)
  }

  lemma InBlock(src: Bytes, base: nat, end: nat, s: Finder, p: nat)
    requires base <= p && p + 4 <= end <= |src| && s.key == 4
    ensures |src[base..end]| == end - base && Code(src[base..end], s, p - base) == s.hash(src[p..p + 4])
  {
    var block, i := src[base..end], p - base;
    var a, b := block[i..i + 4], src[p..p + 4];
    assert a[0] == block[i] && a[1] == block[i + 1] && a[2] == block[i + 2] && a[3] == block[i + 3];
    assert a == b;
  }

  lemma SameInBlock(src: Bytes, base: nat, end: nat, p: nat, q: nat)
    requires base <= p && p + 4 <= end && base <= q && q + 4 <= end <= |src|
    ensures Same4(src[base..end], p - base, q - base) <==> Same4(src, p, q)
  {}

  /** Look a position up and enter it. */
  method Probe(src: Bytes, base: nat, end: nat, ip: nat, table: array<nat>, hash: Bytes -> nat, ghost xs: seq<Sequence>,
               ghost entered: set<nat>)
    returns (same: bool, cand: nat)
    requires base < ip && ip + 4 <= end <= |src| && ip - base < BLOCK && InTable(hash, table.Length) && Below(table[..], ip - base)
    requires Scanned(src[base..end], BlockFinder(hash), table[..], xs, entered, ip - base)
    modifies table
    ensures base <= cand < ip && Below(table[..], ip - base + 1) && (Below(old(table[..]), 1) ==> cand == base)
    ensures same <==> Same4(src, cand, ip)
    ensures !same ==> Scanned(src[base..end], BlockFinder(hash), table[..], xs, entered + {ip - base}, ip - base + 1)
    ensures same ==> Follows(src[base..end], BlockFinder(hash), table[..], xs, entered, ip - base)
  {
    hide Scanned, Same4, InTable, Below, Follows;
    ghost var was, block, s := table[..], src[base..end], BlockFinder(hash);
    cand := Lookup(src, base, ip, table, hash, ip - base);
    same := Same4(src, cand, ip);
    InBlock(src, base, end, s, ip);
    if same {
      Followed(block, s, was, xs, entered, ip - base);
    } else {
      SameInBlock(src, base, end, cand, ip);
      NotEqual(block, s, cand - base, ip - base);
      ScanMiss(block, s, was, xs, entered, ip - base);
    }
  }

  /** The scan for a match, in steps that grow while none is found. */
  method Scan(src: Bytes, base: nat, end: nat, ip0: nat, ipLimit: nat, table: array<nat>, hash: Bytes -> nat,
              ghost xs: seq<Sequence>,
              ghost entered0: set<nat>)
    returns (found: bool, ip: nat, cand: nat, ghost entered: set<nat>)
    requires base < ip0 && ipLimit + MARGIN == end <= |src| && end <= base + BLOCK && ip0 <= ipLimit + 1
    requires InTable(hash, table.Length) && Below(table[..], ip0 - base)
    requires Scanned(src[base..end], BlockFinder(hash), table[..], xs, entered0, ip0 - base) && base + Span(xs) + 1 == ip0
    modifies table
    ensures found ==> ip0 <= ip < ipLimit && base <= cand < ip && Same4(src, cand, ip) && Below(table[..], ip - base + 1)
    ensures found ==> Follows(src[base..end], BlockFinder(hash), table[..], xs, entered, ip - base) && Before(entered, ip - base)
    ensures !found ==> NothingMissed(src[base..end], BlockFinder(hash), xs, ipLimit - base)
    ensures Uniform(src) && Below(old(table[..]), 1) && ip0 < ipLimit ==> found && ip == ip0 && cand == base
  {
    hide InTable, Below, Same4, Uniform, Scanned, Follows, Steps, NothingMissed, Before;
    ghost var alike := Uniform(src) && Below(table[..], 1) && ip0 < ipLimit;
    ghost var block, s := src[base..end], BlockFinder(hash);
    var skip: nat, nextIp: nat := 32, ip0;
    entered := entered0;
    while true
      invariant ip0 <= nextIp <= ipLimit + 1 && skip >= 32 && Below(table[..], nextIp - base)
      invariant if skip < 64 then nextIp == ip0 + (skip - 32) else nextIp >= ip0 + 32
      invariant Scanned(block, s, table[..], xs, entered, nextIp - base)
      invariant alike ==> nextIp == ip0 && skip == 32 && Below(table[..], 1)
      decreases ipLimit + 1 - nextIp
    {
      ip := nextIp;
      var between := skip / 32;
      skip := skip + between;
      nextIp := ip + between;
      BeforeNext(block, s, table[..], xs, entered, ip - base);
      if nextIp > ipLimit {
        Rest(block, s, table[..], xs, entered, ip - base, ipLimit - base);
        return false, 0, 0, entered;
      }
      var same;
      same, cand := Probe(src, base, end, ip, table, hash, xs, entered);
      if alike { UniformSame(src, cand, ip); }
      if same {
        return true, ip, cand, entered;
      }
      entered := entered + {ip - base};
      BelowMore(table[..], ip - base + 1, nextIp - base);
      Onward(xs, s, ip - base + 1, nextIp - base);
      Skip(block, s, table[..], xs, entered, ip - base + 1, nextIp - base);
    }
  }

  lemma BeforeNext(src: Bytes, s: Finder, table: seq<nat>, xs: seq<Sequence>, entered: set<nat>, upto: nat)
    requires Scanned(src, s, table, xs, entered, upto)
    ensures Before(entered, upto)
  {}

  lemma Onward(xs: seq<Sequence>, s: Finder, upto: nat, q: nat)
    requires s.base == 0 && s.width == 32 && Span(xs) < upto <= q && (q == upto || upto > Span(xs) + 32)
    ensures Steps(s, xs, upto, q)
  {}

  /** What is not looked up any more does not have to be. */
  lemma Rest(src: Bytes, s: Finder, table: seq<nat>, xs: seq<Sequence>, entered: set<nat>, upto: nat, limit: nat)
    requires Scanned(src, s, table, xs, entered, upto) && s.base == 0 && s.width == 32 && Span(xs) < upto
    requires limit <= upto || upto > Span(xs) + 32
    ensures NothingMissed(src, s, xs, limit)
  {
    hide Scanned, NothingMissed, Steps;
    if limit <= upto {
      ScanEnd(src, s, table, xs, entered, upto, limit);
    } else {
      Onward(xs, s, upto, limit);
      Skip(src, s, table, xs, entered, upto, limit);
      ScanEnd(src, s, table, xs, entered, limit, limit);
    }
  }

  // ---------- a block ----------

  ghost predicate Writable(xs: seq<Sequence>) {
    forall i :: 0 <= i < |xs| ==> Copyable(xs[i].offset, xs[i].len) && |xs[i].lits| <= BLOCK
  }

  /** Literals, if any, and a copy. */
  ghost function ElementBytes(x: Sequence): Bytes
    requires Copyable(x.offset, x.len) && |x.lits| <= BLOCK
  {
    (if x.lits == [] then [] else LiteralBytes(x.lits)) + CopyBytes(x.offset, x.len)
  }

  ghost function Packed(xs: seq<Sequence>): Bytes
    requires Writable(xs)
  {
    if xs == [] then [] else Packed(xs[..|xs| - 1]) + ElementBytes(xs[|xs| - 1])
  }

  lemma PackedMore(xs: seq<Sequence>, x: Sequence)
    requires Writable(xs) && Copyable(x.offset, x.len) && |x.lits| <= BLOCK
    ensures Writable(xs + [x]) && Packed(xs + [x]) == Packed(xs) + ElementBytes(x) && Span(xs + [x]) == Span(xs) + |x.lits| + x.len
  {
    assert (xs + [x])[..|xs|] == xs;
    SpanSnoc(xs, x);
  }

  /** `w`, written for the block at `base`, consists of `xs` and takes the decoder as far as `anchor`. */
  ghost predicate Progress(src: Bytes, base: nat, anchor: nat, w: Bytes, xs: seq<Sequence>) {
    && base <= anchor <= |src| && Yields(w, src[..base], src[..anchor]) && 120 * |w| <= 139 * (anchor - base)
    && Writable(xs) && w == Packed(xs) && Span(xs) == anchor - base
  }

  lemma ProgressStart(src: Bytes, base: nat)
    requires base <= |src|
    ensures Progress(src, base, base, [], [])
  {
    YieldsNothing(src[..base]);
  }

  lemma ProgressMatch(src: Bytes, base: nat, anchor: nat, w: Bytes, xs: seq<Sequence>, lit: Bytes, ip: nat,
                      offset: nat, len: nat, w': Bytes)
    requires Progress(src, base, anchor, w, xs) && anchor <= ip && ip + len <= |src| && offset <= ip && Copyable(offset, len)
    requires ip - anchor <= BLOCK && Repeats(src, ip, ip + len, offset)
    requires if ip == anchor then lit == [] else lit == LiteralBytes(src[anchor..ip])
    requires w' == w + lit + CopyBytes(offset, len)
    ensures Progress(src, base, ip + len, w', xs + [Sequence(src[anchor..ip], offset, len)])
  {
    hide Yields, LiteralBytes, CopyBytes, Repeats, Packed, Writable, Span;
    var o, m := src[..anchor], src[..ip];
    if ip > anchor {
      LiteralYields(src[anchor..ip], o);
      LiteralSize(src[anchor..ip]);
      assert o + src[anchor..ip] == m;
    } else {
      YieldsNothing(o);
    }
    CopyYields(offset, len, m);
    CopyRepeats(src, ip, ip + len, offset);
    CopySize(offset, len);
    YieldsBoth(w, lit, src[..base], o, m);
    YieldsBoth(w + lit, CopyBytes(offset, len), src[..base], m, src[..ip + len]);
    PackedMore(xs, Sequence(src[anchor..ip], offset, len));
    assert w + (lit + CopyBytes(offset, len)) == w';
  }

  /** What a block may take in the output, over-long stores included. */
  function Room(size: nat): nat {
    (139 * size + 120) / 120 + 20
  }

  /** One match, and the literals in front of it. */
  method EmitMatch(src: Bytes, base: nat, end: nat, dst: array<byte>, op0: nat, nextEmit: nat, ip0: nat, cand: nat,
                   ghost start: nat, ghost w: Bytes,
                   ghost xs: seq<Sequence>)
    returns (op: nat, ip: nat, ghost w': Bytes, ghost xs': seq<Sequence>)
    requires base <= nextEmit <= ip0 && ip0 + MARGIN < end <= |src| && end <= base + BLOCK && base <= cand < ip0 && Same4(src, cand, ip0)
    requires Progress(src, base, nextEmit, w, xs) && op0 == start + |w| && start + Room(end - base) <= dst.Length
    requires op0 <= dst.Length && dst[start..op0] == w
    modifies dst
    ensures ip0 + 4 <= ip <= end && Progress(src, base, ip, w', xs') && op == start + |w'| <= dst.Length
    ensures xs' == xs + [Sequence(src[nextEmit..ip0], ip0 - cand, ip - ip0)]
    ensures dst[..op] == old(dst[..start]) + w'
    ensures ip < end ==> src[ip] != src[ip - (ip0 - cand)]
    ensures ip0 == nextEmit + 1 ==> |w'| == |w| + 2 + |CopyBytes(ip0 - cand, ip - ip0)|
  {
    hide Progress, Same4, Repeats, LiteralBytes, CopyBytes, Packed, Writable, Span, AllLong, Copyable, Eight;
    ghost var before := dst[..start];
    assert dst[..op0] == before + w;
    ProgressView(src, base, nextEmit, w, xs);
    op := op0;
    ghost var lit: Bytes := [];
    if nextEmit < ip0 {
      lit := LiteralBytes(src[nextEmit..ip0]);
      LiteralSize(src[nextEmit..ip0]);
      op := EmitLiteral(dst, op, src, nextEmit, ip0 - nextEmit, true);
    }
    FourRepeat(src, cand, ip0);
    var more, short := FindMatchLength(src, cand + 4, ip0 + 4, end);
    var matched, offset := 4 + more, ip0 - cand;
    assert Copyable(offset, matched) by { CopyableIf(offset, matched); }
    CopySize(offset, matched);
    RepeatsJoin(src, ip0, ip0 + 4, ip0 + matched, offset);
    ghost var mid := dst[..op];
    op := EmitCopy(dst, op, offset, matched, short);
    ip := ip0 + matched;
    w' := w + lit + CopyBytes(offset, matched);
    xs' := xs + [Sequence(src[nextEmit..ip0], offset, matched)];
    ProgressMatch(src, base, nextEmit, w, xs, lit, ip0, offset, matched, w');
    OneLiteral(src[nextEmit..ip0]);
    Together(before, w, lit, CopyBytes(offset, matched), dst[..op]);
  }

  lemma CopyableIf(offset: nat, len: nat)
    requires 1 <= offset < 65536 && 4 <= len
    ensures Copyable(offset, len)
  {}

  lemma OneLiteral(data: Bytes)
    ensures |data| == 1 ==> |LiteralBytes(data)| == 2
  {}

  lemma Together(before: Bytes, w: Bytes, lit: Bytes, copy: Bytes, all: Bytes)
    requires all == before + w + lit + copy || (lit == [] && all == before + w + copy)
    ensures all == before + (w + lit + copy)
  {}

  lemma RepeatsJoin(s: Bytes, a: nat, b: nat, c: nat, off: nat)
    requires off <= a <= b <= c <= |s| && Repeats(s, a, b, off) && Repeats(s, b, c, off)
    ensures Repeats(s, a, c, off)
  {}

  lemma ProgressView(src: Bytes, base: nat, anchor: nat, w: Bytes, xs: seq<Sequence>)
    requires Progress(src, base, anchor, w, xs)
    ensures 120 * |w| <= 139 * (anchor - base) && Span(xs) == anchor - base && AllLong(xs) && Writable(xs) && w == Packed(xs)
  {}

  /** `EmitMatch`, and how the search stands behind it. */
  method TakeMatch(src: Bytes, base: nat, end: nat, dst: array<byte>, op0: nat, nextEmit: nat, ip0: nat, cand: nat,
                   ghost start: nat, ghost w: Bytes,
                   ghost xs: seq<Sequence>, hash: Bytes -> nat, ghost table: seq<nat>, ghost entered: set<nat>)
    returns (op: nat, ip: nat, ghost w': Bytes, ghost xs': seq<Sequence>)
    requires base <= nextEmit <= ip0 && ip0 + MARGIN < end <= |src| && end <= base + BLOCK && base <= cand < ip0 && Same4(src, cand, ip0)
    requires Progress(src, base, nextEmit, w, xs) && op0 == start + |w| && start + Room(end - base) <= dst.Length
    requires op0 <= dst.Length && dst[start..op0] == w
    requires Follows(src[base..end], BlockFinder(hash), table, xs, entered, ip0 - base) && Before(entered, ip0 - base)
    modifies dst
    ensures ip0 + 4 <= ip <= end && Progress(src, base, ip, w', xs') && op == start + |w'| <= dst.Length
    ensures dst[..op] == old(dst[..start]) + w'
    ensures ip < end ==> src[ip] != src[ip - (ip0 - cand)]
    ensures ip0 == nextEmit + 1 ==> |w'| == |w| + 2 + |CopyBytes(ip0 - cand, ip - ip0)|
    ensures Behind(src[base..end], BlockFinder(hash), table, xs', entered + {ip0 - base}, ip - base)
  {
    hide Progress, Same4, CopyBytes, Scanned, Before;
    ProgressView(src, base, nextEmit, w, xs);
    op, ip, w', xs' := EmitMatch(src, base, end, dst, op0, nextEmit, ip0, cand, start, w, xs);
    ghost var x := Sequence(src[nextEmit..ip0], ip0 - cand, ip - ip0);
    assert Takes(BlockFinder(hash), xs, x, ip0 - base);
    InMatch(xs, x, 1);
    BeforeMore(entered, ip0 - base, ip - base - 1);
  }

  /** Right behind a match. */
  ghost predicate Behind(src: Bytes, s: Finder, table: seq<nat>, xs: seq<Sequence>, entered: set<nat>, q: nat) {
    q >= 1 && Scanned(src, s, table, xs, entered, q) && Before(entered, q - 1) && !LiteralAt(xs, q - 1)
  }

  lemma BeforeMore(entered: set<nat>, p: nat, q: nat)
    requires Before(entered, p) && p < q
    ensures Before(entered + {p}, q)
  {}

  /** Enter the position before and this one, and see what was here. */
  method NextCandidate(src: Bytes, base: nat, end: nat, ip: nat, table: array<nat>, hash: Bytes -> nat, ghost reach: nat,
                       ghost xs: seq<Sequence>, ghost entered: set<nat>)
    returns (again: bool, cand: nat)
    requires base + 1 < ip && ip + MARGIN < end <= |src| && end <= base + BLOCK && InTable(hash, table.Length)
    requires Below(table[..], reach) && reach + 1 <= ip - base
    requires Behind(src[base..end], BlockFinder(hash), table[..], xs, entered, ip - base)
    modifies table
    ensures base <= cand < ip && Below(table[..], ip - base + 1) && (again <==> Same4(src, cand, ip))
    ensures var before := entered + {ip - base - 1};
      if again then Follows(src[base..end], BlockFinder(hash), table[..], xs, before, ip - base) && Before(before, ip - base)
      else Scanned(src[base..end], BlockFinder(hash), table[..], xs, before + {ip - base}, ip - base + 1)
  {
    hide Scanned, Same4, InTable, Below, Follows, LiteralAt, Before;
    ghost var block, s := src[base..end], BlockFinder(hash);
    InBlock(src, base, end, s, ip - 1);
    ghost var was := table[..];
    Store(src, base, ip - 1, table, hash, reach);
    ScanEnter(block, s, was, xs, entered, ip - base - 1, ip - base);
    again, cand := Probe(src, base, end, ip, table, hash, xs, entered + {ip - base - 1});
    BeforeMore(entered, ip - base - 1, ip - base);
  }

  /** `CompressFragment`: one block of at most 64 KiB. */
  method CompressFragment(src: Bytes, base: nat, size: nat, dst: array<byte>, start: nat, table: array<nat>,
                          hash: (Bytes, nat) -> nat,
                          ghost k: nat)
    returns (op: nat, ghost w: Bytes, ghost xs: seq<Sequence>)
    requires 1 <= size <= BLOCK && base + size <= |src| && start + Room(size) <= dst.Length
    requires MIN_TABLE_BITS <= k <= MAX_TABLE_BITS && table.Length == Pow2(k) && Indexes(hash) && Below(table[..], 1)
    modifies dst, table
    ensures start <= op <= dst.Length && dst[..op] == old(dst[..start]) + w && op == start + |w|
    ensures Yields(w, src[..base], src[..base + size]) && 120 * |w| <= 139 * size + 120
    ensures Uniform(src) ==> |w| <= (if size >= 17 then 5 else 19) + 3 * (size / 64)
    ensures Writable(xs) && Span(xs) <= size && w == Packed(xs) + RemainderBytes(src[base + Span(xs)..base + size])
    ensures size >= MARGIN ==> NothingMissed(src[base..base + size], BlockFinder(With(hash, 32 - k)), xs, size - MARGIN)
  {
    hide Packed, Writable, Span, NothingMissed, BlockFinder, With, RemainderBytes, Uniform, Progress, Yields, Below,
      InTable, Same4, Pow2;
    var shift := ShiftFor(table.Length, k);
    var ipEnd, nextEmit := base + size, base;
    op, w, xs := start, [], [];
    ProgressStart(src, base);
    if size >= MARGIN {
      assert Reduces(hash, k);
      op, nextEmit, w, xs := EmitMatches(src, base, ipEnd, dst, start, table, With(hash, shift));
    }
    ProgressView(src, base, nextEmit, w, xs);
    assert nextEmit == base + Span(xs) && ipEnd - base - MARGIN == size - MARGIN;
    op, w := EmitRemainder(src, base, ipEnd, dst, start, op, nextEmit, w, xs);
  }

  /** One match after another while the next follows at once. */
  method EmitCopies(src: Bytes, base: nat, ipEnd: nat, dst: array<byte>, op0: nat, nextEmit: nat, ip0: nat,
                    cand0: nat, table: array<nat>,
                    hash: Bytes -> nat, ghost start: nat, ghost w0: Bytes, ghost xs0: seq<Sequence>, ghost entered0: set<nat>)
    returns (done: bool, op: nat, ip: nat, ghost w: Bytes, ghost xs: seq<Sequence>, ghost entered: set<nat>)
    requires base <= nextEmit < ip0 && ip0 + MARGIN < ipEnd <= |src| && ipEnd <= base + BLOCK && start + Room(ipEnd - base) <= dst.Length
    requires base <= cand0 < ip0 && Same4(src, cand0, ip0) && InTable(hash, table.Length) && Below(table[..], ip0 - base + 1)
    requires Progress(src, base, nextEmit, w0, xs0) && op0 == start + |w0| <= dst.Length && dst[start..op0] == w0
    requires Follows(src[base..ipEnd], BlockFinder(hash), table[..], xs0, entered0, ip0 - base) && Before(entered0, ip0 - base)
    modifies dst, table
    ensures ip0 < ip <= ipEnd && (!done ==> ip + MARGIN < ipEnd && Below(table[..], ip - base + 1))
    ensures Progress(src, base, ip, w, xs) && op == start + |w| <= dst.Length && dst[..op] == old(dst[..start]) + w
    ensures if done then NothingMissed(src[base..ipEnd], BlockFinder(hash), xs, ipEnd - base - MARGIN)
            else Scanned(src[base..ipEnd], BlockFinder(hash), table[..], xs, entered, ip - base + 1)
    ensures Uniform(src) && nextEmit == cand0 == base && ip0 == base + 1 && w0 == [] ==>
      done && ip == ipEnd && |w| <= 5 + 3 * ((ipEnd - base) / 64)
  {
    hide Progress, Below, InTable, Same4, Uniform, CopyBytes, Scanned, Follows, Behind, Before, NothingMissed,
      AllLong, BlockFinder;
    var ipLimit := ipEnd - MARGIN;
    ghost var block, s, before := src[base..ipEnd], BlockFinder(hash), dst[..start];
    ghost var alike := Uniform(src) && nextEmit == cand0 == base && ip0 == base + 1 && w0 == [];
    var cand, emitted, again := cand0, nextEmit, true;
    op, ip, w, xs, entered := op0, ip0, w0, xs0, entered0;
    Rejoin(dst[..], start, op, w);
    while again
      invariant base <= emitted <= ip && ip0 <= ip && base < ip < ipLimit && Below(table[..], ip - base + 1)
      invariant if again then base <= cand < ip && Same4(src, cand, ip) else emitted == ip && ip0 < ip
      invariant Progress(src, base, emitted, w, xs) && op == start + |w| <= dst.Length && dst[..op] == before + w
      invariant again ==> Follows(block, s, table[..], xs, entered, ip - base) && Before(entered, ip - base)
      invariant !again ==> Scanned(block, s, table[..], xs, entered, ip - base + 1)
      invariant alike ==> again && ip == base + 1 && cand == emitted == base && w == []
      decreases ipEnd - ip, again
    {
      ghost var reach, probe := ip - base + 1, ip - base;
      Start(dst[..], before, w);
      op, ip, w, xs := TakeMatch(src, base, ipEnd, dst, op, emitted, ip, cand, start, w, xs, hash, table[..], entered);
      entered := entered + {probe};
      if alike { UniformMatch(src, base, ip, ipEnd); }
      emitted := ip;
      if ip >= ipLimit {
        BehindEnd(block, s, table[..], xs, entered, ip - base, ipLimit - base);
        done := true;
        return;
      }
      again, cand := NextCandidate(src, base, ipEnd, ip, table, hash, reach, xs, entered);
      entered := entered + {ip - base - 1};
      if !again { entered := entered + {ip - base}; }
    }
    done := false;
  }

  lemma Rejoin(all: Bytes, start: nat, op: nat, w: Bytes)
    requires start <= op <= |all| && all[start..op] == w
    ensures all[..op] == all[..start] + w
  {}

  /** The main loop. */
  method EmitMatches(src: Bytes, base: nat, ipEnd: nat, dst: array<byte>, start: nat, table: array<nat>, hash: Bytes -> nat)
    returns (op: nat, nextEmit: nat, ghost w: Bytes, ghost xs: seq<Sequence>)
    requires base + MARGIN <= ipEnd <= |src| && ipEnd <= base + BLOCK && start + Room(ipEnd - base) <= dst.Length
    requires InTable(hash, table.Length) && Below(table[..], 1)
    modifies dst, table
    ensures base <= nextEmit <= ipEnd && Progress(src, base, nextEmit, w, xs) && op == start + |w| <= dst.Length
    ensures NothingMissed(src[base..ipEnd], BlockFinder(hash), xs, ipEnd - base - MARGIN)
    ensures dst[..op] == old(dst[..start]) + w
    ensures Uniform(src) && base + MARGIN + 1 < ipEnd ==> nextEmit == ipEnd && |w| <= 5 + 3 * ((ipEnd - base) / 64)
  {
    hide Progress, Below, InTable, Same4, Uniform, Scanned, Follows, Before, NothingMissed, AllLong, BlockFinder,
      Writable, Packed, Span, Room;
    var ipLimit := ipEnd - MARGIN;
    nextEmit, op, w, xs := base, start, [], [];
    ghost var block, s, entered: set<nat> := src[base..ipEnd], BlockFinder(hash), {};
    ProgressStart(src, base);
    FirstScan(block, hash, table[..]);
    ghost var before := dst[..start];
    var ip := base + 1;
    ghost var alike := Uniform(src) && base + MARGIN + 1 < ipEnd;
    while true
      invariant base <= nextEmit < ip <= ipLimit + 1 && ip == nextEmit + 1 && Below(table[..], ip - base)
      invariant Progress(src, base, nextEmit, w, xs) && op == start + |w| <= dst.Length && dst[..op] == before + w
      invariant Scanned(block, s, table[..], xs, entered, ip - base)
      invariant alike ==> ip == base + 1 && nextEmit == base && w == [] && Below(table[..], 1)
      decreases ipEnd - ip
    {
      ProgressView(src, base, nextEmit, w, xs);
      var found, at, cand, done;
      found, at, cand, entered := Scan(src, base, ipEnd, ip, ipLimit, table, hash, xs, entered);
      if !found {
        return;
      }
      Start(dst[..], before, w);
      done, op, ip, w, xs, entered := EmitCopies(src, base, ipEnd, dst, op, nextEmit, at, cand, table, hash, start, w, xs, entered);
      nextEmit := ip;
      if done {
        return;
      }
      ip := ip + 1;
    }
  }

  lemma FirstScan(block: Bytes, hash: Bytes -> nat, table: seq<nat>)
    ensures Scanned(block, BlockFinder(hash), table, [], {}, 1)
  {
    ScanStart(block, BlockFinder(hash), table, [], 1);
  }

  lemma BehindEnd(src: Bytes, s: Finder, table: seq<nat>, xs: seq<Sequence>, entered: set<nat>, q: nat, limit: nat)
    requires Behind(src, s, table, xs, entered, q) && limit <= q
    ensures NothingMissed(src, s, xs, limit)
  {
    ScanEnd(src, s, table, xs, entered, q, limit);
  }

  /** A match at distance one reaches the end, in pieces of three bytes for sixty-four. */
  lemma UniformMatch(src: Bytes, base: nat, ip: nat, end: nat)
    requires Uniform(src) && base + 5 <= ip <= end <= |src| && (ip < end ==> src[ip] != src[ip - 1])
    ensures ip == end && 2 + |CopyBytes(1, ip - (base + 1))| <= 5 + 3 * ((end - base) / 64)
  {
    NearSize(ip - (base + 1));
  }

  lemma {:induction false} NearSize(len: nat)
    requires len >= 4
    ensures |CopyBytes(1, len)| <= 3 + 3 * (len / 64)
  {
    if len >= 68 { NearSize(len - 64); }
  }

  lemma Start(all: Bytes, before: Bytes, w: Bytes)
    requires |before| + |w| <= |all| && all[..|before| + |w|] == before + w
    ensures all[..|before|] == before && all[|before|..|before| + |w|] == w
  {
    assert all[..|before|] == all[..|before| + |w|][..|before|];
    assert all[|before|..|before| + |w|] == all[..|before| + |w|][|before|..];
  }

  ghost function RemainderBytes(data: Bytes): Bytes
    requires |data| <= BLOCK
  {
    if data == [] then [] else LiteralBytes(data)
  }

  /** `emit_remainder` */
  method EmitRemainder(src: Bytes, base: nat, ipEnd: nat, dst: array<byte>, ghost start: nat, op0: nat, nextEmit: nat,
                       ghost w0: Bytes,
                       ghost xs: seq<Sequence>)
    returns (op: nat, ghost w: Bytes)
    requires base <= nextEmit <= ipEnd <= |src| && ipEnd <= base + BLOCK && start + Room(ipEnd - base) <= dst.Length
    requires Progress(src, base, nextEmit, w0, xs) && op0 == start + |w0| <= dst.Length
    modifies dst
    ensures |w0| <= |w| && op == op0 + (|w| - |w0|) <= dst.Length && dst[..op] == old(dst[..op0]) + w[|w0|..] && w[..|w0|] == w0
    ensures Yields(w, src[..base], src[..ipEnd]) && 120 * |w| <= 139 * (ipEnd - base) + 120
    ensures w == w0 + RemainderBytes(src[nextEmit..ipEnd]) && (nextEmit == ipEnd ==> w == w0)
  {
    hide Yields, LiteralBytes, Packed, Writable, Span;
    op, w := op0, w0;
    if nextEmit < ipEnd {
      ghost var data := src[nextEmit..ipEnd];
      LiteralSize(data);
      op := EmitLiteral(dst, op, src, nextEmit, ipEnd - nextEmit, false);
      LiteralYields(data, src[..nextEmit]);
      assert src[..nextEmit] + data == src[..ipEnd];
      YieldsBoth(w0, LiteralBytes(data), src[..base], src[..nextEmit], src[..ipEnd]);
      w := w0 + LiteralBytes(data);
    }
  }

  // ---------- the length in front ----------

  ghost function Varint(v: nat): (r: Bytes)
    ensures |r| > 0
  {
    if v < 128 then [v] else [v % 128 + 128] + Varint(v / 128)
  }

  method Encode32(dst: array<byte>, v: nat) returns (op: nat)
    requires v < TWO32 && 5 <= dst.Length
    modifies dst
    ensures op <= 5 && dst[..op] == Varint(v)
  {
    if v < 128 {
      dst[0] := v;
      op := 1;
    } else if v < 16384 {
      dst[0], dst[1] := v % 128 + 128, v / 128;
      op := 2;
    } else if v < 2097152 {
      dst[0], dst[1], dst[2] := v % 128 + 128, v / 128 % 128 + 128, v / 16384;
      op := 3;
    } else if v < 268435456 {
      dst[0], dst[1], dst[2], dst[3] := v % 128 + 128, v / 128 % 128 + 128, v / 16384 % 128 + 128, v / 2097152;
      op := 4;
    } else {
      dst[0], dst[1], dst[2], dst[3], dst[4] :=
        v % 128 + 128, v / 128 % 128 + 128, v / 16384 % 128 + 128, v / 2097152 % 128 + 128, v / 268435456;
      op := 5;
    }
    VarintUnfold(v);
  }

  lemma VarintHead(v: nat)
    ensures Varint(v) == if v < 128 then [v] else [v % 128 + 128] + Varint(v / 128)
  {}

  lemma {:induction false} VarintUnfold(v: nat)
    requires v < TWO32
    ensures v < 128 ==> Varint(v) == [v]
    ensures 128 <= v < 16384 ==> Varint(v) == [v % 128 + 128, v / 128]
    ensures 16384 <= v < 2097152 ==> Varint(v) == [v % 128 + 128, v / 128 % 128 + 128, v / 16384]
    ensures 2097152 <= v < 268435456 ==>
      Varint(v) == [v % 128 + 128, v / 128 % 128 + 128, v / 16384 % 128 + 128, v / 2097152]
    ensures 268435456 <= v ==>
      Varint(v) == [v % 128 + 128, v / 128 % 128 + 128, v / 16384 % 128 + 128, v / 2097152 % 128 + 128, v / 268435456]
  {
    VarintHead(v);
    hide Varint;
    if v >= 128 {
      VarintUnfold(v / 128);
    }
  }

  /** The length is read back. */
  lemma {:induction false} VarintReads(s: Bytes, k: nat, acc: nat, v: nat, rest: Bytes)
    requires k < 5 && k <= |s| && s[k..] == Varint(v) + rest && v * SCALE[k] < TWO32
    ensures ReadLength(s, k, acc) == Length(acc + v * SCALE[k], k + |Varint(v)|)
    decreases 5 - k
  {
    hide Varint, ReadLength;
    VarintHead(v);
    assert s[k] == s[k..][0];
    if v >= 128 { ScaleMore(k, v); }
    LengthStep(s, k, acc);
    if v >= 128 {
      assert s[k + 1..] == s[k..][1..] == Varint(v / 128) + rest;
      VarintReads(s, k + 1, acc + v % 128 * SCALE[k], v / 128, rest);
    }
  }

  lemma ScaleMore(k: nat, v: nat)
    requires k < 5 && v >= 128 && v * SCALE[k] < TWO32
    ensures k < 4 && v * SCALE[k] == v / 128 * SCALE[k + 1] + v % 128 * SCALE[k] && v % 128 * SCALE[k] < TWO32 && v / 128 * SCALE[k + 1] < TWO32
  {
    assert v == v / 128 * 128 + v % 128;
  }

  // ---------- the whole input ----------

  /** `MaxCompressedLength` */
  function MaxCompressedLength(n: nat): nat {
    32 + n + n / 6
  }

  /** What `n` equal bytes are compressed to, at most. */
  function UniformBound(n: nat): nat {
    24 + 5 * (n / BLOCK) + 3 * (n / 64)
  }

  /** `RawCompress`: what comes out decodes to the input, for every hash function. */
  method RawCompress(src: Bytes, dst: array<byte>, hash: (Bytes, nat) -> nat) returns (written: nat)
    requires |src| < TWO32 && MaxCompressedLength(|src|) <= dst.Length && Indexes(hash)
    modifies dst
    ensures written <= MaxCompressedLength(|src|) && DecodeAll(dst[..written]) == Accept(src)
    ensures Uniform(src) ==> written <= UniformBound(|src|)
  {
    hide Uniform, Yields, Indexes, Below, Varint, Decode, Pow2, Few, Room, UniformBound, Packed, Writable, Span,
      NothingMissed, RemainderBytes, BlockFinder, With;
    written := Encode32(dst, |src|);
    ghost var head, body := dst[..written], [];
    var base: nat := 0;
    YieldsNothing([]);
    assert src[..0] == [] && head + [] == head;
    FewAtFirst(|src|);
    while base < |src|
      invariant base <= |src| && (base % BLOCK == 0 || base == |src|)
      invariant written <= dst.Length && dst[..written] == head + body && |head| <= 5
      invariant Uniform(src) ==> Few(base, |src|, |body|)
      invariant Yields(body, [], src[..base]) && 120 * |body| <= 140 * base + (if base == |src| then 120 else 0)
    {
      var size := if |src| - base < BLOCK then |src| - base else BLOCK;
      var table;
      ghost var w, k, xs;
      table, k := GetHashTable(size);
      RoomFor(|src|, base, size, |body|, |head|);
      written, w, xs := CompressFragment(src, base, size, dst, written, table, hash, k);
      assert head + body + w == head + (body + w);
      YieldsBoth(body, w, [], src[..base], src[..base + size]);
      if Uniform(src) { FewMore(|src|, base, size, |body|, |w|); }
      body := body + w;
      base := base + size;
    }
    assert src[..base] == src;
    Finish(src, head, body, dst[..written]);
    if Uniform(src) { FewInAll(|src|, |body|, |head|); }
  }

  /** What has been written for the first `base` of `n` equal bytes. */
  predicate Few(base: nat, n: nat, body: nat) {
    body <= 5 * (base / BLOCK) + 3 * (base / 64) + (if base == n then 19 else 0)
  }

  lemma FewAtFirst(n: nat)
    ensures Few(0, n, 0)
  {}

  lemma FewMore(n: nat, base: nat, size: nat, body: nat, w: nat)
    requires Few(base, n, body) && base % BLOCK == 0 && 1 <= size && base + size <= n && (size == BLOCK || base + size == n)
    requires w <= (if size >= 17 then 5 else 19) + 3 * (size / 64)
    ensures Few(base + size, n, body + w)
  {
    var m := base / BLOCK;
    assert base == 65536 * m;
    FewParts(m, size);
  }

  lemma FewParts(m: nat, size: nat)
    ensures 65536 * m / 64 == 1024 * m && 65536 * m / 65536 == m
    ensures (65536 * m + size) / 64 == 1024 * m + size / 64
    ensures (65536 * m + size) / 65536 == m + size / 65536
  {}

  lemma FewInAll(n: nat, body: nat, head: nat)
    requires Few(n, n, body) && head <= 5
    ensures head + body <= UniformBound(n)
  {}

  lemma RoomFor(n: nat, base: nat, size: nat, body: nat, head: nat)
    requires base + size <= n && 1 <= size && 120 * body <= 140 * base && head <= 5
    ensures head + body + Room(size) <= MaxCompressedLength(n)
  {}

  lemma Finish(src: Bytes, head: Bytes, body: Bytes, all: Bytes)
    requires |src| < TWO32 && head == Varint(|src|) && all == head + body && Yields(body, [], src)
    ensures DecodeAll(all) == Accept(src)
  {
    hide Yields, Decode, Varint, ReadLength;
    assert all[0..] == Varint(|src|) + body;
    VarintReads(all, 0, 0, |src|, body);
    assert all[|head|..] == body;
    YieldsAll(body, src);
  }
}
