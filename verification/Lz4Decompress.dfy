/**
 `LZ4_decompress_safe`: the decoder with its eight-byte copies, proved to compute what
 the block format says for every input.
 */
module Lz4Decompress {
  import opened Lz77
  import opened Lz4Format

  const DEC32 := [0, 1, 2, 1, 4, 4, 4, 4]
  const DEC64 := [0, 0, 0, -1, 0, 1, 2, 3]

  // ---------- eight-byte copies ----------

  method Copy8(a: array<byte>, d: nat, s: nat)
    requires s + 8 <= d && d + 8 <= a.Length
    modifies a
    ensures forall k :: d <= k < d + 8 ==> a[k] == a[k - (d - s)]
    ensures forall k :: 0 <= k < a.Length && !(d <= k < d + 8) ==> a[k] == old(a[k])
  {
    forall k | d <= k < d + 8 {
      a[k] := a[k - (d - s)];
    }
  }

  method Copy8From(a: array<byte>, d: nat, input: Bytes, s: nat)
    requires s + 8 <= |input| && d + 8 <= a.Length
    modifies a
    ensures forall k :: d <= k < d + 8 ==> a[k] == input[s + (k - d)]
    ensures forall k :: 0 <= k < a.Length && !(d <= k < d + 8) ==> a[k] == old(a[k])
  {
    forall k | d <= k < d + 8 {
      a[k] := input[s + (k - d)];
    }
  }

  /** Copy forward in eights until `e` is reached; up to seven bytes too many. */
  method WildCopy(a: array<byte>, dst: nat, src: nat, e: nat)
    requires src + 8 <= dst && dst + 8 <= a.Length && e + 7 <= a.Length
    modifies a
    ensures forall k :: dst <= k < e ==> a[k] == a[k - (dst - src)]
    ensures forall k :: 0 <= k < dst ==> a[k] == old(a[k])
    ensures forall k :: dst + 8 <= k < a.Length && e + 7 <= k ==> a[k] == old(a[k])
  {
    var d, s := dst, src;
    Copy8(a, d, s);
    d, s := d + 8, s + 8;
    while d < e
      invariant d - s == dst - src && dst + 8 <= d && (d == dst + 8 || d < e + 8)
      invariant forall k :: dst <= k < d ==> a[k] == a[k - (dst - src)]
      invariant forall k :: 0 <= k < dst || d <= k < a.Length ==> a[k] == old(a[k])
    {
      ghost var was := a[..];
      Copy8(a, d, s);
      forall k | dst <= k < d + 8 ensures a[k] == a[k - (dst - src)] {
        if k < d { assert a[k] == was[k] == was[k - (dst - src)]; }
      }
      d, s := d + 8, s + 8;
    }
  }

  /** The same copy from another buffer. */
  method WildCopyFrom(a: array<byte>, dst: nat, input: Bytes, src: nat, e: nat)
    requires dst <= e && dst + 8 <= a.Length && e + 7 <= a.Length
    requires src + 8 <= |input| && src + (e - dst) + 7 <= |input|
    modifies a
    ensures a[..e] == old(a[..dst]) + input[src..src + (e - dst)]
    ensures forall k :: dst + 8 <= k < a.Length && e + 7 <= k ==> a[k] == old(a[k])
  {
    var d, s := dst, src;
    Copy8From(a, d, input, s);
    d, s := d + 8, s + 8;
    while d < e
      invariant d - dst == s - src && dst + 8 <= d && (d == dst + 8 || d < e + 8)
      invariant forall k :: dst <= k < d ==> a[k] == input[src + (k - dst)]
      invariant forall k :: 0 <= k < dst || d <= k < a.Length ==> a[k] == old(a[k])
    {
      Copy8From(a, d, input, s);
      d, s := d + 8, s + 8;
    }
  }

  // ---------- the match copy ----------

  /** What the first eight bytes of a copy leave behind: they repeat with the offset, and
      the source pointer trails the target by a multiple of it that is at least eight. */
  ghost predicate Primed(a: Bytes, op: nat, offset: nat, src: nat) {
    && offset <= op && op + 8 <= |a| && src + 8 <= op + 8
    && (forall k :: op <= k < op + 8 ==> a[k] == if offset == 0 then 0 else a[k - offset])
    && (if offset >= 8 then op + 8 - src == offset
        else op + 8 - src == [8, 8, 8, 9, 8, 10, 12, 14][offset])
  }

  /** Repeating with the multiple is repeating with the offset. */
  lemma {:induction false} StillPeriodic(a: Bytes, op: nat, offset: nat, src: nat, k: nat)
    requires Primed(a, op, offset, src) && op <= k < |a|
    requires forall j :: op + 8 <= j <= k ==> a[j] == a[j - (op + 8 - src)]
    ensures a[k] == if offset == 0 then 0 else a[k - offset]
    decreases k
  {
    var dist := op + 8 - src;
    if k >= op + 8 && offset < 8 {
      forall j | op <= j < k ensures a[j] == if offset == 0 then 0 else a[j - offset] {
        StillPeriodic(a, op, offset, src, j);
      }
      if offset > 0 {
        var m := [0, 8, 4, 3, 2, 2, 2, 2][offset];
        assert dist == m * offset;
        assert (m - 1) * offset == dist - offset;
        BackBy(a, op, offset, k - dist, m - 1);
      } else {
        assert a[k - 8] == 0;
      }
    }
  }

  /** Four bytes, one after another. */
  method FourBytes(a: array<byte>, op: nat, src: nat)
    requires src <= op && op + 4 <= a.Length
    modifies a
    ensures forall k :: op <= k < op + 4 ==> a[k] == if src == op then old(a[k]) else a[k - (op - src)]
    ensures forall k :: 0 <= k < op || op + 4 <= k < a.Length ==> a[k] == old(a[k])
  {
    a[op] := a[src];
    a[op + 1] := a[src + 1];
    a[op + 2] := a[src + 2];
    a[op + 3] := a[src + 3];
  }

  /** Where the table sends the second four bytes, the offset's pattern continues. */
  lemma PrimedShort(four: Bytes, a: Bytes, op: nat, offset: nat)
    requires offset < 8 && offset <= op && op + 8 <= |a| == |four|
    requires forall k :: op <= k < op + 4 ==> four[k] == if offset == 0 then 0 else four[k - offset]
    requires forall k :: 0 <= k < op + 4 ==> a[k] == four[k]
    requires forall k :: op + 4 <= k < op + 8 ==> a[k] == four[k - 4 - offset + DEC32[offset]]
    ensures Primed(a, op, offset, op - offset + DEC32[offset] - DEC64[offset])
  {
    var s := op - offset + DEC32[offset];
    assert a[op + 4] == four[s] && a[op + 5] == four[s + 1] && a[op + 6] == four[s + 2] && a[op + 7] == four[s + 3];
    assert four[op] == a[op] && four[op + 1] == a[op + 1] && four[op + 2] == a[op + 2] && four[op + 3] == a[op + 3];
    forall k | op + 4 <= k < op + 8 ensures a[k] == if offset == 0 then 0 else a[k - offset] {
      assert k == op + 4 || k == op + 5 || k == op + 6 || k == op + 7;
    }
  }

  /** Four bytes at once. */
  method Copy4(a: array<byte>, op: nat, src: nat)
    requires src <= op && op + 4 <= a.Length
    modifies a
    ensures forall k :: op <= k < op + 4 ==> a[k] == old(a[k - (op - src)])
    ensures forall k :: 0 <= k < op || op + 4 <= k < a.Length ==> a[k] == old(a[k])
  {
    a[op], a[op + 1], a[op + 2], a[op + 3] := a[src], a[src + 1], a[src + 2], a[src + 3];
  }

  /** The first eight bytes, by table for short offsets. */
  method Prime(a: array<byte>, op: nat, offset: nat) returns (src: nat)
    requires offset <= op && op + 8 <= a.Length
    requires offset == 0 ==> forall k :: op <= k < op + 4 ==> a[k] == 0
    modifies a
    ensures Primed(a[..], op, offset, src) && a[..op] == old(a[..op])
    ensures forall k :: op + 8 <= k < a.Length ==> a[k] == old(a[k])
  {
    src := op - offset;
    if offset < 8 {
      FourBytes(a, op, src);
      ghost var four := a[..];
      src := src + DEC32[offset];
      Copy4(a, op + 4, src);
      PrimedShort(four, a[..], op, offset);
      src := src - DEC64[offset];
    } else {
      Copy8(a, op, src);
      src := src + 8;
    }
  }

  /** The last bytes of a copy, one at a time. */
  method ByteCopy(a: array<byte>, dst: nat, from: nat, cpy: nat)
    requires from < dst && cpy <= a.Length
    modifies a
    ensures forall k :: dst <= k < cpy ==> a[k] == a[k - (dst - from)]
    ensures forall k :: 0 <= k < a.Length && (k < dst || cpy <= k) ==> a[k] == old(a[k])
  {
    var op, src := dst, from;
    while op < cpy
      invariant op - src == dst - from && dst <= op && (op <= cpy || op == dst)
      invariant forall k :: dst <= k < op ==> a[k] == a[k - (dst - from)]
      invariant forall k :: 0 <= k < a.Length && (k < dst || op <= k) ==> a[k] == old(a[k])
    {
      a[op] := a[src];
      op, src := op + 1, src + 1;
    }
  }

  /** A whole copy of `length` bytes, in a buffer of which `oend` bytes may be written. */
  method CopyMatch(a: array<byte>, op0: nat, offset: nat, length: nat, oend: nat)
    requires offset <= op0 && op0 + MFLIMIT <= oend <= a.Length
    requires MINMATCH <= length && op0 + length + LASTLITERALS <= oend
    requires offset == 0 ==> forall k :: op0 <= k < op0 + 4 ==> a[k] == 0
    modifies a
    ensures a[..op0 + length] == MatchCopy(old(a[..op0]), offset, length)
    ensures forall k :: oend <= k < a.Length ==> a[k] == old(a[k])
  {
    ghost var out := a[..op0];
    var cpy := op0 + length;
    var src := Prime(a, op0, offset);
    var op := op0 + 8;
    ghost var dist := op - src;
    ghost var primed := a[..];
    if cpy + 12 > oend {
      var copyLimit := oend - 7;
      if op < copyLimit {
        WildCopy(a, op, src, copyLimit);
        src := src + (copyLimit - op);
        op := copyLimit;
      }
      ByteCopy(a, op, src, cpy);
    } else {
      Copy8(a, op, src);
      if length > 16 {
        WildCopy(a, op + 8, src + 8, cpy);
      }
    }
    FinishCopy(out, primed, a[..], op0, offset, length, dist);
  }

  lemma FinishCopy(out: Bytes, primed: Bytes, a: Bytes, op: nat, offset: nat, length: nat, dist: nat)
    requires |primed| == |a| && op + length <= |a| && dist <= op + 8 && Primed(primed, op, offset, op + 8 - dist)
    requires out == primed[..op] && primed[..op + 8] == a[..op + 8]
    requires forall k :: op + 8 <= k < op + length ==> a[k] == a[k - dist]
    ensures a[..op + length] == MatchCopy(out, offset, length)
  {
    var r := a[..op + length];
    forall k | 0 <= k < op + 8 ensures a[k] == primed[k] {
      assert a[k] == a[..op + 8][k];
    }
    forall k | op <= k < op + length ensures r[k] == if offset == 0 then 0 else r[k - offset] {
      StillPeriodic(a, op, offset, op + 8 - dist, k);
    }
    CopyIsPeriodic(out, offset, r);
  }

  // ---------- the decoder ----------

  method ReadLitRun(s: Bytes, n: nat, ip0: nat) returns (len: nat, ip: nat)
    requires n <= |s| && ip0 < |s|
    ensures LitRun(s, n, ip0) == Run(len, ip)
  {
    len, ip := 0, ip0;
    while true
      invariant ip < |s| && (ip == ip0 || ip < n)
      invariant LitRun(s, n, ip0) == Run(len + LitRun(s, n, ip).len, LitRun(s, n, ip).next)
      decreases |s| - ip
    {
      var b := s[ip];
      len, ip := len + b, ip + 1;
      if !(ip < n - RUN_MASK && b == 255) { break; }
    }
  }

  method ReadMatchRun(s: Bytes, n: nat, ip0: nat) returns (ok: bool, len: nat, ip: nat)
    requires n <= |s| && ip0 < n
    ensures MatchRun(s, n, ip0) == if ok then Run(len, ip) else Stuck(ip)
  {
    len, ip := 0, ip0;
    while true
      invariant ip < n
      invariant MatchRun(s, n, ip0) == var r := MatchRun(s, n, ip); if r.Stuck? then r else Run(len + r.len, r.next)
      decreases n - ip
    {
      var b := s[ip];
      ip := ip + 1;
      if ip > n - LASTLITERALS { return false, len, ip; }
      len := len + b;
      if b != 255 { return true, len, ip; }
    }
  }

  method ReadLiteralLength(s: Bytes, n: nat, ip0: nat) returns (length: nat, ip: nat)
    requires n <= |s| && (if ip0 > 0 then ip0 + LASTLITERALS <= n else Opens(s))
    ensures Literals(s, n, ip0) == Run(length, ip)
  {
    length, ip := s[ip0] / 16, ip0 + 1;
    if length == RUN_MASK {
      var run;
      run, ip := ReadLitRun(s, n, ip);
      length := length + run;
    }
  }

  method Write32(a: array<byte>, op: nat, v: nat)
    requires op + 4 <= a.Length && v < 65536
    modifies a
    ensures v == 0 ==> forall k :: op <= k < op + 4 ==> a[k] == 0
    ensures forall k :: 0 <= k < a.Length && !(op <= k < op + 4) ==> a[k] == old(a[k])
  {
    a[op], a[op + 1], a[op + 2], a[op + 3] := v % 256, v / 256, 0, 0;
  }

  method ReadMatchLength(s: Bytes, n: nat, token: byte, ip0: nat) returns (ok: bool, length: nat, ip: nat)
    requires n <= |s| && ip0 + LASTLITERALS < n
    ensures MatchLength(s, n, token, ip0) == if ok then Run(length, ip) else Stuck(ip)
  {
    ok, length, ip := true, token % 16, ip0;
    if length == ML_MASK {
      var run;
      ok, run, ip := ReadMatchRun(s, n, ip);
      length := length + run;
    }
    length := length + MINMATCH;
  }

  /** From the offset to the end of the copy. */
  method DecodeCopy(s: Bytes, n: nat, token: byte, dest: array<byte>, cap: nat, ip0: nat, op0: nat) returns (ok: bool,
                    ip: nat, op: nat)
    requires n <= |s| && ip0 + 2 + LASTLITERALS < n && op0 + MFLIMIT <= cap <= dest.Length
    modifies dest
    ensures ok ==> op <= cap
    ensures CopyStep(s, n, token, ip0, old(dest[..op0]), cap) == if ok then Next(ip, dest[..op]) else Halt(ip)
    ensures forall k :: cap <= k < dest.Length ==> dest[k] == old(dest[k])
  {
    var offset := Word(s[ip0], s[ip0 + 1]);
    ok, ip, op := offset <= op0, ip0 + 2, op0;
    if !ok { return; }
    ghost var out := dest[..op];
    Write32(dest, op, offset);
    assert dest[..op] == out;
    var length;
    ok, length, ip := ReadMatchLength(s, n, token, ip);
    if !ok { return; }
    if op + length > cap - LASTLITERALS {
      ok := false;
      return;
    }
    CopyMatch(dest, op, offset, length, cap);
    op := op + length;
  }

  /** The literals that end a block, or the error of a block that does not end there. */
  method CopyLast(s: Bytes, n: nat, dest: array<byte>, cap: nat, ip: nat, op: nat, length: nat) returns (res: int)
    requires n <= |s| && op <= cap <= dest.Length
    modifies dest
    ensures if ip + length != n || op + length > cap then res == -(ip as int) - 1
      else res == op + length && dest[..res] == old(dest[..op]) + s[ip..n]
    ensures forall k :: cap <= k < dest.Length ==> dest[k] == old(dest[k])
  {
    if ip + length != n || op + length > cap {
      return -(ip as int) - 1;
    }
    forall k | 0 <= k < length {
      dest[op + k] := s[ip + k];
    }
    return op + length;
  }

  lemma Unfold(s: Bytes, n: nat, ip: nat, out: Bytes, cap: nat, length: nat, next: nat)
    requires n <= |s| && Opens(s) && (ip > 0 ==> ip + LASTLITERALS <= n) && Literals(s, n, ip) == Run(length, next)
    ensures var at := next + length;
      if |out| + length + MFLIMIT > cap || at + 2 + 1 + LASTLITERALS > n then
        DecodeFrom(s, n, ip, out, cap) ==
          if at != n || |out| + length > cap then Bad(next) else Done(out + s[next..n])
      else
        var r := CopyStep(s, n, s[ip], at, out + s[next..at], cap);
        DecodeFrom(s, n, ip, out, cap) == if r.Halt? then Bad(r.at) else DecodeFrom(s, n, r.ip, r.out, cap)
  {}

  /** `LZ4_decompress_safe`: the return value and, when it accepts, the bytes written. */
  method Decompress(s: Bytes, n: nat, dest: array<byte>, cap: nat) returns (res: int)
    requires n <= |s| && (cap > 0 ==> Opens(s)) && cap <= dest.Length
    modifies dest
    ensures res == ReturnValue(Decode(s, n, cap))
    ensures Decode(s, n, cap).Done? ==> res <= cap && dest[..res] == Decode(s, n, cap).out
    ensures forall k :: cap <= k < dest.Length ==> dest[k] == old(dest[k])
  {
    hide Literals, CopyStep, DecodeFrom;
    if cap == 0 {
      return if n == 1 && s[0] == 0 then 0 else -1;
    }
    var ip: nat, op: nat := 0, 0;
    assert dest[..0] == [];
    while true
      invariant op <= cap && (ip > 0 ==> ip + LASTLITERALS <= n)
      invariant DecodeFrom(s, n, ip, dest[..op], cap) == Decode(s, n, cap)
      invariant forall k :: cap <= k < dest.Length ==> dest[k] == old(dest[k])
      decreases n - ip
    {
      ghost var out := dest[..op];
      var token := s[ip];
      ghost var start := ip;
      var length;
      length, ip := ReadLiteralLength(s, n, ip);
      Unfold(s, n, start, out, cap, length, ip);
      var cpy := op + length;
      if cpy > cap - MFLIMIT || ip + length > n - (2 + 1 + LASTLITERALS) {
        res := CopyLast(s, n, dest, cap, ip, op, length);
        return;
      }
      WildCopyFrom(dest, op, s, ip, cpy);
      var ok;
      ok, ip, op := DecodeCopy(s, n, token, dest, cap, ip + length, cpy);
      if !ok {
        return -(ip as int) - 1;
      }
    }
  }
}
