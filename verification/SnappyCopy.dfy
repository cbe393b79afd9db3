/**
 Snappy's fast copies: sixteen bytes at a time where the buffer has room, after a pattern
 shorter than eight bytes has been expanded.
 */
module SnappyCopy {
  import opened Lz77

  /** `IncrementalCopySlow`; `from0` is where the copy as a whole began. */
  method IncrementalCopySlow(a: array<byte>, src0: nat, op0: nat, opLimit: nat)
    requires src0 < op0 <= a.Length && opLimit <= a.Length
    modifies a
    ensures forall k :: op0 <= k < opLimit ==> a[k] == a[k - (op0 - src0)]
    ensures forall k :: 0 <= k < op0 || (op0 <= k < a.Length && opLimit <= k) ==> a[k] == old(a[k])
  {
    var src, op := src0, op0;
    while op < opLimit
      invariant op - src == op0 - src0 && op0 <= op <= a.Length && (op <= opLimit || op == op0)
      invariant forall k :: op0 <= k < op ==> a[k] == a[k - (op0 - src0)]
      invariant forall k :: 0 <= k < op0 || (op <= k < a.Length) ==> a[k] == old(a[k])
    {
      a[op] := a[src];
      op, src := op + 1, src + 1;
    }
  }

  /** `UnalignedCopy64`: all eight bytes are read before any is written. */
  method Copy64(a: array<byte>, src: nat, op: nat)
    requires src < op && op + 8 <= a.Length
    modifies a
    ensures forall k :: op <= k < op + 8 ==> a[k] == old(a[k - (op - src)])
    ensures forall k :: 0 <= k < a.Length && !(op <= k < op + 8) ==> a[k] == old(a[k])
  {
    forall k | op <= k < op + 8 {
      a[k] := a[k - (op - src)];
    }
  }

  /** From `from` up to `op`, the buffer repeats with period `off`. */
  ghost predicate Filled(a: Bytes, from: nat, op: nat, off: nat) {
    1 <= off <= from <= op <= |a| && Repeats(a, from, op, off)
  }

  /** Bytes that repeat at a multiple of the period continue the pattern. */
  lemma {:induction false} Continues(a: Bytes, from: nat, op: nat, off: nat, m: nat, end: nat)
    requires Filled(a, from, op, off) && 1 <= m && m * off <= op - (from - off) && op <= end <= |a|
    requires forall k :: op <= k < end ==> a[k] == a[k - m * off]
    ensures Filled(a, from, end, off)
    decreases end - op
  {
    if op < end {
      var k := op;
      assert (m - 1) * off == m * off - off;
      BackBy(a, from, off, k - m * off, m - 1);
      assert a[k] == a[k - off];
      Continues(a, from, op + 1, off, m, end);
    }
  }

  lemma StillFilled(a: Bytes, b: Bytes, from: nat, op: nat, off: nat)
    requires Filled(a, from, op, off) && |a| == |b| && forall k :: 0 <= k < op ==> a[k] == b[k]
    ensures Filled(b, from, op, off)
  {}

  /** Double the pattern until it has eight bytes. */
  method Expand(a: array<byte>, src: nat, op0: nat, bufLimit: nat) returns (op: nat, ghost m: nat)
    requires src < op0 && op0 - src < 8 && op0 + 14 <= bufLimit <= a.Length
    modifies a
    ensures op0 < op <= bufLimit && op - src >= 8 && m >= 1 && op - src == m * (op0 - src)
    ensures Filled(a[..], op0, op, op0 - src)
    ensures forall k :: 0 <= k < op0 || bufLimit <= k < a.Length ==> a[k] == old(a[k])
  {
    op, m := op0, 1;
    var patternSize := op0 - src;
    ghost var off := patternSize;
    while patternSize < 8
      invariant patternSize == op - src == m * off && 1 <= m && op0 <= op
      invariant patternSize < 8 ==> op + 8 <= op0 + 14
      invariant op <= op0 + 14 && (op == op0 ==> patternSize < 8)
      invariant Filled(a[..], op0, op, off)
      invariant forall k :: 0 <= k < op0 || bufLimit <= k < a.Length ==> a[k] == old(a[k])
      decreases 8 - patternSize
    {
      ghost var was := a[..];
      Copy64(a, src, op);
      StillFilled(was, a[..], op0, op, off);
      Continues(a[..], op0, op, off, m, op + patternSize);
      op := op + patternSize;
      patternSize := patternSize * 2;
      m := m * 2;
    }
  }

  /** `IncrementalCopy`: the byte-at-a-time copy, never writing past `bufLimit`. */
  method IncrementalCopy(a: array<byte>, src0: nat, op0: nat, opLimit: nat, bufLimit: nat)
    requires src0 < op0 <= opLimit <= bufLimit <= a.Length
    modifies a
    ensures a[..opLimit] == MatchCopy(old(a[..op0]), op0 - src0, opLimit - op0)
    ensures forall k :: bufLimit <= k < a.Length ==> a[k] == old(a[k])
  {
    ghost var before, off, m := a[..op0], op0 - src0, 1;
    var src, op := src0, op0;
    if op0 - src0 < 8 {
      if op0 + 14 <= bufLimit {
        op, m := Expand(a, src, op0, bufLimit);
        if op >= opLimit {
          Copied(before, a[..], op0, op, opLimit, off);
          return;
        }
      } else {
        IncrementalCopySlow(a, src, op, opLimit);
        Copied(before, a[..], op0, opLimit, opLimit, off);
        return;
      }
    }
    while op + 16 <= bufLimit
      invariant op - src == m * off && op - src >= 8 && m >= 1 && op0 <= op && src0 <= src
      invariant Filled(a[..], op0, op, off) && a[..op0] == before && op <= bufLimit
      invariant op < opLimit || op == op0
      invariant forall k :: bufLimit <= k < a.Length ==> a[k] == old(a[k])
      decreases bufLimit - op
    {
      CopyOn(a, src, op, op0, off, m);
      CopyOn(a, src + 8, op + 8, op0, off, m);
      src, op := src + 16, op + 16;
      if op >= opLimit {
        Copied(before, a[..], op0, op, opLimit, off);
        return;
      }
    }
    if op + 8 <= bufLimit {
      CopyOn(a, src, op, op0, off, m);
      src, op := src + 8, op + 8;
    }
    ghost var was := a[..];
    IncrementalCopySlow(a, src, op, opLimit);
    StillFilled(was, a[..], op0, op, off);
    if op < opLimit { Continues(a[..], op0, op, off, m, opLimit); }
    Copied(before, a[..], op0, if op < opLimit then opLimit else op, opLimit, off);
  }

  /** Eight more bytes of the pattern. */
  method CopyOn(a: array<byte>, src: nat, op: nat, ghost from: nat, ghost off: nat, ghost m: nat)
    requires src < op && op + 8 <= a.Length && Filled(a[..], from, op, off)
    requires op - src == m * off && op - src >= 8 && m >= 1 && from - off <= src
    modifies a
    ensures Filled(a[..], from, op + 8, off) && a[..from] == old(a[..from])
    ensures forall k :: op + 8 <= k < a.Length ==> a[k] == old(a[k])
  {
    ghost var was := a[..];
    Copy64(a, src, op);
    StillFilled(was, a[..], from, op, off);
    Continues(a[..], from, op, off, m, op + 8);
  }

  lemma Copied(before: Bytes, a: Bytes, op0: nat, op: nat, opLimit: nat, off: nat)
    requires op0 <= opLimit <= op && Filled(a, op0, op, off) && a[..op0] == before
    ensures a[..opLimit] == MatchCopy(before, off, opLimit - op0)
  {
    CopyIsPeriodic(before, off, a[..opLimit]);
  }
}
