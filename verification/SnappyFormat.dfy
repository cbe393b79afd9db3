/**
 Snappy's format: the varint length, the four kinds of tags, and what any string of bytes
 decodes to.
 */
module SnappyFormat {
  import opened Powers
  import opened Lz77

  const MAX_TAG := 5  // kMaximumTagLength

  // ---------- tags ----------

  /** How many bytes follow a tag byte before the data: bits 11..13 of its table entry. */
  function Extra(c: byte): (r: nat)
    ensures r <= 4
  {
    if c % 4 == 0 then (if c / 4 < 60 then 0 else c / 4 - 59)
    else if c % 4 == 1 then 1
    else if c % 4 == 2 then 2
    else 4
  }

  /** The length of a literal; the sum of the long form wraps at 32 bits. */
  function LiteralLength(c: byte, arg: nat): nat {
    if c / 4 < 60 then c / 4 + 1 else (arg + 1) % TWO32
  }

  /** Bits 0..7 of the table entry of a copy. */
  function CopyLength(c: byte): (r: nat)
    ensures 1 <= r <= 64
  {
    if c % 4 == 1 then 4 + c / 4 % 8 else c / 4 + 1
  }

  /** Bits 8..10 of the table entry and the bytes that follow. */
  function CopyOffset(c: byte, arg: nat): nat {
    (if c % 4 == 1 then c / 32 * 256 else 0) + arg
  }

  // ---------- decoding ----------

  datatype Outcome = Accept(out: Bytes) | Reject

  /** What follows a literal tag. */
  ghost function Literal(s: Bytes, len: nat, out: Bytes, expected: nat): Outcome
    decreases |s|, 2
  {
    if |s| < len || |out| + len > expected then Reject
    else Decode(s[len..], out + s[..len], expected)
  }

  ghost function Decode(s: Bytes, out: Bytes, expected: nat): Outcome
    decreases |s|, 1
  {
    if s == [] then
      if |out| == expected then Accept(out) else Reject
    else if |s| < 1 + Extra(s[0]) then
      Reject
    else
      var c := s[0];
      var arg := Number(s[1..1 + Extra(c)]);
      var rest := s[1 + Extra(c)..];
      if c % 4 == 0 then
        Literal(rest, LiteralLength(c, arg), out, expected)
      else
        var offset, len := CopyOffset(c, arg), CopyLength(c);
        if offset == 0 || offset > |out| || |out| + len > expected then Reject
        else Decode(rest, MatchCopy(out, offset, len), expected)
  }

  /** The length that precedes the tags, seven bits a byte; at most 32 bits in all. */
  datatype Length = Length(value: nat, next: nat) | NoLength

  ghost function ReadLength(s: Bytes, k: nat, acc: nat): Length
    decreases 5 - k
  {
    if k >= 5 || k >= |s| || s[k] % 128 * SCALE[k] >= TWO32 then NoLength
    else
      var acc' := acc + s[k] % 128 * SCALE[k];
      if s[k] < 128 then Length(acc', k + 1) else ReadLength(s, k + 1, acc')
  }

  /** 2 to the power of 7 k. */
  const SCALE: seq<nat> := [1, 128, 16384, 2097152, 268435456]

  /** The contribution of the k-th byte. */
  function Part(c: byte, k: nat): nat
    requires k < 5
  {
    c as nat % 128 * SCALE[k]
  }

  lemma LengthStep(s: Bytes, k: nat, acc: nat)
    requires k <= |s|
    ensures k >= 5 || k == |s| ==> ReadLength(s, k, acc) == NoLength
    ensures k < 5 && k < |s| ==> var p := Part(s[k], k);
      ReadLength(s, k, acc) == if p >= TWO32 then NoLength else if s[k] < 128 then Length(acc + p, k + 1) else ReadLength(s, k + 1, acc + p)
  {}

  /** A whole compressed string. */
  ghost function DecodeAll(s: Bytes): Outcome {
    var l := ReadLength(s, 0, 0);
    if l.NoLength? || l.next > |s| then Reject else Decode(s[l.next..], [], l.value)
  }

  // ---------- splitting literals ----------

  /** A literal may be taken in pieces. */
  lemma LiteralPiece(s: Bytes, len: nat, out: Bytes, expected: nat, a: nat)
    requires a <= len && a <= |s|
    ensures |out| + a > expected ==> Literal(s, len, out, expected) == Reject
    ensures |out| + a <= expected ==> Literal(s, len, out, expected) == Literal(s[a..], len - a, out + s[..a], expected)
  {
    if |s| >= len {
      assert s[a..][len - a..] == s[len..];
      assert out + s[..a] + s[a..][..len - a] == out + s[..len];
    }
  }

  /** What is accepted has the expected length. */
  lemma {:induction false} AcceptedLength(s: Bytes, out: Bytes, expected: nat)
    ensures Decode(s, out, expected).Accept? ==> |Decode(s, out, expected).out| == expected
    decreases |s|
  {
    if s != [] && |s| >= 1 + Extra(s[0]) {
      var c := s[0];
      var arg, rest := Number(s[1..1 + Extra(c)]), s[1 + Extra(c)..];
      if c % 4 == 0 {
        var len := LiteralLength(c, arg);
        if |rest| >= len { AcceptedLength(rest[len..], out + rest[..len], expected); }
      } else if 0 < CopyOffset(c, arg) <= |out| {
        AcceptedLength(rest, MatchCopy(out, CopyOffset(c, arg), CopyLength(c)), expected);
      }
    }
  }
}
