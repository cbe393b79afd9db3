/**
 Snappy's decoding in terms of bytes alone: what each kind of tag, written out, does, and
 which lengths in front are read.
 */
module SnappyLaws {
  import opened Powers
  import opened Lz77
  import opened SnappyFormat

  /** A copy, or the refusal of one that reaches too far back or too far on. */
  ghost function Copied(rest: Bytes, offset: nat, len: nat, o: Bytes, e: nat): Outcome {
    if 0 < offset <= |o| && |o| + len <= e then Decode(rest, MatchCopy(o, offset, len), e) else Reject
  }

  lemma Limits()
    ensures Limit(1) == 256 && Limit(2) == 65536 && Limit(3) == 0x100_0000 && Limit(4) == TWO32
  {
    assert Limit(3) == 256 * Limit(2);
  }

  /** The tag byte and the bytes behind it, taken apart. */
  lemma Front(c: byte, arg: Bytes, rest: Bytes, o: Bytes, e: nat)
    requires |arg| == Extra(c)
    ensures Decode([c] + arg + rest, o, e) ==
      if c % 4 == 0 then Literal(rest, LiteralLength(c, Number(arg)), o, e)
      else Copied(rest, CopyOffset(c, Number(arg)), CopyLength(c), o, e)
  {
    hide Extra, LiteralLength, CopyOffset, CopyLength, Number;
    var s := [c] + arg + rest;
    assert s[0] == c && s[1..1 + |arg|] == arg && s[1 + |arg|..] == rest;
  }

  lemma WideTag(len: nat, offset: nat)
    requires 1 <= len <= 64
    ensures var c: byte := 4 * (len - 1) + 3;
      c % 4 == 3 && Extra(c) == 4 && CopyLength(c) == len && CopyOffset(c, offset) == offset
    ensures var c: byte := 4 * (len - 1) + 2;
      c % 4 == 2 && Extra(c) == 2 && CopyLength(c) == len && CopyOffset(c, offset) == offset
  {}

  /** A copy with four offset bytes. */
  lemma FourByteCopy(len: nat, offset: nat, rest: Bytes, o: Bytes, e: nat)
    requires 1 <= len <= 64 && offset < TWO32
    ensures Decode([4 * (len - 1) + 3] + LittleEndian(offset, 4) + rest, o, e) == Copied(rest, offset, len, o, e)
  {
    hide Extra, LiteralLength, CopyOffset, CopyLength, Decode, Copied, LittleEndian, Number, Limit;
    Limits();
    WideTag(len, offset);
    NumberRead(offset, 4);
    Front(4 * (len - 1) + 3, LittleEndian(offset, 4), rest, o, e);
  }

  /** A copy with two. */
  lemma TwoByteCopy(len: nat, offset: nat, rest: Bytes, o: Bytes, e: nat)
    requires 1 <= len <= 64 && offset < 65536
    ensures Decode([4 * (len - 1) + 2] + LittleEndian(offset, 2) + rest, o, e) == Copied(rest, offset, len, o, e)
  {
    hide Extra, LiteralLength, CopyOffset, CopyLength, Decode, Copied, LittleEndian, Number, Limit;
    Limits();
    WideTag(len, offset);
    NumberRead(offset, 2);
    Front(4 * (len - 1) + 2, LittleEndian(offset, 2), rest, o, e);
  }

  lemma OneByteTag(len: nat, offset: nat)
    requires 4 <= len <= 11 && offset < 2048
    ensures var c: byte := 32 * (offset / 256) + 4 * (len - 4) + 1;
      c % 4 == 1 && Extra(c) == 1 && CopyLength(c) == len && CopyOffset(c, offset % 256) == offset
  {
    var c: byte := 32 * (offset / 256) + 4 * (len - 4) + 1;
    assert c / 4 == 8 * (offset / 256) + (len - 4) && c % 4 == 1;
    assert c / 32 == offset / 256 && c / 4 % 8 == len - 4;
  }

  /** A copy with one, and three more bits in the tag. */
  lemma OneByteCopy(len: nat, offset: nat, rest: Bytes, o: Bytes, e: nat)
    requires 4 <= len <= 11 && offset < 2048
    ensures Decode([32 * (offset / 256) + 4 * (len - 4) + 1] + [offset % 256] + rest, o, e) == Copied(rest, offset, len, o, e)
  {
    hide Extra, LiteralLength, CopyOffset, CopyLength, Decode, Copied;
    OneByteTag(len, offset);
    assert Number([offset % 256]) == offset % 256;
    Front(32 * (offset / 256) + 4 * (len - 4) + 1, [offset % 256], rest, o, e);
  }

  /** A literal with its length in the tag. */
  lemma ShortLiteral(data: Bytes, rest: Bytes, o: Bytes, e: nat)
    requires 1 <= |data| <= 60
    ensures Decode([4 * (|data| - 1)] + data + rest, o, e) == if |o| + |data| <= e then Decode(rest, o + data, e) else Reject
  {
    var c: byte := 4 * (|data| - 1);
    Front(c, [], data + rest, o, e);
    assert [c] + [] + (data + rest) == [c] + data + rest;
    assert (data + rest)[..|data|] == data && (data + rest)[|data|..] == rest;
  }

  lemma LiteralTaken(data: Bytes, rest: Bytes, o: Bytes, e: nat)
    ensures Literal(data + rest, |data|, o, e) == if |o| + |data| <= e then Decode(rest, o + data, e) else Reject
    ensures Literal(data + rest, 0, o, e) == if |o| <= e then Decode(data + rest, o, e) else Reject
  {
    assert (data + rest)[..|data|] == data && (data + rest)[|data|..] == rest;
    assert (data + rest)[0..] == data + rest && o + (data + rest)[..0] == o;
  }

  lemma LongTag(k: nat, n: nat)
    requires 1 <= k <= 4 && 1 <= n <= Limit(k)
    ensures var c: byte := 4 * (59 + k);
      c % 4 == 0 && Extra(c) == k && LiteralLength(c, n - 1) == if n == TWO32 then 0 else n
  {
    Limits();
    assert Limit(k) <= TWO32;
  }

  /** A literal with its length in the `k` bytes behind the tag; the length 2 to the 32 wraps to nothing. */
  lemma LongLiteral(k: nat, data: Bytes, rest: Bytes, o: Bytes, e: nat)
    requires 1 <= k <= 4 && 1 <= |data| <= Limit(k)
    ensures Decode([4 * (59 + k)] + LittleEndian(|data| - 1, k) + (data + rest), o, e) ==
      if |data| == TWO32 then (if |o| <= e then Decode(data + rest, o, e) else Reject)
      else if |o| + |data| <= e then Decode(rest, o + data, e)
      else Reject
  {
    hide Extra, LiteralLength, Decode, Literal, LittleEndian, Number, Limit, Copied;
    LongTag(k, |data|);
    NumberRead(|data| - 1, k);
    Front(4 * (59 + k), LittleEndian(|data| - 1, k), data + rest, o, e);
    LiteralTaken(data, rest, o, e);
  }

  // ---------- what is cut short ----------

  /** The bytes that belong to a tag besides the tag byte. */
  lemma CutTag(c: byte, part: Bytes, o: Bytes, e: nat)
    requires |part| < if c % 4 == 3 then 4 else if c % 4 == 2 then 2 else if c % 4 == 1 then 1 else if c >= 240 then c / 4 - 59 else 0
    ensures Decode([c] + part, o, e) == Reject
  {}

  lemma CutLiteral(n: nat, data: Bytes, o: Bytes, e: nat)
    requires |data| < n <= 60
    ensures Decode([4 * (n - 1)] + data, o, e) == Reject
  {
    hide Number;
    var c: byte := 4 * (n - 1);
    Front(c, [], data, o, e);
    assert [c] + [] + data == [c] + data;
  }

  // ---------- the length in front ----------

  /** Groups of seven bits, the lowest first. */
  ghost function Groups(s: Bytes): nat {
    if s == [] then 0 else s[0] % 128 + 128 * Groups(s[1..])
  }

  /** The bytes from the k-th on make up the rest of a length: the last is the first below 128, there
      are at most five in all, and the value fits 32 bits. */
  ghost predicate Ends(s: Bytes, k: nat, n: nat) {
    && k < n <= 5 && n <= |s|
    && s[n - 1] < 128
    && (forall i :: k <= i < n - 1 ==> s[i] >= 128)
    && SCALE[k] * Groups(s[k..n]) < TWO32
  }

  lemma Fits(k: nat, x: nat, g: nat)
    requires k < 4 && x < 128
    ensures SCALE[k] * (x + 128 * g) == x * SCALE[k] + SCALE[k + 1] * g
    ensures x * SCALE[k] < TWO32
    ensures SCALE[k] * (x + 128 * g) < TWO32 <==> SCALE[k + 1] * g < TWO32
  {
    match k
    case 0 => {}
    case 1 => {}
    case 2 => {}
    case 3 => {}
  }

  /** One byte of the length. */
  lemma EndsStep(s: Bytes, k: nat, n: nat)
    requires k < 5 && k < |s|
    ensures s[k] < 128 ==> (Ends(s, k, n) <==> n == k + 1 && Part(s[k], k) < TWO32)
    ensures Ends(s, k, n) && s[k] < 128 ==> SCALE[k] * Groups(s[k..n]) == Part(s[k], k)
    ensures s[k] >= 128 && k < 4 ==> Part(s[k], k) < TWO32
    ensures s[k] >= 128 ==> (Ends(s, k, n) <==> Ends(s, k + 1, n))
    ensures Ends(s, k, n) && s[k] >= 128 ==> SCALE[k] * Groups(s[k..n]) == Part(s[k], k) + SCALE[k + 1] * Groups(s[k + 1..n])
  {
    if k < n <= 5 && n <= |s| {
      assert s[k..n][1..] == s[k + 1..n];
      if n == k + 1 {
        assert SCALE[k] * Groups(s[k..n]) == Part(s[k], k);
      } else {
        Fits(k, s[k] % 128, Groups(s[k + 1..n]));
      }
    }
  }

  lemma EndsNot(s: Bytes, k: nat, n: nat)
    requires k >= 5 || k >= |s|
    ensures !Ends(s, k, n)
  {}

  lemma {:induction false} LengthFrom(s: Bytes, k: nat, acc: nat, n: nat)
    requires k <= 5 && k <= |s|
    ensures ReadLength(s, k, acc).Length? && ReadLength(s, k, acc).next == n <==> Ends(s, k, n)
    ensures Ends(s, k, n) ==> ReadLength(s, k, acc).value == acc + SCALE[k] * Groups(s[k..n])
    decreases 5 - k
  {
    hide Groups, ReadLength, Ends;
    LengthStep(s, k, acc);
    if k < 5 && k < |s| {
      EndsStep(s, k, n);
      EndsNot(s, 5, n);
      if s[k] >= 128 && Part(s[k], k) < TWO32 { LengthFrom(s, k + 1, acc + Part(s[k], k), n); }
    } else {
      EndsNot(s, k, n);
    }
  }

  /** Which lengths are read, and as what. */
  lemma LengthRead(s: Bytes, n: nat)
    ensures ReadLength(s, 0, 0).Length? && ReadLength(s, 0, 0).next == n <==> Ends(s, 0, n)
    ensures Ends(s, 0, n) ==> ReadLength(s, 0, 0).value == Groups(s[..n])
  {
    LengthFrom(s, 0, 0, n);
    if Ends(s, 0, n) { assert s[0..n] == s[..n]; }
  }
}
