/**
 `LZ4_compress_fast` and what its blocks decode to.
 */
module Lz4 {
  import opened Lz77
  import opened Lz4Format
  import opened Lz4Decompress
  import opened Lz4Compress

  const HASH_SIZE := 4096  // LZ4_HASH_SIZE_U32; twice as many 16-bit entries

  function CompressBound(n: nat): nat {
    if n > MAX_INPUT_SIZE then 0 else Bound(n)
  }

  function Clamped(acceleration: int): nat {
    if acceleration < 1 then 1 else acceleration
  }

  function TableSize(n: nat): nat {
    if n < SMALL_LIMIT then 2 * HASH_SIZE else HASH_SIZE
  }

  // ---------- what a doomed search loses ----------

  ghost function Zeros(n: nat): (r: Bytes)
    ensures |r| == n
  {
    seq(n, _ => 0)
  }

  ghost function ZeroBlock(src: Bytes, anchor: nat): Bytes
    requires anchor <= |src| && anchor >= MINMATCH
  {
    EncodeOne(Sequence([], 0, anchor)) + Head(src[anchor..], 0)
  }

  lemma ZeroOffsetDecode(src: Bytes, anchor: nat, buffer: Bytes, cap: nat)
    requires |src| >= MIN_LENGTH && anchor == |src| - LASTLITERALS
    requires Opens(buffer) && ZeroBlock(src, anchor) <= buffer && |src| <= cap
    ensures Decode(buffer, |ZeroBlock(src, anchor)|, cap) == Done(Zeros(anchor) + src[anchor..])
  {
    var x, last := Sequence([], 0, anchor), src[anchor..];
    var block, tail, zeros := ZeroBlock(src, anchor), Head(last, 0), Zeros(anchor);
    var n := |block|;
    assert buffer[0..n] == EncodeOne(x) + tail;
    assert tail == Block([], last) by { assert [] + tail == tail; }
    assert Apply([], x) == zeros by {
      assert [] + x.lits == [];
      assert zeros[..0] == [];
      CopyIsPeriodic([], 0, zeros);
    }
    assert Grow(zeros, [], |src|, RULES) == zeros;
    hide Head, EncodeOne, DecodeFrom, Apply, Block, Zeros, ZeroBlock, Tail;
    var next := DecodeStep(buffer, n, 0, [], x, tail, cap);
    DecodeBlockFrom(buffer, n, next, zeros, [], last, |src|, cap);
  }

  /** With a zero offset the block stands for zero bytes and the last five literals. */
  lemma ZeroOffsetDecodes(src: Bytes, anchor: nat)
    requires |src| >= MIN_LENGTH && anchor == |src| - LASTLITERALS
    ensures var x := Sequence([], 0, anchor);
      AllEncodable([x]) && DecodesTo(Block([x], src[anchor..]), Zeros(anchor) + src[anchor..])
  {
    var x := Sequence([], 0, anchor);
    assert Encode([x]) == EncodeOne(x) + Encode([]) == EncodeOne(x);
    var block := Block([x], src[anchor..]);
    assert block == ZeroBlock(src, anchor);
    hide Block, ZeroBlock, Decode, Zeros;
    forall buffer: Bytes, cap: nat | Opens(buffer) && block <= buffer && |src| <= cap
      ensures Decode(buffer, |block|, cap) == Done(Zeros(anchor) + src[anchor..])
    {
      ZeroOffsetDecode(src, anchor, buffer, cap);
    }
  }

  lemma DecodesOnce(block: Bytes, a: Bytes, b: Bytes)
    requires DecodesTo(block, a) && DecodesTo(block, b)
    ensures a == b
  {
    var buffer, cap: nat := block + [0, 0], |a| + |b|;
    assert Decode(buffer, |block|, cap) == Done(a);
    assert Decode(buffer, |block|, cap) == Done(b);
  }

  /** What is lost: no such input consists of zeros. */
  lemma ZerosDiffer(src: Bytes)
    requires Unrepetitive(src)
    ensures src != Zeros(|src| - LASTLITERALS) + src[|src| - LASTLITERALS..]
  {
    var z := Zeros(|src| - LASTLITERALS) + src[|src| - LASTLITERALS..];
    assert forall k :: 0 <= k < 5 ==> z[k] == 0;
    if src == z { assert Same4(src, 0, 1); }
  }

  /** The shortest input of this kind. */
  const PROBE: Bytes := [1, 2, 3, 4, 5, 6, 7, 8, 9, 10, 11, 12, 13, 14]

  // ---------- compression ----------

  lemma OnlyZeros(block: Bytes, src: Bytes)
    requires Unrepetitive(src) && DecodesTo(block, Zeros(|src| - LASTLITERALS) + src[|src| - LASTLITERALS..])
    ensures !DecodesTo(block, src)
  {
    hide DecodesTo, Zeros, Same4;
    ZerosDiffer(src);
    if DecodesTo(block, src) {
      DecodesOnce(block, src, Zeros(|src| - LASTLITERALS) + src[|src| - LASTLITERALS..]);
    }
  }

  /** How far beyond `maxOutputSize` the compressor may write. */
  ghost function Excess(n: nat, maxOutputSize: nat, acceleration: nat): nat {
    if maxOutputSize < CompressBound(n) then Slack(Charged(n, acceleration)) else 0
  }

  lemma RoomIs(n: nat, maxOutputSize: nat, acceleration: nat, size: nat)
    requires maxOutputSize + Excess(n, maxOutputSize, acceleration) <= size
    ensures n <= MAX_INPUT_SIZE ==> Room(maxOutputSize < CompressBound(n), maxOutputSize, n, Charged(n, acceleration), size)
  {}

  /** Nothing is written beyond the limit for inputs below 134664 bytes. */
  lemma NoExcess(n: nat, maxOutputSize: nat, acceleration: nat)
    requires n + 1 < SPILLING
    ensures Excess(n, maxOutputSize, acceleration) == 0
  {}

  /** `LZ4_compress_fast`.  If the acceleration survives the shift by six bits, the block
      stands for the input; on unrepetitive input, only then. */
  method CompressFast(src: Bytes, dest: array<byte>, maxOutputSize: nat, hash: Bytes -> nat,
                      acceleration: int) returns (res: nat)
    requires InTable(hash, TableSize(|src|))
    requires maxOutputSize + Excess(|src|, maxOutputSize, Clamped(acceleration)) <= dest.Length
    modifies dest
    ensures res <= maxOutputSize && res <= CompressBound(|src|)
    ensures maxOutputSize >= CompressBound(|src|) ==> (res > 0 <==> |src| <= MAX_INPUT_SIZE)
    ensures res > 0 && (StepsOn(Clamped(acceleration)) || |src| < MIN_LENGTH) ==> DecodesTo(dest[..res], src)
    ensures res > 0 && Unrepetitive(src) ==> (DecodesTo(dest[..res], src) <==> StepsOn(Clamped(acceleration)))
    ensures res > 0 && !StepsOn(Clamped(acceleration)) && Unrepetitive(src) ==>
      DecodesTo(dest[..res], Zeros(|src| - LASTLITERALS) + src[|src| - LASTLITERALS..])
    ensures res > 0 && |src| >= 14 && Uniform(src) ==> res == UniformSize(|src|)
    ensures |src| <= MAX_INPUT_SIZE && maxOutputSize < CompressBound(|src|) && Overtaken(src, Clamped(acceleration), maxOutputSize) ==>
      res == 0 && Spilled(dest[..], Lead(src) + 3 + |Extra(LongCode(src))|, Lead(src) + 3 + Written(LongCode(src)))
  {
    hide DecodesTo, Block, Parses, StepsOn, Same4, Zeros, Slack, AllEncodable, Span, Bound, Overtaken, Spilled,
      Charged, Excess, Lead, LongCode, Written;
    var table := new nat[TableSize(|src|)](_ => 0);
    RoomIs(|src|, maxOutputSize, Clamped(acceleration), dest.Length);
    var limited := maxOutputSize < CompressBound(|src|);
    ghost var xs, anchor;
    res, xs, anchor := CompressGeneric(src, dest, maxOutputSize, limited, |src| < SMALL_LIMIT, table, hash, Clamped(acceleration));
    if res > 0 {
      BlockSize(xs, src[anchor..]);
      if StepsOn(Clamped(acceleration)) || |src| < MIN_LENGTH {
        ParsedDecodes(src, xs, anchor);
      } else if Unrepetitive(src) {
        ZeroOffsetDecodes(src, anchor);
        OnlyZeros(dest[..res], src);
      }
    }
  }

  /** There and back, with the buffers a caller would use. */
  method RoundTrip(src: Bytes, hash: Bytes -> nat, acceleration: int) returns (back: array<byte>, res: int)
    requires |src| <= MAX_INPUT_SIZE && InTable(hash, TableSize(|src|))
    requires StepsOn(Clamped(acceleration)) || |src| < MIN_LENGTH
    ensures res == |src| <= back.Length && back[..res] == src
  {
    var packed := new byte[Bound(|src|)];
    var size := CompressFast(src, packed, Bound(|src|), hash, acceleration);
    back := new byte[|src|];
    assert Decode(packed[..], size, |src|) == Done(src) by {
      assert |packed[..size]| == size && packed[..size] <= packed[..];
    }
    res := Decompress(packed[..], size, back, |src|);
  }

  /** Whether one input comes back; for accelerations for which it does, `RoundTrip` says
      that every input does. */
  method Survives(hash: Bytes -> nat, acceleration: int) returns (same: bool)
    requires InTable(hash, TableSize(|PROBE|))
    ensures same <==> StepsOn(Clamped(acceleration))
  {
    hide DecodesTo, Decode, InTable, Zeros, StepsOn;
    assert Unrepetitive(PROBE);
    var src := PROBE;
    var packed := new byte[30];
    var size := CompressFast(src, packed, 30, hash, acceleration);
    ghost var out := if StepsOn(Clamped(acceleration)) then src else Zeros(9) + src[9..];
    var back := new byte[14];
    DecodesHere(packed[..], size, out);
    var res := Decompress(packed[..], size, back, 14);
    ZerosDiffer(src);
    same := res == 14 && back[..] == src;
  }

  lemma DecodesHere(buffer: Bytes, size: nat, out: Bytes)
    requires Opens(buffer) && size <= |buffer| && DecodesTo(buffer[..size], out)
    ensures Decode(buffer, size, |out|) == Done(out)
  {
    assert buffer[..size] <= buffer && |buffer[..size]| == size;
  }

  // ---------- writing beyond the limit ----------

  function SpillingInput(k: nat): (src: Bytes)
    requires k >= 1
    ensures |src| == SPILLING + 65280 * (k - 1)
  {
    seq(SPILLING + 65280 * (k - 1), _ => 0)
  }

  function SpillingLimit(k: nat): nat
    requires k >= 1
  {
    535 + 255 * (k - 1)
  }

  /** For every `k`, an input whose compression reports that it does not fit, after writing
      `k` bytes beyond the limit: `Slack` is attained. */
  method Spill(k: nat, dest: array<byte>, hash: Bytes -> nat, acceleration: int) returns (res: nat)
    requires k >= 1 && SPILLING + 65280 * (k - 1) <= MAX_INPUT_SIZE && InTable(hash, HASH_SIZE) && StepsOn(Clamped(acceleration))
    requires dest.Length == SpillingLimit(k) + k && dest[dest.Length - 1] == 0
    modifies dest
    ensures Slack(SPILLING + 65280 * (k - 1)) == k
    ensures res == 0 && dest[dest.Length - 1] == 255
  {
    hide DecodesTo, Unrepetitive, InTable, StepsOn;
    var src := SpillingInput(k);
    SpillingSizes(k, src);
    assert Charged(|src|, Clamped(acceleration)) == |src|;
    assert Overtaken(src, Clamped(acceleration), SpillingLimit(k)) by { assert OneMatch(src, Clamped(acceleration)); }
    hide Overtaken, Charged, OneMatch;
    res := CompressFast(src, dest, SpillingLimit(k), hash, acceleration);
  }

  lemma CodeParts(j: nat)
    ensures var code := SPILLING - 10 + 65280 * j; code / 256 == 525 + 255 * j
    ensures var code := SPILLING - 10 + 65280 * j - ML_MASK; code / 1020 == 132 + 64 * j && code / 255 == 528 + 256 * j
  {
    assert SPILLING - 10 + 65280 * j == 256 * (525 + 255 * j) + 255;
    assert SPILLING - 10 + 65280 * j - ML_MASK == 1020 * (132 + 64 * j) == 255 * (528 + 256 * j);
  }

  lemma SpillingSizes(k: nat, src: Bytes)
    requires k >= 1 && src == SpillingInput(k)
    ensures Uniform(src) && Slack(|src|) == k && LongCode(src) == SPILLING - 10 + 65280 * (k - 1)
    ensures LongCode(src) / 256 + 10 == SpillingLimit(k)
    ensures |Extra(LongCode(src))| == 529 + 256 * (k - 1)
    ensures 4 + Written(LongCode(src)) == SpillingLimit(k) + k
    ensures |src| >= 14 && TableSize(|src|) == HASH_SIZE && SpillingLimit(k) < Bound(|src|)
  {
    CodeParts(k - 1);
  }
}
