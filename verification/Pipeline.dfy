/**
 From the recorder's blocks to the analysis and back: each block is compressed, written
 with its length, found again by the reader's lookahead, and decompressed.
 */
module Pipeline {
  import opened Lz77
  import Lzo = LzoFormat
  import opened LzoCompress
  import opened LzoDecompress
  import opened TraceFile

  /** One block, there and back. */
  method RoundTrip(src: Bytes, hash: Bytes -> nat) returns (back: array<byte>, res: int, outLen: nat)
    requires InTable(hash, DICT_SIZE)
    ensures res == LZO_E_OK && outLen == |src| == back.Length && back[..] == src
  {
    var packed, xs := Pack(src, hash);
    back := new byte[|src|];
    res, outLen := Decompress(packed, back, src, xs);
    assert back[..] == back[..outLen];
  }

  method Pack(src: Bytes, hash: Bytes -> nat) returns (packed: Bytes, ghost xs: seq<Sequence>)
    requires InTable(hash, DICT_SIZE)
    ensures StreamOf(packed, src, xs) && 0 < |packed| <= Lzo.Bound(|src|) && (|src| >= 4 ==> |packed| >= HEADER)
  {
    var out, dict := new byte[Lzo.Bound(|src|)], new nat[DICT_SIZE];
    var outLen;
    hide StreamOf;
    outLen, xs := Compress(src, out, dict, hash);
    packed := out[..outLen];
    LongEnough(packed, src, xs);
  }

  /** No stream is empty, and none for four bytes or more is shorter than a header. */
  lemma LongEnough(block: Bytes, src: Bytes, xs: seq<Sequence>)
    requires StreamOf(block, src, xs)
    ensures |block| > 0 && (|src| >= 4 ==> |block| >= HEADER)
  {
    var last := src[Span(xs)..];
    if xs == [] {
      assert last == src;
    } else if |src| >= 4 {
      assert |Lzo.Middle(xs, Lzo.Small(last))| >= 7;
    }
  }

  /** The compressed blocks, one for each. */
  ghost predicate PackedAs(packed: seq<Bytes>, blocks: seq<Bytes>, parses: seq<seq<Sequence>>) {
    |packed| == |blocks| == |parses| && forall i :: 0 <= i < |blocks| ==> StreamOf(packed[i], blocks[i], parses[i])
  }

  method PackAll(blocks: seq<Bytes>, hash: Bytes -> nat, ghost blockSize: nat) returns (packed: seq<Bytes>,
                 ghost parses: seq<seq<Sequence>>)
    requires InTable(hash, DICT_SIZE) && forall i :: 0 <= i < |blocks| ==> |blocks[i]| <= blockSize
    ensures PackedAs(packed, blocks, parses) && AllFit(packed, OutLen(blockSize))
    ensures forall i :: 0 <= i < |packed| ==> packed[i] != [] && (|blocks[i]| >= 4 ==> |packed[i]| >= HEADER)
  {
    packed, parses := [], [];
    var i := 0;
    hide StreamOf, InTable;
    while i < |blocks|
      invariant i <= |blocks| && |packed| == |parses| == i
      invariant forall k :: 0 <= k < i ==> StreamOf(packed[k], blocks[k], parses[k])
      invariant forall k :: 0 <= k < i ==> 0 < |packed[k]| && |packed[k]| + HEADER <= OutLen(blockSize)
      invariant forall k :: 0 <= k < i ==> (|blocks[k]| >= 4 ==> |packed[k]| >= HEADER)
    {
      var p, xs := Pack(blocks[i], hash);
      packed, parses, i := packed + [p], parses + [xs], i + 1;
    }
  }

  method UnpackAll(packed: seq<Bytes>, ghost blocks: seq<Bytes>, ghost parses: seq<seq<Sequence>>,
                   blockSize: nat) returns (loaded: seq<Bytes>)
    requires PackedAs(packed, blocks, parses) && forall i :: 0 <= i < |blocks| ==> |blocks[i]| <= blockSize
    ensures loaded == blocks
  {
    hide StreamOf;
    var uncompressed := new byte[blockSize];
    loaded := [];
    var i := 0;
    while i < |packed|
      invariant i <= |packed| && loaded == blocks[..i]
    {
      var res, newLen := Decompress(packed[i], uncompressed, blocks[i], parses[i]);
      loaded, i := loaded + [uncompressed[..newLen]], i + 1;
    }
  }

  /** The trace of a thread reaches the analysis as it was recorded. */
  method StoreAndLoad(f: DataFile, blocks: seq<Bytes>, later: seq<Bytes>, hash: Bytes -> nat, blockSize: nat, stray: nat)
    returns (loaded: seq<Bytes>, inFront: nat, astray: bool)
    requires InTable(hash, DICT_SIZE) && f.fileOffsetEnd == |f.data| && OutLen(blockSize) < 0x1_0000_0000_0000_0000
    requires forall i :: 0 <= i < |blocks| ==> |blocks[i]| <= blockSize
    modifies f
    ensures loaded == blocks && !astray
    ensures (blocks != [] ==> |blocks[|blocks| - 1]| >= 4) ==> inFront == 0
  {
    hide InTable, AllFit, OutLen, Handed, Astray, InFront, StreamOf;
    var packed, parses := PackAll(blocks, hash, blockSize);
    NoneEmpty(packed);
    var found;
    found, inFront, astray := WriteThenRead(f, packed, later, OutLen(blockSize), stray);
    loaded := UnpackAll(found, blocks, parses, blockSize);
  }
}
