/**
 The data file between the recorder and the analysis: each block is preceded by its
 length, and the reader fetches every length together with the block before it.
 */
module TraceFile {
  import opened Lz77

  const HEADER := 8           // sizeof(uint64_t)

  /** OUT_LEN, for blocks of `blockSize` bytes before compression. */
  function OutLen(blockSize: nat): nat {
    blockSize + blockSize / 16 + 64 + 3 + HEADER
  }

  // ---------- the format ----------

  lemma Limit8()
    ensures Limit(8) == 0x1_0000_0000_0000_0000
  {
    assert Limit(4) == 0x1_0000_0000;
    assert Limit(6) == 0x1_0000_0000_0000;
  }

  ghost function Frame(p: Bytes): Bytes {
    LittleEndian(|p|, HEADER) + p
  }

  ghost function Frames(ps: seq<Bytes>): Bytes {
    if ps == [] then [] else Frame(ps[0]) + Frames(ps[1..])
  }

  lemma {:induction false} FramesSnoc(ps: seq<Bytes>, p: Bytes)
    ensures Frames(ps + [p]) == Frames(ps) + Frame(p)
  {
    if ps == [] {
      assert ps + [p] == [p];
      assert Frames([p]) == Frame(p) + Frames([]) == Frame(p);
    } else {
      FramesSnoc(ps[1..], p);
      assert (ps + [p])[1..] == ps[1..] + [p];
      assert Frame(ps[0]) + (Frames(ps[1..]) + Frame(p)) == Frame(ps[0]) + Frames(ps[1..]) + Frame(p);
    }
  }

  /** Each compressed block fits the reader's buffer, with the next header. */
  ghost predicate AllFit(ps: seq<Bytes>, outLen: nat) {
    forall i :: 0 <= i < |ps| ==> |ps[i]| + HEADER <= outLen
  }

  // ---------- what the reader makes of the blocks ----------

  ghost predicate EndsEmpty(ps: seq<Bytes>) {
    ps != [] && ps[|ps| - 1] == []
  }

  /** An empty block at the end is not handed over. */
  ghost function Handed(ps: seq<Bytes>): seq<Bytes> {
    if EndsEmpty(ps) then ps[..|ps| - 1] else ps
  }

  /** Behind at least two others, it makes the reader lose its way. */
  ghost predicate Astray(ps: seq<Bytes>) {
    EndsEmpty(ps) && |ps| >= 3
  }

  /** Whether the last block handed over is read without the header behind it. */
  ghost predicate Unaccompanied(ps: seq<Bytes>) {
    Handed(ps) != [] && (EndsEmpty(ps) ==> Astray(ps))
  }

  /** How many of the eight bytes that end with such a block lie in front of it. */
  ghost function InFront(ps: seq<Bytes>): nat {
    var size := if Unaccompanied(ps) then |Handed(ps)[|Handed(ps)| - 1]| else HEADER;
    if size < HEADER then HEADER - size else 0
  }

  lemma NoneEmpty(ps: seq<Bytes>)
    requires forall i :: 0 <= i < |ps| ==> ps[i] != []
    ensures Handed(ps) == ps && !Astray(ps)
    ensures (ps != [] ==> |ps[|ps| - 1]| >= HEADER) ==> InFront(ps) == 0
  {}

  // ---------- writing ----------

  class DataFile {
    var data: Bytes
    var fileOffsetEnd: nat

    constructor ()
      ensures data == [] && fileOffsetEnd == 0
    {
      data, fileOffsetEnd := [], 0;
    }

    /** `dump_to_file` once the block is compressed: length and block in one buffer. */
    method DumpToFile(compressed: Bytes)
      modifies this
      ensures data == old(data) + Frame(compressed) && fileOffsetEnd == old(fileOffsetEnd) + |Frame(compressed)|
    {
      var buffer := LittleEndian(|compressed|, HEADER) + compressed;
      var tsize := |compressed| + HEADER;
      data := data + buffer[..tsize];
      fileOffsetEnd := fileOffsetEnd + tsize;
    }

    /** One interval's blocks, and the offsets that the metadata file records for it. */
    method DumpAll(ps: seq<Bytes>) returns (fob: nat, foe: nat)
      requires fileOffsetEnd == |data|
      modifies this
      ensures fob == |old(data)| && foe == |data| == fileOffsetEnd && data == old(data) + Frames(ps)
    {
      hide Frames, LittleEndian;
      fob := fileOffsetEnd;
      var i := 0;
      FramesSize(ps[..0]);
      while i < |ps|
        invariant i <= |ps| && data == old(data) + Frames(ps[..i]) && fileOffsetEnd == |data|
      {
        FramesSnoc(ps[..i], ps[i]);
        assert ps[..i] + [ps[i]] == ps[..i + 1];
        DumpToFile(ps[i]);
        i := i + 1;
      }
      assert ps[..i] == ps;
      foe := fileOffsetEnd;
    }
  }

  // ---------- reading ----------

  /** The reader stands at `pos`, in front of a block whose length it already knows:
      `blockSize` covers the block and, if one follows, the next header.  Only in front of the
      first block is the header of an empty last one taken to be something that follows. */
  ghost predicate Ahead(file: Bytes, pos: nat, foe: nat, ps: seq<Bytes>, first: bool, blockSize: nat, neof: nat) {
    && ps != [] && pos <= foe <= |file| && file[pos..foe] == ps[0] + Frames(ps[1..])
    && neof == (if |ps| == 1 || (!first && |ps| == 2 && ps[1] == []) then 0 else 1) && blockSize == |ps[0]| + HEADER * neof
  }

  /** The file from a header on. */
  lemma HeaderRead(file: Bytes, pos: nat, foe: nat, ps: seq<Bytes>)
    requires ps != [] && pos <= foe <= |file| && file[pos..foe] == Frames(ps) && |ps[0]| < 0x1_0000_0000_0000_0000
    ensures pos + HEADER <= foe && Number(file[pos..pos + HEADER]) == |ps[0]|
    ensures file[pos + HEADER..foe] == ps[0] + Frames(ps[1..])
    ensures foe - pos == HEADER + |ps[0]| + |Frames(ps[1..])| && (|ps| > 1 <==> |Frames(ps[1..])| > 0)
    ensures |ps| > 1 ==> |Frames(ps[1..])| >= HEADER
  {
    hide Number, LittleEndian, Frames, Frame;
    var h := LittleEndian(|ps[0]|, HEADER);
    FramesSplit(ps);
    assert |file[pos..foe]| == foe - pos;
    assert file[pos..pos + HEADER] == file[pos..foe][..HEADER] == h;
    assert file[pos + HEADER..foe] == file[pos..foe][HEADER..];
    Limit8();
    NumberRead(|ps[0]|, HEADER);
  }

  lemma FramesSplit(ps: seq<Bytes>)
    requires ps != []
    ensures Frames(ps) == LittleEndian(|ps[0]|, HEADER) + (ps[0] + Frames(ps[1..])) && |LittleEndian(|ps[0]|, HEADER)| == HEADER
    ensures |Frames(ps[1..])| >= (if |ps| > 1 then HEADER else 0) && (|ps| == 1 ==> Frames(ps[1..]) == [])
  {
    hide LittleEndian;
    var h, rest := LittleEndian(|ps[0]|, HEADER), Frames(ps[1..]);
    assert (h + ps[0]) + rest == h + (ps[0] + rest);
    if |ps| > 1 { assert rest == Frame(ps[1]) + Frames(ps[1..][1..]); }
  }

  /** The lengths of what follows. */
  lemma FramesSize(ps: seq<Bytes>)
    ensures ps == [] ==> Frames(ps) == []
    ensures |ps| == 1 ==> |Frames(ps)| == HEADER + |ps[0]|
    ensures |ps| > 1 ==> |Frames(ps)| >= 2 * HEADER + |ps[0]|
  {
    hide LittleEndian;
    if ps != [] {
      FramesSplit(ps);
      if |ps| > 1 { FramesSplit(ps[1..]); }
    }
  }

  /** The block in front of the reader, and what follows it. */
  lemma BlockHere(file: Bytes, pos: nat, foe: nat, ps: seq<Bytes>, first: bool, blockSize: nat, neof: nat)
    requires Ahead(file, pos, foe, ps, first, blockSize, neof)
    ensures ps != [] && foe - pos == |ps[0]| + |Frames(ps[1..])|
    ensures file[pos..pos + |ps[0]|] == ps[0] && file[pos + |ps[0]|..foe] == Frames(ps[1..])
    ensures neof == (if |ps| == 1 || (!first && |ps| == 2 && ps[1] == []) then 0 else 1) && blockSize == |ps[0]| + HEADER * neof
  {
    hide Frames;
    var p, s := ps[0], file[pos..foe];
    assert |s| == foe - pos;
    assert s[..|p|] == p && s[|p|..] == Frames(ps[1..]);
    assert file[pos..pos + |p|] == s[..|p|] && file[pos + |p|..foe] == s[|p|..];
  }

  /** Reading a block with its lookahead leaves the reader in front of the next one. */
  lemma BlockRead(file: Bytes, pos: nat, foe: nat, ps: seq<Bytes>, first: bool, blockSize: nat, neof: nat, outLen: nat)
    requires Ahead(file, pos, foe, ps, first, blockSize, neof) && AllFit(ps, outLen) && outLen < 0x1_0000_0000_0000_0000
    ensures pos + blockSize <= foe && HEADER * neof <= blockSize <= outLen && AllFit(ps[1..], outLen)
    ensures file[pos..pos + blockSize][..blockSize - HEADER * neof] == ps[0]
    ensures pos + blockSize == foe <==> |ps| == 1 || (first && |ps| == 2 && ps[1] == [])
    ensures neof == 1 ==> |ps| > 1
    ensures neof == 1 ==> var next, size := pos + blockSize, |ps[1]|;
      && Number(file[pos..next][blockSize - HEADER..]) == size
      && var more := if next + size + HEADER < foe then 1 else 0;
         next < foe ==> Ahead(file, next, foe, ps[1..], false, size + HEADER * more, more)
  {
    hide Frames, Number;
    BlockHere(file, pos, foe, ps, first, blockSize, neof);
    FramesSize(ps[1..]);
    forall i | 0 <= i < |ps[1..]| ensures |ps[1..][i]| + HEADER <= outLen { assert ps[1..][i] == ps[i + 1]; }
    assert file[pos..pos + blockSize][..|ps[0]|] == file[pos..pos + |ps[0]|];
    if neof == 1 {
      NextAhead(file, pos, pos + |ps[0]|, foe, ps[1..]);
    }
  }

  /** The header behind a block, read together with it. */
  lemma NextAhead(file: Bytes, pos: nat, end: nat, foe: nat, ps: seq<Bytes>)
    requires pos <= end && ps != [] && end <= foe <= |file| && file[end..foe] == Frames(ps) && |ps[0]| < 0x1_0000_0000_0000_0000
    ensures var next, size := end + HEADER, |ps[0]|;
      && next <= foe && Number(file[pos..next][end - pos..]) == size
      && var more := if next + size + HEADER < foe then 1 else 0;
         next < foe ==> Ahead(file, next, foe, ps, false, size + HEADER * more, more)
  {
    hide Frames, Number;
    HeaderRead(file, end, foe, ps);
    FramesSize(ps[1..]);
    assert file[pos..end + HEADER][end - pos..] == file[end..end + HEADER];
    if |ps| == 2 { assert ps[1..] == [ps[1]]; }
  }

  method Fread(file: Bytes, pos: nat, n: nat, buffer: array<byte>)
    requires pos + n <= |file| && n <= buffer.Length
    modifies buffer
    ensures buffer[..n] == file[pos..pos + n]
  {
    forall k | 0 <= k < n {
      buffer[k] := file[pos + k];
    }
  }

  /** One block, and the length that is taken from the eight bytes which end it in the buffer;
      `front` says how many of them lie before the buffer, and `stray` what they then hold. */
  method ReadBlock(file: Bytes, pos: nat, blockSize: nat, neof: nat, compressed: array<byte>, stray: nat,
                   ghost foe: nat, ghost ps: seq<Bytes>, ghost first: bool)
    returns (block: Bytes, next: nat, front: nat)
    requires Ahead(file, pos, foe, ps, first, blockSize, neof) && AllFit(ps, compressed.Length)
    requires compressed.Length < 0x1_0000_0000_0000_0000
    modifies compressed
    ensures pos + blockSize <= foe && AllFit(ps[1..], compressed.Length) && block == ps[0]
    ensures pos + blockSize == foe <==> |ps| == 1 || (first && |ps| == 2 && ps[1] == [])
    ensures front == if neof == 0 && |ps[0]| < HEADER then HEADER - |ps[0]| else 0
    ensures neof == 1 && pos + blockSize < foe ==> var more := if pos + blockSize + next + HEADER < foe then 1 else 0;
      |ps| > 1 && Ahead(file, pos + blockSize, foe, ps[1..], false, next + HEADER * more, more)
  {
    BlockRead(file, pos, foe, ps, first, blockSize, neof, compressed.Length);
    AheadSize(file, pos, foe, ps, first, blockSize, neof);
    hide Ahead, Number, Frames;
    Fread(file, pos, blockSize, compressed);
    ghost var read := compressed[..blockSize];
    assert compressed[..blockSize - HEADER * neof] == read[..blockSize - HEADER * neof];
    block := compressed[..blockSize - HEADER * neof];
    if blockSize < HEADER {
      return block, stray, HEADER - blockSize;
    }
    assert compressed[blockSize - HEADER..blockSize] == read[blockSize - HEADER..];
    next, front := Number(compressed[blockSize - HEADER..blockSize]), 0;
  }

  lemma AheadSize(file: Bytes, pos: nat, foe: nat, ps: seq<Bytes>, first: bool, blockSize: nat, neof: nat)
    requires Ahead(file, pos, foe, ps, first, blockSize, neof)
    ensures ps != [] && neof <= 1 && blockSize == |ps[0]| + HEADER * neof
    ensures neof == if |ps| == 1 || (!first && |ps| == 2 && ps[1] == []) then 0 else 1
    ensures pos < foe && |ps| == 1 ==> ps[0] != []
  {
    assert |file[pos..foe]| == foe - pos;
    if |ps| == 1 { FramesSize(ps[1..]); }
  }

  /** Where the loop ends. */
  lemma Ends(ps: seq<Bytes>, done: seq<Bytes>, todo: seq<Bytes>)
    requires done + todo == ps && todo != [] && (|todo| == 1 ==> todo[0] != [])
    requires |todo| == 1 || (|todo| == 2 && todo[1] == [])
    ensures Handed(ps) == done + [todo[0]]
    ensures Astray(ps) <==> |todo| == 2 && done != []
    ensures InFront(ps) == if (|todo| == 1 || done != []) && |todo[0]| < HEADER then HEADER - |todo[0]| else 0
  {
    assert ps[|ps| - 1] == todo[|todo| - 1];
    if |todo| == 2 { assert ps[..|ps| - 1] == done + [todo[0]]; }
  }

  lemma NothingHanded(ps: seq<Bytes>)
    requires |Frames(ps)| <= HEADER
    ensures Handed(ps) == [] && !Astray(ps) && InFront(ps) == 0
  {
    FramesSize(ps);
  }

  /** The first length, and where the reader then stands. */
  lemma FirstHeader(file: Bytes, fob: nat, foe: nat, ps: seq<Bytes>, outLen: nat)
    requires fob < foe <= |file| && file[fob..foe] == Frames(ps) && AllFit(ps, outLen) && outLen < 0x1_0000_0000_0000_0000
    ensures fob + HEADER <= foe
    ensures var size := Number(file[fob..fob + HEADER]); var more := if size + HEADER < foe - fob then 1 else 0;
      Ahead(file, fob + HEADER, foe, ps, true, size + HEADER * more, more)
  {
    FramesSize(ps);
    HeaderRead(file, fob, foe, ps);
  }

  /** The block loop of `load_and_convert_file`: what is handed to the decompressor.  The model
      stops where the source goes on with a length that was not read from a header. */
  method LoadFile(file: Bytes, fob: nat, foe: nat, outLen: nat, stray: nat, ghost ps: seq<Bytes>)
    returns (blocks: seq<Bytes>, inFront: nat, astray: bool)
    requires fob <= foe <= |file| && file[fob..foe] == Frames(ps) && AllFit(ps, outLen)
    requires outLen < 0x1_0000_0000_0000_0000
    ensures blocks == Handed(ps) && inFront == InFront(ps) && (astray <==> Astray(ps))
  {
    hide Ahead, Number, Frames, AllFit, Handed, InFront, Astray;
    blocks, inFront, astray := [], 0, false;
    var filesize := foe - fob;
    assert |file[fob..foe]| == filesize;
    if filesize <= HEADER { NothingHanded(ps); }
    if filesize == 0 {
      return;
    }
    var compressed := new byte[outLen](_ => 0);
    FirstHeader(file, fob, foe, ps, outLen);
    var pos := fob;
    var blockSize: nat := Number(file[pos..pos + HEADER]);
    pos := pos + HEADER;
    var neof: nat := 0;
    if blockSize + HEADER < filesize {
      blockSize, neof := blockSize + HEADER, 1;
    }
    var totalSize := HEADER;
    ghost var todo := ps;
    while totalSize < filesize
      invariant pos == fob + totalSize && totalSize <= filesize && blocks + todo == ps
      invariant totalSize == filesize ==> inFront == InFront(ps) && !Astray(ps) && blocks == Handed(ps)
      invariant totalSize < filesize ==> inFront == 0 && AllFit(todo, outLen)
      invariant totalSize < filesize ==> Ahead(file, pos, foe, todo, blocks == [], blockSize, neof)
      decreases filesize - totalSize
    {
      ghost var done := blocks;
      AheadSize(file, pos, foe, todo, done == [], blockSize, neof);
      var block, next, front := ReadBlock(file, pos, blockSize, neof, compressed, stray, foe, todo, done == []);
      pos, totalSize, blocks := pos + blockSize, totalSize + blockSize, blocks + [block];
      if neof == 0 || totalSize == filesize { Ends(ps, done, todo); }
      todo, blockSize, inFront := todo[1..], next, front;
      if neof == 0 && totalSize < filesize {
        astray := true;
        return;
      }
      if totalSize + blockSize + HEADER < filesize {
        blockSize, neof := blockSize + HEADER, 1;
      } else {
        neof := 0;
      }
    }
  }

  /** What an interval's blocks were is what the analysis gets. */
  method WriteThenRead(f: DataFile, ps: seq<Bytes>, later: seq<Bytes>, outLen: nat, stray: nat)
    returns (blocks: seq<Bytes>, inFront: nat, astray: bool)
    requires f.fileOffsetEnd == |f.data| && AllFit(ps, outLen) && outLen < 0x1_0000_0000_0000_0000
    modifies f
    ensures blocks == Handed(ps) && inFront == InFront(ps) && (astray <==> Astray(ps))
  {
    var fob, foe := f.DumpAll(ps);
    ghost var mid := f.data;
    assert mid[fob..foe] == Frames(ps);
    var a, b := f.DumpAll(later);
    assert f.data[fob..foe] == mid[fob..foe];
    blocks, inFront, astray := LoadFile(f.data, fob, foe, outLen, stray, ps);
  }
}
