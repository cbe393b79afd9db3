/**
 The three kinds of writers that the decoder is instantiated with.  Each keeps an abstract
 output of at most the expected length, and each gives the same answers.
 */
module SnappyWriters {
  import opened Lz77
  import opened SnappyFormat
  import opened SnappyCopy

  const BLOCK := 65536  // kBlockSize

  /** Whether a copy from the output is possible. */
  predicate Copies(produced: nat, expected: nat, offset: nat, len: nat) {
    offset != 0 && offset <= produced && produced + len <= expected
  }

  // ---------- a flat array ----------

  class ArrayWriter {
    const buf: array<byte>
    var op: nat
    var opLimit: nat

    ghost predicate Valid()
      reads this
    {
      op <= opLimit <= buf.Length
    }

    ghost function Out(): Bytes
      reads this, buf
      requires Valid()
    {
      buf[..op]
    }

    constructor (dst: array<byte>)
      ensures Valid() && Out() == [] && buf == dst && op == opLimit == 0
    {
      buf, op, opLimit := dst, 0, 0;
    }

    method SetExpectedLength(len: nat)
      requires Valid() && op + len <= buf.Length
      modifies this
      ensures Valid() && op == old(op) && opLimit == op + len
    {
      opLimit := op + len;
    }

    method Append(data: Bytes) returns (ok: bool)
      requires Valid()
      modifies this`op, buf
      ensures Valid() && (ok <==> |old(Out())| + |data| <= opLimit)
      ensures Out() == if ok then old(Out()) + data else old(Out())
    {
      var spaceLeft := opLimit - op;
      if spaceLeft < |data| {
        return false;
      }
      forall k | 0 <= k < |data| {
        buf[op + k] := data[k];
      }
      op := op + |data|;
      return true;
    }

    /** Sixteen bytes at once, where source and target have them. */
    method TryFastAppend(region: Bytes, ip: nat, len: nat) returns (done: bool)
      requires Valid() && ip <= |region|
      modifies this`op, buf
      ensures Valid() && (done ==> len <= 16 && ip + 16 + MAX_TAG <= |region| && |old(Out())| + len <= opLimit)
      ensures Out() == if done then old(Out()) + region[ip..ip + len] else old(Out())
    {
      var spaceLeft := opLimit - op;
      if len <= 16 && |region| - ip >= 16 + MAX_TAG && spaceLeft >= 16 {
        ghost var before := buf[..op];
        forall k | 0 <= k < 16 {
          buf[op + k] := region[ip + k];
        }
        op := op + len;
        assert buf[..op] == before + region[ip..ip + len];
        return true;
      }
      return false;
    }

    method AppendFromSelf(offset: nat, len: nat) returns (ok: bool)
      requires Valid()
      modifies this`op, buf
      ensures Valid() && (ok <==> Copies(|old(Out())|, opLimit, offset, len))
      ensures Out() == if ok then MatchCopy(old(Out()), offset, len) else old(Out())
    {
      if offset == 0 || op <= offset - 1 || op + len > opLimit {  // zero wraps to a huge number
        return false;
      }
      IncrementalCopy(buf, op - offset, op, op + len, opLimit);
      op := op + len;
      return true;
    }
  }

  // ---------- the validator ----------

  class Validator {
    var expected: nat
    var produced: nat
    ghost var out: Bytes

    ghost predicate Valid()
      reads this
    {
      produced == |out|
    }

    constructor ()
      ensures Valid() && out == [] && expected == 0
    {
      expected, produced, out := 0, 0, [];
    }

    method Append(data: Bytes) returns (ok: bool)
      requires Valid()
      modifies this`produced, this`out
      ensures Valid() && (ok <==> |old(out)| + |data| <= expected) && out == old(out) + data
    {
      produced, out := produced + |data|, out + data;
      return produced <= expected;
    }

    method AppendFromSelf(offset: nat, len: nat) returns (ok: bool)
      requires Valid() && produced <= expected
      modifies this`produced, this`out
      ensures Valid() && (ok <==> Copies(|old(out)|, expected, offset, len))
      ensures ok ==> out == MatchCopy(old(out), offset, len)
    {
      if offset == 0 || produced <= offset - 1 {
        return false;
      }
      produced, out := produced + len, MatchCopy(out, offset, len);
      return produced <= expected;
    }
  }

  // ---------- blocks ----------

  class ScatteredWriter {
    var blocks: seq<array<byte>>
    var expected: nat
    var fullSize: nat
    var opPtr: nat
    ghost var out: Bytes

    ghost var repr: set<object>

    ghost predicate Valid()
      reads this, repr
    {
      && this in repr && (forall i :: 0 <= i < |blocks| ==> blocks[i] in repr)
      && (forall i, j :: 0 <= i < j < |blocks| ==> blocks[i] != blocks[j])
      && (blocks == [] ==> fullSize == opPtr == 0)
      && (blocks != [] ==> (
           && fullSize == BLOCK * (|blocks| - 1) && fullSize <= expected
           && Last().Length == (if expected - fullSize < BLOCK then expected - fullSize else BLOCK)
           && opPtr <= Last().Length))
      && (forall i :: 0 <= i < |blocks| - 1 ==> blocks[i].Length == BLOCK)
      && |out| == fullSize + opPtr <= expected
      && (forall k :: 0 <= k < |out| ==> k / BLOCK < |blocks| && k % BLOCK < blocks[k / BLOCK].Length)
      && (forall k :: 0 <= k < |out| ==> out[k] == blocks[k / BLOCK][k % BLOCK])
    }

    function Last(): array<byte>
      reads this
      requires blocks != []
    {
      blocks[|blocks| - 1]
    }

    function OpLimit(): nat
      reads this
    {
      if blocks == [] then 0 else Last().Length
    }

    constructor (expected: nat)
      ensures Valid() && out == [] && this.expected == expected && fresh(repr)
    {
      this.expected := expected;
      blocks, fullSize, opPtr, out, repr := [], 0, 0, [], {this};
    }

    /** What lies behind the output in the current block belongs where it lies. */
    lemma Longer(n: nat)
      requires Valid() && blocks != [] && opPtr + n <= Last().Length
      ensures var o := out + Last()[opPtr..opPtr + n];
        forall k :: 0 <= k < |o| ==> k / BLOCK < |blocks| && k % BLOCK < blocks[k / BLOCK].Length && o[k] == blocks[k / BLOCK][k % BLOCK]
    {
    }

    /** The next `n` bytes of the current block have been written. */
    method Advance(n: nat)
      requires Valid() && blocks != [] && opPtr + n <= Last().Length
      modifies this`opPtr, this`out
      ensures Valid() && opPtr == old(opPtr) + n && out == old(out) + Last()[old(opPtr)..opPtr]
    {
      Longer(n);
      out := out + Last()[opPtr..opPtr + n];
      opPtr := opPtr + n;
    }

    /** Some bytes into the current block, which has room for them. */
    method Fill(data: Bytes)
      requires Valid() && blocks != [] && opPtr + |data| <= Last().Length
      modifies this`opPtr, this`out, Last()
      ensures Valid() && out == old(out) + data && opPtr == old(opPtr) + |data|
    {
      var last := Last();
      forall k | 0 <= k < |data| {
        last[opPtr + k] := data[k];
      }
      assert last[opPtr..opPtr + |data|] == data;
      Advance(|data|);
    }

    /** The next block, when the current one is full. */
    method NewBlock()
      requires Valid() && opPtr == OpLimit() && |out| < expected && (blocks != [] ==> opPtr == BLOCK)
      modifies this
      ensures Valid() && out == old(out) && expected == old(expected) && blocks != [] && opPtr == 0
      ensures Last().Length == if expected - |out| < BLOCK then expected - |out| else BLOCK
      ensures |blocks| == |old(blocks)| + 1 && blocks[..|blocks| - 1] == old(blocks) && fresh(Last()) && repr == old(repr) + {Last()}
    {
      fullSize := fullSize + opPtr;
      var bsize := if expected - fullSize < BLOCK then expected - fullSize else BLOCK;
      var b := new byte[bsize](_ => 0);
      blocks, opPtr, repr := blocks + [b], 0, repr + {b};
    }

    method Append(data: Bytes) returns (ok: bool)
      requires Valid()
      modifies repr
      ensures Valid() && expected == old(expected) && fresh(repr - old(repr))
      ensures ok <==> |old(out)| + |data| <= expected
      ensures ok ==> out == old(out) + data
    {
      var avail := OpLimit() - opPtr;
      if |data| <= avail {
        if data != [] {
          Fill(data);
        } else {
          assert out + [] == out;
        }
        return true;
      }
      ok := SlowAppend(data);
    }

    /** What the invariant says of the current block. */
    lemma Current()
      requires Valid()
      ensures |out| == fullSize + opPtr <= expected && opPtr <= OpLimit() && this in repr
      ensures blocks != [] ==> Last() in repr && OpLimit() == if expected - fullSize < BLOCK then expected - fullSize else BLOCK
    {}

    method SlowAppend(data: Bytes) returns (ok: bool)
      requires Valid() && OpLimit() - opPtr < |data|
      modifies repr
      ensures Valid() && expected == old(expected) && fresh(repr - old(repr))
      ensures ok <==> |old(out)| + |data| <= expected
      ensures ok ==> out == old(out) + data
    {
      hide Valid;
      var ip := 0;
      var avail := OpLimit() - opPtr;
      Current();
      while |data| - ip > avail
        invariant 0 <= ip <= |data| && Valid() && expected == old(expected) && fresh(repr - old(repr))
        invariant out == old(out) + data[..ip] && 0 <= avail == OpLimit() - opPtr
        decreases |data| - ip, avail == 0
      {
        ok := Overflow(data[ip..]);
        Current();
        if !ok {
          return;
        }
        assert data[..ip] + data[ip..][..avail] == data[..ip + avail];
        ip := ip + avail;
        avail := OpLimit();
      }
      assert data[..ip] + data[ip..] == data;
      Current();
      if ip < |data| {
        Fill(data[ip..]);
      }
      return true;
    }

    /** Use up the current block, and take the next one if what is left over fits. */
    method Overflow(data: Bytes) returns (ok: bool)
      requires Valid() && OpLimit() - opPtr < |data|
      modifies repr
      ensures Valid() && expected == old(expected) && fresh(repr - old(repr))
      ensures ok <==> |old(out)| + |data| <= expected
      ensures ok ==> out == old(out) + data[..old(OpLimit() - opPtr)] && opPtr == 0 < OpLimit()
    {
      hide Valid;
      Current();
      var avail := OpLimit() - opPtr;
      assert data[..0] == [] && out + [] == out;
      if avail > 0 {
        Fill(data[..avail]);
        Current();
      }
      if fullSize + opPtr + (|data| - avail) > expected {
        return false;
      }
      NewBlock();
      return true;
    }

    method TryFastAppend(region: Bytes, ip: nat, len: nat) returns (done: bool)
      requires Valid() && ip <= |region|
      modifies repr
      ensures Valid() && expected == old(expected) && repr == old(repr)
      ensures done ==> len <= 16 && ip + 16 + MAX_TAG <= |region| && out == old(out) + region[ip..ip + len]
      ensures !done ==> out == old(out)
    {
      var spaceLeft := OpLimit() - opPtr;
      if len <= 16 && |region| - ip >= 16 + MAX_TAG && spaceLeft >= 16 {
        var last := Last();
        forall k | 0 <= k < 16 {
          last[opPtr + k] := region[ip + k];
        }
        assert last[opPtr..opPtr + len] == region[ip..ip + len];
        Advance(len);
        return true;
      }
      return false;
    }

    method AppendFromSelf(offset: nat, len: nat) returns (ok: bool)
      requires Valid()
      modifies repr
      ensures Valid() && expected == old(expected) && fresh(repr - old(repr))
      ensures ok <==> Copies(|old(out)|, expected, offset, len)
      ensures ok ==> out == MatchCopy(old(out), offset, len)
    {
      if offset != 0 && offset - 1 < opPtr && opPtr + len <= OpLimit() {
        CopyInBlock(offset, len);
        return true;
      }
      ok := SlowAppendFromSelf(offset, len);
    }

    /** Source and target in the current block. */
    method CopyInBlock(offset: nat, len: nat)
      requires Valid() && 1 <= offset <= opPtr && opPtr + len <= OpLimit()
      modifies this`opPtr, this`out, Last()
      ensures Valid() && out == MatchCopy(old(out), offset, len)
    {
      hide Valid, MatchCopy;
      InBlock();
      ghost var pre, here := Before(), Last()[..opPtr];
      CopyOver(offset, len);
      InBlockCopy(pre, here, offset, len, Last()[..opPtr + len]);
      assert Last()[..opPtr + len][opPtr..] == Last()[opPtr..opPtr + len];
      Advance(len);
    }

    ghost function Before(): Bytes
      reads this
      requires fullSize <= |out|
    {
      out[..fullSize]
    }

    /** The copy itself, into the unused part of the block. */
    method CopyOver(offset: nat, len: nat)
      requires Valid() && 1 <= offset <= opPtr && opPtr + len <= OpLimit()
      modifies Last()
      ensures Valid() && Last()[..opPtr + len] == MatchCopy(old(Last()[..opPtr]), offset, len)
    {
      var last := Last();
      ghost var here := last[..opPtr];
      IncrementalCopy(last, opPtr - offset, opPtr, opPtr + len, OpLimit());
      CopyExtends(here, offset, len);
      assert forall k :: 0 <= k < opPtr ==> last[k] == last[..opPtr + len][..opPtr][k] == here[k];
    }

    lemma InBlock()
      requires Valid() && blocks != []
      ensures fullSize <= |out| && out == Before() + Last()[..opPtr]
    {
    }

    /** Where the byte at a place of the output lies. */
    lemma Located(k: nat)
      requires Valid() && k < |out|
      ensures k / BLOCK < |blocks| && k % BLOCK < blocks[k / BLOCK].Length && out[k] == blocks[k / BLOCK][k % BLOCK]
    {}

    method SlowAppendFromSelf(offset: nat, len0: nat) returns (ok: bool)
      requires Valid()
      modifies repr
      ensures Valid() && expected == old(expected) && fresh(repr - old(repr))
      ensures ok <==> Copies(|old(out)|, expected, offset, len0)
      ensures ok ==> out == MatchCopy(old(out), offset, len0)
    {
      hide Valid;
      Current();
      var cur := fullSize + opPtr;
      if offset == 0 || offset - 1 >= cur {
        return false;
      }
      if expected - cur < len0 {
        return false;
      }
      var src, len := cur - offset, len0;
      while len > 0
        invariant Valid() && expected == old(expected) && fresh(repr - old(repr))
        invariant 0 <= len && |out| + len == |old(out)| + len0 && src == |out| - offset
        invariant MatchCopy(out, offset, len) == MatchCopy(old(out), offset, len0)
      {
        Current();
        Located(src);
        var c := blocks[src / BLOCK][src % BLOCK];
        var fits := Append([c]);
        src, len := src + 1, len - 1;
      }
      return true;
    }

    /** The blocks one after another, cut off at what has been produced. */
    method Flush() returns (sink: Bytes)
      requires Valid()
      ensures sink == out
    {
      sink := [];
      var i := 0;
      while i < |blocks|
        invariant i <= |blocks| && sink == out[..if BLOCK * i < |out| then BLOCK * i else |out|]
      {
        var blockSize := if blocks[i].Length < fullSize + opPtr - |sink| then blocks[i].Length else fullSize + opPtr - |sink|;
        ghost var was := sink;
        sink := sink + blocks[i][..blockSize];
        i := i + 1;
      }
    }
  }

  lemma InBlockCopy(pre: Bytes, here: Bytes, offset: nat, len: nat, r: Bytes)
    requires 1 <= offset <= |here| && r == MatchCopy(here, offset, len)
    ensures r[..|here|] == here && pre + here + r[|here|..] == MatchCopy(pre + here, offset, len)
  {
    CopyExtends(here, offset, len);
    CopyBehind(pre, here, offset, len);
    assert here + r[|here|..] == r;
    assert pre + here + r[|here|..] == pre + (here + r[|here|..]);
  }

  /** A copy that stays within the end of the output does not see what is before. */
  lemma {:induction false} CopyBehind(pre: Bytes, b: Bytes, offset: nat, len: nat)
    requires 1 <= offset <= |b|
    ensures MatchCopy(pre + b, offset, len) == pre + MatchCopy(b, offset, len)
    decreases len
  {
    if len > 0 {
      var x := b[|b| - offset];
      assert (pre + b)[|pre + b| - offset] == x;
      assert pre + b + [x] == pre + (b + [x]);
      CopyBehind(pre, b + [x], offset, len - 1);
    }
  }
}
