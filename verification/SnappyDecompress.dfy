/**
 Snappy's decoder over a source that hands out its bytes in arbitrary regions, for any of
 the three writers.
 */
module SnappyDecompress {
  import opened Powers
  import opened Lz77
  import opened SnappyFormat
  import opened SnappyWriters

  // ---------- writers ----------

  datatype Writer = Flat(a: ArrayWriter) | Check(v: Validator) | Blocks(s: ScatteredWriter)

  ghost function Roots(w: Writer): set<object> {
    match w
    case Flat(a) => {a, a.buf}
    case Check(v) => {v}
    case Blocks(s) => {s}
  }

  ghost function Frame(w: Writer): set<object>
    reads Roots(w)
  {
    match w
    case Flat(a) => {a, a.buf}
    case Check(v) => {v}
    case Blocks(s) => s.repr
  }

  ghost predicate Ready(w: Writer)
    reads Roots(w), Frame(w)
  {
    match w
    case Flat(a) => a.Valid()
    case Check(v) => v.Valid() && v.produced <= v.expected
    case Blocks(s) => s.Valid()
  }

  ghost function Out(w: Writer): Bytes
    requires Ready(w)
    reads Roots(w), Frame(w)
  {
    match w
    case Flat(a) => a.Out()
    case Check(v) => v.out
    case Blocks(s) => s.out
  }

  ghost function Expected(w: Writer): nat
    reads Roots(w)
  {
    match w
    case Flat(a) => a.opLimit
    case Check(v) => v.expected
    case Blocks(s) => s.expected
  }

  method Append(w: Writer, data: Bytes) returns (ok: bool)
    requires Ready(w)
    modifies Frame(w)
    ensures Expected(w) == old(Expected(w)) && fresh(Frame(w) - old(Frame(w)))
    ensures ok <==> |old(Out(w))| + |data| <= Expected(w)
    ensures ok ==> Ready(w) && Out(w) == old(Out(w)) + data
  {
    match w {
      case Flat(a) => ok := a.Append(data);
      case Check(v) => ok := v.Append(data);
      case Blocks(s) => ok := s.Append(data);
    }
  }

  method TryFastAppend(w: Writer, region: Bytes, ip: nat, len: nat) returns (done: bool)
    requires Ready(w) && ip <= |region|
    modifies Frame(w)
    ensures Ready(w) && Expected(w) == old(Expected(w)) && fresh(Frame(w) - old(Frame(w)))
    ensures done ==> len <= 16 && ip + 16 + MAX_TAG <= |region| && |old(Out(w))| + len <= Expected(w)
    ensures Out(w) == if done then old(Out(w)) + region[ip..ip + len] else old(Out(w))
  {
    match w {
      case Flat(a) => done := a.TryFastAppend(region, ip, len);
      case Check(v) => done := false;
      case Blocks(s) => done := s.TryFastAppend(region, ip, len);
    }
  }

  method AppendFromSelf(w: Writer, offset: nat, len: nat) returns (ok: bool)
    requires Ready(w)
    modifies Frame(w)
    ensures Expected(w) == old(Expected(w)) && fresh(Frame(w) - old(Frame(w)))
    ensures ok <==> Copies(|old(Out(w))|, Expected(w), offset, len)
    ensures ok ==> Ready(w) && Out(w) == MatchCopy(old(Out(w)), offset, len)
  {
    match w {
      case Flat(a) => ok := a.AppendFromSelf(offset, len);
      case Check(v) => ok := v.AppendFromSelf(offset, len);
      case Blocks(s) => ok := s.AppendFromSelf(offset, len);
    }
  }

  // ---------- sources ----------

  ghost function Concat(fragments: seq<Bytes>): Bytes {
    if fragments == [] then [] else fragments[0] + Concat(fragments[1..])
  }

  /** Hands out its bytes region by region, none of them empty. */
  class Source {
    var fragments: seq<Bytes>

    ghost predicate Valid()
      reads this
    {
      forall i :: 0 <= i < |fragments| ==> fragments[i] != []
    }

    constructor (fragments: seq<Bytes>)
      requires forall i :: 0 <= i < |fragments| ==> fragments[i] != []
      ensures Valid() && this.fragments == fragments
    {
      this.fragments := fragments;
    }

    method Peek() returns (region: Bytes)
      ensures region == if fragments == [] then [] else fragments[0]
    {
      region := if fragments == [] then [] else fragments[0];
    }

    method Skip(n: nat)
      requires Valid() && (n > 0 ==> fragments != [] && n <= |fragments[0]|)
      modifies this
      ensures Valid() && Concat(old(fragments)) == (if n > 0 then old(fragments)[0][..n] else []) + Concat(fragments)
      ensures n > 0 && n == |old(fragments)[0]| ==> fragments == old(fragments)[1..]
    {
      if n == 0 {
        return;
      }
      ghost var f, rest := fragments[0], fragments[1..];
      assert f == f[..n] + f[n..];
      if n == |fragments[0]| {
        fragments := fragments[1..];
      } else {
        fragments := [fragments[0][n..]] + fragments[1..];
        assert fragments[1..] == rest;
        assert f[..n] + (f[n..] + Concat(rest)) == f + Concat(rest);
      }
    }
  }

  // ---------- the decoder ----------

  class Decompressor {
    const source: Source
    var region: Bytes     // what ip_limit_ bounds: a region of the source, or the scratch buffer
    var ip: nat
    var peeked: nat
    var eof: bool

    ghost predicate Valid()
      reads this, source
    {
      source.Valid() && ip <= |region| && (peeked > 0 ==> source.fragments != [] && peeked == |source.fragments[0]|)
    }

    /** The writer shares nothing with the decoder. */
    ghost predicate Apart(w: Writer)
      reads Roots(w)
    {
      this !in Roots(w) && source !in Roots(w) && this !in Frame(w) && source !in Frame(w)
    }

    /** The region holds the next tag with all its extra bytes. */
    ghost predicate HasTag()
      reads this
    {
      ip < |region| && ip + 1 + Extra(region[ip]) <= |region|
    }

    /** The input that has not been consumed. */
    ghost function Remaining(): Bytes
      reads this, source
      requires Valid()
    {
      region[ip..] + Later()
    }

    /** What the source holds behind the region. */
    ghost function Later(): Bytes
      reads this, source
      requires Valid()
    {
      Concat(if peeked > 0 then source.fragments[1..] else source.fragments)
    }

    constructor (source: Source)
      requires source.Valid()
      ensures Valid() && this.source == source && Remaining() == Concat(source.fragments) && !eof && region == [] && peeked == 0
    {
      this.source, region, ip, peeked, eof := source, [], 0, 0, false;
    }

    /** `ReadUncompressedLength`, straight from the source. */
    method ReadUncompressedLength() returns (ok: bool, result: nat)
      requires Valid() && region == [] && peeked == 0
      modifies source
      ensures Valid()
      ensures var l := ReadLength(old(Remaining()), 0, 0);
        ok <==> l.Length? && l.next <= |old(Remaining())|
      ensures ok ==> var l := ReadLength(old(Remaining()), 0, 0); result == l.value && Remaining() == old(Remaining())[l.next..]
    {
      hide Valid, Remaining, ReadLength, Part;
      ghost var s := Remaining();
      result := 0;
      var k: nat := 0;  // shift == 7 * k
      while true
        invariant Valid() && region == [] && peeked == 0 && k <= |s| && s[k..] == Remaining() && k <= 5
        invariant ReadLength(s, k, result) == ReadLength(s, 0, 0)
        decreases 5 - k
      {
        LengthStep(s, k, result);
        if 7 * k >= 32 {
          return false, 0;
        }
        var some, c := NextByte();
        if !some {
          return false, 0;
        }
        FirstRead(s, k, c, Remaining());
        if Part(c, k) >= TWO32 {
          return false, 0;
        }
        result := result + Part(c, k);
        k := k + 1;
        if c < 128 {
          return true, result;
        }
      }
    }

    /** One byte of the source. */
    method NextByte() returns (some: bool, c: byte)
      requires Valid() && region == [] && peeked == 0
      modifies source
      ensures Valid() && (some <==> old(Remaining()) != [])
      ensures if some then old(Remaining()) == [c] + Remaining() else old(Remaining()) == []
    {
      var front := source.Peek();
      if front == [] {
        assert source.fragments == [];
        return false, 0;
      }
      c := front[0];
      ghost var was := source.fragments;
      source.Skip(1);
      assert was[0][..1] == [c];
      assert Concat(was) == [] + Concat(was) && Concat(source.fragments) == [] + Concat(source.fragments);
      return true, c;
    }

    /** Everything buffered is used up: turn to the source's next region. */
    method NextRegion()
      requires Valid() && ip == |region|
      modifies this`region, this`ip, this`peeked, source
      ensures Valid() && Remaining() == old(Remaining()) && ip == 0 && (region == [] <==> Remaining() == [])
    {
      assert region[ip..] == [];
      DropPeeked();
      region := source.Peek();
      ip, peeked := 0, |region|;
      assert region[0..] == region;
    }

    /** `reader_->Skip(peeked_)`, with what is left of the region in hand. */
    method DropPeeked()
      requires Valid()
      modifies this`peeked, source
      ensures Valid() && peeked == 0 && Remaining() == old(Remaining())
    {
      source.Skip(peeked);
      peeked := 0;
    }

    /** `RefillTag`: false at the end of the input, or in the middle of a tag. */
    method RefillTag() returns (ok: bool)
      requires Valid() && !eof
      modifies this`region, this`ip, this`peeked, this`eof, source
      ensures Valid() && (ok ==> HasTag() && Remaining() == old(Remaining())) && (eof <==> old(Remaining()) == []) && (ok ==> !eof)
      ensures !ok ==> eof || 0 < |old(Remaining())| < 1 + Extra(old(Remaining())[0])
    {
      ghost var s := Remaining();
      if ip == |region| {
        NextRegion();
        eof := region == [];
        if eof {
          return false;
        }
      }
      var c := region[ip];
      var needed := Extra(c) + 1;
      var nbuf := |region| - ip;
      assert s[0] == c;
      if nbuf < needed {
        ok := Stitch(needed);
      } else if nbuf < MAX_TAG {
        DropPeeked();
        region, ip := region[ip..], 0;
        ok := true;
      } else {
        ok := true;
      }
    }

    /** Collect the bytes of a tag in the scratch buffer. */
    method Stitch(needed: nat) returns (ok: bool)
      requires Valid() && |region| - ip < needed <= MAX_TAG
      modifies this`region, this`ip, this`peeked, source
      ensures Valid() && (ok <==> |old(Remaining())| >= needed)
      ensures ok ==> ip == 0 && |region| == needed && Remaining() == old(Remaining())
    {
      ghost var s := Remaining();
      DropPeeked();
      region, ip := region[ip..], 0;
      while |region| < needed
        invariant Valid() && ip == 0 && peeked == 0 && |region| <= needed && Remaining() == s
        decreases needed - |region|
      {
        var front := source.Peek();
        if front == [] {
          assert Remaining() == region;
          return false;
        }
        var toAdd := if needed - |region| < |front| then needed - |region| else |front|;
        ghost var rest := Concat(source.fragments);
        source.Skip(toAdd);
        assert region + rest == region + front[..toAdd] + Concat(source.fragments);
        region := region + front[..toAdd];
      }
      return true;
    }

    /** The data of a literal, region by region. */
    method AppendLiteral(w: Writer, length: nat) returns (ok: bool)
      requires Valid() && Ready(w) && Apart(w)
      modifies this`region, this`ip, this`peeked, source, Frame(w)
      ensures Valid() && Expected(w) == old(Expected(w)) && fresh(Frame(w) - old(Frame(w)))
      ensures !ok ==> Literal(old(Remaining()), length, old(Out(w)), Expected(w)) == Reject
      ensures ok ==> Ready(w) && |Remaining()| <= |old(Remaining())|
      ensures ok ==> Literal(old(Remaining()), length, old(Out(w)), Expected(w)) == Decode(Remaining(), Out(w), Expected(w))
    {
      hide Literal, Decode, Valid, Remaining, Out;
      ghost var lit := Literal(Remaining(), length, Out(w), Expected(w));
      var left: nat := length;
      InRegion();
      while |region| - ip < left
        invariant Valid() && Ready(w) && Apart(w) && Expected(w) == old(Expected(w)) && fresh(Frame(w) - old(Frame(w)))
        invariant Literal(Remaining(), left, Out(w), Expected(w)) == lit && |Remaining()| <= |old(Remaining())|
        invariant ip <= |region|
        decreases left, |region| == ip
      {
        var n := |region| - ip;
        ok := AppendPart(w, n, left);
        if !ok {
          return;
        }
        left := left - n;
        NextRegion();
        InRegion();
        if region == [] {
          TooShort(Remaining(), left, Out(w), Expected(w));
          return false;
        }
      }
      ok := AppendPart(w, left, left);
      if !ok {
        return;
      }
      NoneLeft(Remaining(), Out(w), Expected(w));
    }

    /** The first `n` bytes of what is buffered, as part of a literal of which `left` remain. */
    method AppendPart(w: Writer, n: nat, left: nat) returns (ok: bool)
      requires Valid() && Ready(w) && Apart(w) && n <= left && ip + n <= |region|
      modifies this`ip, Frame(w)
      ensures Valid() && Apart(w) && Expected(w) == old(Expected(w)) && fresh(Frame(w) - old(Frame(w)))
      ensures !ok ==> Literal(old(Remaining()), left, old(Out(w)), Expected(w)) == Reject
      ensures ok ==> Ready(w) && |Out(w)| <= Expected(w) && ip == old(ip) + n && |Remaining()| <= |old(Remaining())|
      ensures ok ==> Literal(old(Remaining()), left, old(Out(w)), Expected(w)) == Literal(Remaining(), left - n, Out(w), Expected(w))
    {
      hide Literal, Decode, Ready, Out, Expected, Frame;
      Pieces(n);
      LiteralPiece(Remaining(), left, Out(w), Expected(w), n);
      ok := Append(w, region[ip..ip + n]);
      if ok {
        ip := ip + n;
      }
    }

    lemma InRegion()
      requires Valid()
      ensures ip <= |region|
    {}

    lemma Pieces(n: nat)
      requires Valid() && ip + n <= |region|
      ensures n <= |Remaining()| && Remaining()[..n] == region[ip..ip + n]
      ensures Remaining()[n..] == region[ip + n..] + Later()
    {}

    /** `MAYBE_REFILL` */
    method MaybeRefill() returns (ok: bool)
      requires Valid() && !eof
      modifies this`region, this`ip, this`peeked, this`eof, source
      ensures Valid() && (ok ==> HasTag() && Remaining() == old(Remaining()) && !eof)
      ensures !ok ==> (eof <==> old(Remaining()) == []) && (eof || 0 < |old(Remaining())| < 1 + Extra(old(Remaining())[0]))
    {
      ok := true;
      if |region| - ip < MAX_TAG {
        ok := RefillTag();
      }
    }

    /** A literal: its length, and its data. */
    method DoLiteral(w: Writer, c: byte) returns (ok: bool)
      requires Valid() && HasTag() && region[ip] == c && c % 4 == 0 && Ready(w) && Apart(w)
      modifies this`region, this`ip, this`peeked, source, Frame(w)
      ensures Valid() && Expected(w) == old(Expected(w)) && fresh(Frame(w) - old(Frame(w)))
      ensures !ok ==> Decode(old(Remaining()), old(Out(w)), Expected(w)) == Reject
      ensures ok ==> Ready(w) && |Remaining()| < |old(Remaining())|
      ensures ok ==> Decode(old(Remaining()), old(Out(w)), Expected(w)) == Decode(Remaining(), Out(w), Expected(w))
    {
      hide Literal, Decode, Out, Concat;
      var literalLength := c / 4 + 1;
      var extra := Extra(c);
      LiteralUnfold(Remaining(), region, ip, Later(), Out(w), Expected(w));
      ip := ip + 1;
      if literalLength >= 61 {
        literalLength := (Number(region[ip..ip + extra]) + 1) % TWO32;
        ip := ip + extra;
      }
      ok := AppendLiteral(w, literalLength);
    }

    /** A copy: its length, its offset. */
    method DoCopy(w: Writer, c: byte) returns (ok: bool)
      requires Valid() && HasTag() && region[ip] == c && c % 4 != 0 && Ready(w) && Apart(w)
      modifies this`ip, Frame(w)
      ensures Valid() && Expected(w) == old(Expected(w)) && fresh(Frame(w) - old(Frame(w)))
      ensures !ok ==> Decode(old(Remaining()), old(Out(w)), Expected(w)) == Reject
      ensures ok ==> Ready(w) && |Remaining()| < |old(Remaining())|
      ensures ok ==> Decode(old(Remaining()), old(Out(w)), Expected(w)) == Decode(Remaining(), Out(w), Expected(w))
    {
      hide Decode, Out, Concat, Copies, MatchCopy, CopyOffset, CopyLength, Number, Extra;
      CopyUnfold(Remaining(), region, ip, Later(), Out(w), Expected(w));
      var trailer := Trailer(c);
      ok := AppendFromSelf(w, CopyOffset(c, trailer), CopyLength(c));
    }

    /** The bytes behind the tag of a copy, as a number. */
    method Trailer(c: byte) returns (trailer: nat)
      requires Valid() && HasTag() && region[ip] == c
      modifies this`ip
      ensures Valid() && ip == old(ip) + 1 + Extra(c) && trailer == Number(region[old(ip) + 1..ip])
      ensures Remaining() == region[ip..] + old(Later()) && |Remaining()| < |old(Remaining())|
    {
      var extra := Extra(c);
      ip := ip + 1;
      trailer := Number(region[ip..ip + extra]);
      ip := ip + extra;
    }

    /** `TryFastAppend` for a short literal that lies in the region with room behind it. */
    method FastLiteral(w: Writer, c: byte) returns (done: bool)
      requires Valid() && HasTag() && region[ip] == c && c % 4 == 0 && Ready(w) && Apart(w)
      modifies this`ip, Frame(w)
      ensures Valid() && HasTag() && Ready(w) && Expected(w) == old(Expected(w)) && fresh(Frame(w) - old(Frame(w)))
      ensures done ==> |Remaining()| < |old(Remaining())|
      ensures done ==> Decode(old(Remaining()), old(Out(w)), Expected(w)) == Decode(Remaining(), Out(w), Expected(w))
      ensures !done ==> ip == old(ip) && Remaining() == old(Remaining()) && Out(w) == old(Out(w))
    {
      hide Literal, Decode, Ready, Out, Expected, Frame, Concat;
      ghost var later, out := Later(), Out(w);
      var len := c as nat / 4 + 1;
      done := TryFastAppend(w, region, ip + 1, len);
      if done {
        FastUnfold(region, ip, later, len, out, Expected(w));
        ip := ip + 1 + len;
      }
    }

    /** `DecompressAllTags`: to the end of the input, or to the first error. */
    method DecompressAllTags(w: Writer)
      requires Valid() && Ready(w) && Apart(w) && !eof
      modifies this`region, this`ip, this`peeked, this`eof, source, Frame(w)
      ensures Expected(w) == old(Expected(w)) && fresh(Frame(w) - old(Frame(w)))
      ensures eof ==> Ready(w)
      ensures eof ==> Decode(old(Remaining()), old(Out(w)), Expected(w)) == if |Out(w)| == Expected(w) then Accept(Out(w)) else Reject
      ensures !eof ==> Decode(old(Remaining()), old(Out(w)), Expected(w)) == Reject
    {
      hide Decode, Valid, Remaining, HasTag;
      ghost var o := Decode(Remaining(), Out(w), Expected(w));
      var ok := MaybeRefill();
      if !ok {
        DecodeEnd(old(Remaining()), Out(w), Expected(w));
        return;
      }
      var more := true;
      while more
        invariant more ==> Valid() && HasTag() && !eof && Ready(w) && Apart(w) && Decode(Remaining(), Out(w), Expected(w)) == o
        invariant !more && !eof ==> o == Reject
        invariant !more && eof ==> Ready(w) && o == if |Out(w)| == Expected(w) then Accept(Out(w)) else Reject
        invariant Expected(w) == old(Expected(w)) && fresh(Frame(w) - old(Frame(w)))
        decreases more, if more then |Remaining()| else 0
      {
        more := Item(w);
      }
    }

    /** One literal or copy, and the search for the next tag; false at the end or an error. */
    method Item(w: Writer) returns (more: bool)
      requires Valid() && HasTag() && !eof && Ready(w) && Apart(w)
      modifies this`region, this`ip, this`peeked, this`eof, source, Frame(w)
      ensures Expected(w) == old(Expected(w)) && fresh(Frame(w) - old(Frame(w)))
      ensures more ==> Valid() && HasTag() && !eof && Ready(w) && Apart(w) && |Remaining()| < |old(Remaining())|
      ensures more ==> Decode(Remaining(), Out(w), Expected(w)) == Decode(old(Remaining()), old(Out(w)), Expected(w))
      ensures !more && !eof ==> Decode(old(Remaining()), old(Out(w)), Expected(w)) == Reject
      ensures !more && eof ==> Ready(w)
      ensures !more && eof ==> Decode(old(Remaining()), old(Out(w)), Expected(w)) == if |Out(w)| == Expected(w) then Accept(Out(w)) else Reject
    {
      hide Decode, Valid, Remaining, HasTag, Extra;
      TagHere();
      var c := region[ip];
      var ok;
      if c % 4 == 0 {
        var done := FastLiteral(w, c);
        if done {
          return true;
        }
        TagHere();
        ok := DoLiteral(w, c);
      } else {
        ok := DoCopy(w, c);
      }
      if !ok {
        return false;
      }
      ghost var s := Remaining();
      more := MaybeRefill();
      if !more {
        DecodeEnd(s, Out(w), Expected(w));
      }
    }

    lemma TagHere()
      requires HasTag()
      ensures ip < |region|
    {}
  }

  /** Nothing left is the end; part of a tag is an error. */
  lemma DecodeEnd(s: Bytes, out: Bytes, expected: nat)
    requires s == [] || |s| < 1 + Extra(s[0])
    ensures Decode(s, out, expected) == if s == [] && |out| == expected then Accept(out) else Reject
  {}

  /** The tag at the front of the input, found in the region. */
  lemma LiteralUnfold(s: Bytes, region: Bytes, ip: nat, later: Bytes, out: Bytes, expected: nat)
    requires ip < |region| && ip + 1 + Extra(region[ip]) <= |region| && s == region[ip..] + later && region[ip] % 4 == 0
    ensures var c := region[ip]; var at := ip + 1 + Extra(c);
      Decode(s, out, expected) ==
        Literal(region[at..] + later, LiteralLength(c, Number(region[ip + 1..at])), out, expected)
  {
    TagSlices(s, region, ip, later);
  }

  lemma FastUnfold(region: Bytes, ip: nat, later: Bytes, len: nat, out: Bytes, expected: nat)
    requires ip < |region| && region[ip] % 4 == 0 && len == region[ip] as nat / 4 + 1 <= 60
    requires ip + 1 + len <= |region| && |out| + len <= expected
    ensures Decode(region[ip..] + later, out, expected) ==
      Decode(region[ip + 1 + len..] + later, out + region[ip + 1..ip + 1 + len], expected)
  {
    hide Literal, Decode;
    var s := region[ip + 1..] + later;
    LiteralUnfold(region[ip..] + later, region, ip, later, out, expected);
    LiteralPiece(s, len, out, expected, len);
    assert s[..len] == region[ip + 1..ip + 1 + len] && s[len..] == region[ip + 1 + len..] + later;
    NoneLeft(s[len..], out + s[..len], expected);
  }

  lemma CopyUnfold(s: Bytes, region: Bytes, ip: nat, later: Bytes, out: Bytes, expected: nat)
    requires ip < |region| && ip + 1 + Extra(region[ip]) <= |region| && s == region[ip..] + later && region[ip] % 4 != 0
    ensures var c := region[ip]; var at := ip + 1 + Extra(c);
      var offset, len := CopyOffset(c, Number(region[ip + 1..at])), CopyLength(c);
      Decode(s, out, expected) ==
        if !Copies(|out|, expected, offset, len) then Reject
        else Decode(region[at..] + later, MatchCopy(out, offset, len), expected)
  {
    TagSlices(s, region, ip, later);
  }

  lemma TagSlices(s: Bytes, region: Bytes, ip: nat, later: Bytes)
    requires ip < |region| && ip + 1 + Extra(region[ip]) <= |region| && s == region[ip..] + later
    ensures var n := 1 + Extra(region[ip]);
      |s| >= n && s[0] == region[ip] && s[1..n] == region[ip + 1..ip + n] && s[n..] == region[ip + n..] + later
  {}

  lemma TooShort(s: Bytes, left: nat, out: Bytes, expected: nat)
    requires |s| < left
    ensures Literal(s, left, out, expected) == Reject
  {}

  lemma NoneLeft(s: Bytes, out: Bytes, expected: nat)
    requires |out| <= expected
    ensures Literal(s, 0, out, expected) == Decode(s, out, expected)
  {
    assert s[0..] == s && out + s[..0] == out;
  }

  lemma FirstRead(s: Bytes, k: nat, c: byte, rest: Bytes)
    requires k <= |s| && s[k..] == [c] + rest
    ensures k < |s| && s[k] == c && s[k + 1..] == rest
  {
    assert s[k] == s[k..][0];
    assert s[k + 1..] == s[k..][1..];
  }

  // ---------- the entry points ----------

  /** The declared length, and the tags that follow it. */
  lemma DecodeAllParts(s: Bytes)
    ensures var l := ReadLength(s, 0, 0);
      DecodeAll(s) == if l.NoLength? || l.next > |s| then Reject else Decode(s[l.next..], [], l.value)
  {}

  /** `RawUncompress` into a flat array that is as long as the data declare. */
  method RawUncompress(source: Source, dst: array<byte>) returns (ok: bool, size: nat)
    requires source.Valid()
    requires var l := ReadLength(Concat(source.fragments), 0, 0); l.Length? ==> l.value <= dst.Length
    modifies source, dst
    ensures ok <==> DecodeAll(old(Concat(source.fragments))).Accept?
    ensures ok ==> size <= dst.Length && dst[..size] == DecodeAll(old(Concat(source.fragments))).out
  {
    hide ReadLength, Decode;
    DecodeAllParts(Concat(source.fragments));
    var writer := new ArrayWriter(dst);
    var decompressor := new Decompressor(source);
    var n;
    ok, n := decompressor.ReadUncompressedLength();
    if !ok {
      return false, 0;
    }
    writer.SetExpectedLength(n);
    assert writer.Out() == [];
    decompressor.DecompressAllTags(Flat(writer));
    if !decompressor.eof {
      return false, 0;
    }
    return writer.op == writer.opLimit, writer.op;
  }

  /** `IsValidCompressed` */
  method IsValidCompressed(source: Source) returns (ok: bool)
    requires source.Valid()
    modifies source
    ensures ok <==> DecodeAll(old(Concat(source.fragments))).Accept?
  {
    hide ReadLength, Decode;
    DecodeAllParts(Concat(source.fragments));
    var writer := new Validator();
    var decompressor := new Decompressor(source);
    var n;
    ok, n := decompressor.ReadUncompressedLength();
    if !ok {
      return false;
    }
    writer.expected := n;
    decompressor.DecompressAllTags(Check(writer));
    return decompressor.eof && writer.expected == writer.produced;
  }

  /** Decoding into blocks, which are handed on at the end. */
  method UncompressToBlocks(source: Source) returns (ok: bool, sink: Bytes)
    requires source.Valid()
    modifies source
    ensures ok <==> DecodeAll(old(Concat(source.fragments))).Accept?
    ensures ok ==> sink == DecodeAll(old(Concat(source.fragments))).out
  {
    hide ReadLength, Decode;
    DecodeAllParts(Concat(source.fragments));
    var decompressor := new Decompressor(source);
    var n;
    ok, n := decompressor.ReadUncompressedLength();
    if !ok {
      return false, [];
    }
    var writer := new ScatteredWriter(n);
    decompressor.DecompressAllTags(Blocks(writer));
    if !decompressor.eof {
      return false, [];
    }
    sink := writer.Flush();
    ok := writer.fullSize + writer.opPtr == writer.expected;
  }

  /** Neither the regions that a source hands out nor the writer make a difference. */
  method AllAgree(one: seq<Bytes>, two: seq<Bytes>, three: seq<Bytes>, dst: array<byte>)
    returns (flat: bool, valid: bool, blocks: bool, size: nat, sink: Bytes)
    requires forall i :: 0 <= i < |one| ==> one[i] != []
    requires forall i :: 0 <= i < |two| ==> two[i] != []
    requires forall i :: 0 <= i < |three| ==> three[i] != []
    requires Concat(one) == Concat(two) == Concat(three)
    requires var l := ReadLength(Concat(one), 0, 0); l.Length? ==> l.value <= dst.Length
    modifies dst
    ensures flat == valid == blocks
    ensures flat ==> size <= dst.Length && dst[..size] == sink
  {
    var s1 := new Source(one);
    var s2 := new Source(two);
    var s3 := new Source(three);
    flat, size := RawUncompress(s1, dst);
    valid := IsValidCompressed(s2);
    blocks, sink := UncompressToBlocks(s3);
  }
}
