/**
 Snappy there and back, however the compressed bytes are handed to the decoder.
 */
module Snappy {
  import opened Powers
  import opened Lz77
  import opened SnappyFormat
  import opened SnappyDecompress
  import opened SnappyCompress
  import opened SnappyStubs

  /** A way to cut bytes into non-empty regions. */
  ghost predicate Cuts(split: Bytes -> seq<Bytes>) {
    forall b :: Concat(split(b)) == b && forall i :: 0 <= i < |split(b)| ==> split(b)[i] != []
  }

  /** As the analysis reads a block: the declared length first, then the decoding. */
  method RoundTrip(src: Bytes, hash: (Bytes, nat) -> nat, split: Bytes -> seq<Bytes>)
    returns (ok: bool, size: nat, back: array<byte>)
    requires |src| < TWO32 && Indexes(hash) && Cuts(split)
    ensures ok && size == |src| && back[..] == src
  {
    var packed := new byte[MaxCompressedLength(|src|)];
    var n := RawCompress(src, packed, hash);
    var bytes := packed[..n];
    Declared(bytes, src);
    ok, size := GetUncompressedLength(bytes);
    var source := new Source(split(bytes));
    back := new byte[size];
    var produced;
    ok, produced := RawUncompress(source, back);
    assert back[..] == back[..produced];
  }

  /** The length in front of an accepted string is the length of what it decodes to. */
  lemma Declared(s: Bytes, src: Bytes)
    requires DecodeAll(s) == Accept(src)
    ensures ReadLength(s, 0, 0).Length? && ReadLength(s, 0, 0).value == |src|
  {
    var l := ReadLength(s, 0, 0);
    AcceptedLength(s[l.next..], [], l.value);
  }
}
