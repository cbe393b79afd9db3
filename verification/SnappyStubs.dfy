/**
 Lengths in a buffer, and the hash that indexes the compressor's table.
 */
module SnappyStubs {
  import opened Powers
  import opened Lz77
  import opened Bits
  import opened SnappyFormat

  // ---------- lengths ----------

  /** `Varint::Parse32WithLimit`: a length of at most five bytes before `limit`. */
  method Parse32WithLimit(s: Bytes, limit: nat) returns (ok: bool, value: nat, next: nat)
    requires limit <= |s|
    ensures ok <==> ReadLength(s[..limit], 0, 0).Length?
    ensures ok ==> ReadLength(s[..limit], 0, 0) == Length(value, next) && next <= limit
  {
    hide ReadLength, Part;
    ghost var t := s[..limit];
    ok, value, next := false, 0, 0;
    LengthStep(t, 0, 0);
    if 0 >= limit { return; }
    var b: byte := s[0];
    Parts(b);
    value := b % 128;
    if b < 128 { return true, value, 1; }
    LengthStep(t, 1, value);
    if 1 >= limit { return; }
    b := s[1];
    Parts(b);
    value := value + b % 128 * 128;
    if b < 128 { return true, value, 2; }
    LengthStep(t, 2, value);
    if 2 >= limit { return; }
    b := s[2];
    Parts(b);
    value := value + b % 128 * 16384;
    if b < 128 { return true, value, 3; }
    LengthStep(t, 3, value);
    if 3 >= limit { return; }
    b := s[3];
    Parts(b);
    value := value + b % 128 * 2097152;
    if b < 128 { return true, value, 4; }
    LengthStep(t, 4, value);
    if 4 >= limit { return; }
    b := s[4];
    Parts(b);
    value := value + b % 128 * 268435456;
    if b < 16 { return true, value, 5; }
    if b < 128 { return; }
    LengthStep(t, 5, value);
  }

  lemma Parts(b: byte)
    ensures Part(b, 0) == b % 128 && Part(b, 1) == b % 128 * 128 && Part(b, 2) == b % 128 * 16384
    ensures Part(b, 3) == b % 128 * 2097152 && Part(b, 4) == b % 128 * 268435456
  {}

  /** `GetUncompressedLength` on a buffer. */
  method GetUncompressedLength(s: Bytes) returns (ok: bool, result: nat)
    ensures ok <==> ReadLength(s, 0, 0).Length?
    ensures ok ==> result == ReadLength(s, 0, 0).value
  {
    assert s[..|s|] == s;
    var next;
    ok, result, next := Parse32WithLimit(s, |s|);
  }

  // ---------- the hash ----------

  const MIN_TABLE_BITS := 8
  const MAX_TABLE_BITS := 14

  /** `HashBytes` */
  function HashBytes(bytes: nat, shift: nat): nat {
    ShiftRight(bytes * 0x1e35a7bd % TWO32, shift)
  }

  function With(hash: (Bytes, nat) -> nat, shift: nat): Bytes -> nat {
    b => hash(b, shift)
  }

  /** With the shift that belongs to a table of 2^k entries, the hash indexes it. */
  ghost predicate Reduces(hash: (Bytes, nat) -> nat, k: nat)
    requires k <= 32
  {
    InTable(With(hash, 32 - k), Pow2(k))
  }

  ghost predicate Indexes(hash: (Bytes, nat) -> nat) {
    forall k: nat :: MIN_TABLE_BITS <= k <= MAX_TABLE_BITS ==> Reduces(hash, k)
  }

  lemma HashBelow(bytes: nat, k: nat)
    requires k <= 32
    ensures HashBytes(bytes, 32 - k) < Pow2(k)
  {
    SmallPowers();
    PowAdd(k, 32 - k);
    var v, p, q := bytes * 0x1e35a7bd % TWO32, Pow2(32 - k), Pow2(k);
    assert v < q * p;
    hide Pow2;
    Quotient(v, p);
    if v / p >= q { MulMono(q, v / p, p); }
  }

  /** The library's own hash is one of those that the compressor is proved for. */
  lemma OwnHash()
    ensures Indexes((b: Bytes, shift: nat) => HashBytes(Number(b), shift))
  {
    var hash := (b: Bytes, shift: nat) => HashBytes(Number(b), shift);
    forall k: nat | MIN_TABLE_BITS <= k <= MAX_TABLE_BITS ensures Reduces(hash, k) {
      var own := With(hash, 32 - k);
      forall b: Bytes ensures own(b) < Pow2(k) { HashBelow(Number(b), k); }
    }
  }

  /** `GetHashTable`: a zeroed table of at least 256 entries, no more than twice the input. */
  method GetHashTable(inputSize: nat) returns (table: array<nat>, ghost k: nat)
    ensures fresh(table) && table.Length == Pow2(k) && MIN_TABLE_BITS <= k <= MAX_TABLE_BITS && Below(table[..], 1)
    ensures table.Length >= inputSize || k == MAX_TABLE_BITS
    ensures k > MIN_TABLE_BITS ==> table.Length < 2 * inputSize
  {
    var size := 256;
    k := 8;
    assert Pow2(8) == 256;
    while size < 16384 && size < inputSize
      invariant MIN_TABLE_BITS <= k <= MAX_TABLE_BITS && size == Pow2(k) && (k == MAX_TABLE_BITS <==> size >= 16384)
      invariant k > MIN_TABLE_BITS ==> size < 2 * inputSize
      decreases MAX_TABLE_BITS - k
    {
      size, k := size * 2, k + 1;
      TableSizes(k);
    }
    table := new nat[size](_ => 0);
  }

  lemma TableSizes(k: nat)
    requires 8 <= k <= 14
    ensures Pow2(k) == 2 * Pow2(k - 1) && (k == 14 <==> Pow2(k) >= 16384)
  {
    assert Pow2(8) == 256 && Pow2(11) == 8 * Pow2(8) && Pow2(14) == 8 * Pow2(11);
    if k == 13 { assert Pow2(14) == 2 * Pow2(13); }
    if k == 12 { assert Pow2(12) == 2 * Pow2(11); }
  }

  /** `32 - Log2Floor(table_size)` */
  method ShiftFor(tableSize: nat, ghost k: nat) returns (shift: nat)
    requires tableSize == Pow2(k) && k <= 14
    ensures shift == 32 - k
  {
    PowMono(k, 14);
    assert Pow2(8) == 256 && Pow2(14) == 64 * Pow2(8);
    var log := Log2Floor(tableSize);
    SamePower(k, log);
    shift := 32 - log;
  }

  lemma SamePower(k: nat, l: nat)
    requires Pow2(l) <= Pow2(k) < 2 * Pow2(l)
    ensures k == l
  {
    if k < l { PowStrict(k, l); } else if l < k { PowStrict(l, k); }
  }
}
