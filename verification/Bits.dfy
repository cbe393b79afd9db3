/**
 The highest and the lowest set bit of a word, and what the lowest set bit of the difference
 of two words says about their bytes.
 */
module Bits {
  import opened Powers
  import opened Lz77

  // ---------- the highest bit ----------

  /** The bits of `n` from position `log` on. */
  ghost predicate Above(n: nat, value: nat, log: nat) {
    value * Pow2(log) <= n < (value + 1) * Pow2(log)
  }

  lemma QuotientAtLeastZero(v: nat, s: nat)
    requires s > 0
    ensures v / s >= 0
  {}

  /** `value >> shift` */
  function ShiftRight(value: nat, shift: nat): nat {
    var p := Pow2(shift);
    QuotientAtLeastZero(value, p);
    value / p
  }

  lemma ShiftDown(n: nat, value: nat, log: nat, shift: nat)
    requires Above(n, value, log)
    ensures Above(n, ShiftRight(value, shift), log + shift)
  {
    PowAdd(log, shift);
    Divided(n, value, Pow2(log), Pow2(shift));
  }

  lemma Divided(n: nat, value: nat, p: nat, s: nat)
    requires s > 0 && value * p <= n < (value + 1) * p
    ensures value / s * (p * s) <= n < (value / s + 1) * (p * s)
  {
    var x := value / s;
    Quotient(value, s);
    MulMono(x * s, value, p);
    MulMono(value + 1, (x + 1) * s, p);
  }

  lemma Quotient(v: nat, s: nat)
    requires s > 0
    ensures v / s * s <= v && v + 1 <= (v / s + 1) * s
  {}

  lemma MulMono(a: nat, b: nat, p: nat)
    requires a <= b
    ensures a * p <= b * p
  {}

  lemma ShiftedBelow(value: nat, shift: nat)
    requires value < Pow2(2 * shift)
    ensures ShiftRight(value, shift) < Pow2(shift)
    ensures ShiftRight(value, shift) == 0 ==> value < Pow2(shift)
  {
    PowAdd(shift, shift);
    var s := Pow2(shift);
    hide Pow2;
    var x := value / s;
    if x >= s {
      MulMono(s, x, s);
      assert false;
    }
  }

  /** `Log2Floor` */
  method Log2Floor(n: nat) returns (log: int)
    requires n < TWO32
    ensures n == 0 ==> log == -1
    ensures n > 0 ==> 0 <= log < 32 && Pow2(log) <= n < 2 * Pow2(log)
  {
    if n == 0 {
      return -1;
    }
    hide Pow2, Above, ShiftRight;
    var bits: nat, value: nat := 0, n;
    SmallPowers();
    for i := 5 downto 0
      invariant bits + Pow2(i) <= 32 && value > 0 && Above(n, value, bits) && value < Pow2(Pow2(i))
    {
      var shift := Pow2(i);
      TwicePow(i);
      ShiftDown(n, value, bits, shift);
      ShiftedBelow(value, shift);
      var x := ShiftRight(value, shift);
      if x != 0 {
        value := x;
        bits := bits + shift;
      }
    }
    log := bits;
    OneLeft(n, bits);
  }

  lemma OneLeft(n: nat, log: nat)
    requires Above(n, 1, log)
    ensures Pow2(log) <= n < 2 * Pow2(log)
  {}

  lemma TwicePow(i: nat)
    ensures Pow2(i + 1) == 2 * Pow2(i)
  {}

  lemma SmallPowers()
    ensures Pow2(0) == 1 && Pow2(1) == 2 && Pow2(5) == 32 && Pow2(32) == TWO32
  {
    assert Pow2(8) == 256;
    PowAdd(8, 8);
    PowAdd(16, 16);
  }

  // ---------- the lowest bit ----------

  /** Bit `l` is set and none below it is. */
  ghost predicate Lowest(n: nat, l: nat) {
    n % Pow2(l + 1) == Pow2(l)
  }

  lemma Multiple(q: nat, p: nat)
    requires p > 0
    ensures q * p % p == 0
  {
    DivUnique(q * p, q, 0, p);
  }

  /** A number that is not zero has a lowest bit. */
  lemma {:induction false} HasLowest(n: nat, k: nat) returns (l: nat)
    requires 0 < n < Pow2(k)
    ensures l < k && Lowest(n, l)
    decreases k
  {
    if n % 2 == 1 {
      l := 0;
      assert Pow2(1) == 2 && k > 0;
    } else {
      l := HasLowest(n / 2, k - 1);
      Doubled(n / 2, l);
      l := l + 1;
    }
  }

  lemma Doubled(n: nat, l: nat)
    requires Lowest(n, l)
    ensures Lowest(2 * n, l + 1)
  {
    ScaledMod(n, Pow2(l + 1), 2);
  }

  lemma ScaledMod(n: nat, p: nat, s: nat)
    requires p > 0 && s > 0
    ensures p * s > 0 && n * s % (p * s) == n % p * s
  {
    var q, r := n / p, n % p;
    MulGrows(p, s);
    assert n * s == (q * p + r) * s == q * p * s + r * s;
    assert q * p * s == q * (p * s);
    MulLess(r, p, s);
    DivUnique(n * s, q, r * s, p * s);
  }

  lemma MulLess(r: nat, p: nat, s: nat)
    requires r < p && s > 0
    ensures r * s < p * s
  {
    MulMono(r + 1, p, s);
  }

  /** A 32-bit shift moves the lowest bit up, or out. */
  lemma ShiftUp(n: nat, l: nat, s: nat)
    requires Lowest(n, l) && l < 32 && s <= 32
    ensures l + s < 32 ==> Lowest(n * Pow2(s) % TWO32, l + s) && n * Pow2(s) % TWO32 != 0
    ensures l + s >= 32 ==> n * Pow2(s) % TWO32 == 0
  {
    hide Pow2;
    Scaled(n, l, s);
    var x := n * Pow2(s);
    if l + s < 32 {
      StillLowest(x, l + s);
    } else {
      SmallPowers();
      TwicePow(l + s);
      PowAdd(l + s - 32, 32);
      OutShifted(x, Pow2(l + s - 32), TWO32);
    }
  }

  lemma Scaled(n: nat, l: nat, s: nat)
    requires Lowest(n, l)
    ensures Lowest(n * Pow2(s), l + s)
  {
    hide Pow2;
    PowAdd(l + 1, s);
    PowAdd(l, s);
    ScaledMod(n, Pow2(l + 1), Pow2(s));
  }

  lemma StillLowest(x: nat, l: nat)
    requires l < 32 && Lowest(x, l)
    ensures Lowest(x % TWO32, l) && x % TWO32 != 0
  {
    SmallPowers();
    PowAdd(31 - l, l + 1);
    ModOfMod(x, Pow2(31 - l), Pow2(l + 1));
    assert Pow2(l) > 0;
    hide Pow2;
    if x % TWO32 == 0 { Multiple(0, Pow2(l + 1)); }
  }

  lemma OutShifted(x: nat, r: nat, e: nat)
    requires e > 0 && r > 0 && 2 * (r * e) > 0 && x % (2 * (r * e)) == r * e
    ensures x % e == 0
  {
    var q := x / (2 * (r * e));
    assert x == q * (2 * (r * e)) + r * e;
    assert q * (2 * (r * e)) == 2 * q * r * e;
    assert 2 * q * r * e + r * e == (2 * q * r + r) * e;
    Multiple(2 * q * r + r, e);
  }

  /** `FindLSBSetNonZero` */
  method FindLSBSetNonZero(n0: nat) returns (rc: nat)
    requires 0 < n0 < TWO32
    ensures rc < 32 && Lowest(n0, rc)
  {
    SmallPowers();
    ghost var l0: nat := HasLowest(n0, 32);
    ghost var l: nat := l0;
    var n: nat := n0;
    rc := 31;
    hide Pow2, Lowest;
    for i := 5 downto 0
      invariant rc <= 31 && l < 32 && Lowest(n, l) && l - l0 == 31 - rc && l + Pow2(i) > 31
    {
      var shift := Pow2(i);
      TwicePow(i);
      AtMost16(i);
      ShiftUp(n, l, shift);
      var x := n * Pow2(shift) % TWO32;
      if x != 0 {
        n, rc, l := x, rc - shift, l + shift;
      }
    }
  }

  lemma AtMost16(i: nat)
    requires i < 5
    ensures Pow2(i) <= 16
  {
    assert Pow2(4) == 16;
    if i == 3 { assert Pow2(3) == 8; } else if i == 2 { assert Pow2(2) == 4; }
  }

  /** `FindLSBSetNonZero64` */
  method FindLSBSetNonZero64(n: nat) returns (rc: nat)
    requires 0 < n < TWO32 * TWO32
    ensures rc < 64 && Lowest(n, rc)
  {
    var bottomBits := n % TWO32;
    SmallPowers();
    if bottomBits == 0 {
      rc := FindLSBSetNonZero(n / TWO32);
      HighHalf(n, rc);
      rc := 32 + rc;
    } else {
      rc := FindLSBSetNonZero(bottomBits);
      LowHalf(n, rc);
    }
  }

  lemma HighHalf(n: nat, l: nat)
    requires n % TWO32 == 0 && Lowest(n / TWO32, l)
    ensures Lowest(n, 32 + l)
  {
    SmallPowers();
    PowAdd(l + 1, 32);
    PowAdd(l, 32);
    var p := Pow2(l + 1);
    ScaledMod(n / TWO32, p, TWO32);
    assert n == n / TWO32 * TWO32;
  }

  lemma LowHalf(n: nat, l: nat)
    requires l < 32 && Lowest(n % TWO32, l)
    ensures Lowest(n, l)
  {
    SmallPowers();
    PowAdd(31 - l, l + 1);
    ModOfMod(n, Pow2(31 - l), Pow2(l + 1));
  }

  // ---------- equal leading bytes ----------

  /** `a ^ b` */
  function Xor(a: nat, b: nat): nat
    decreases a + b
  {
    if a == 0 && b == 0 then 0 else (a + b) % 2 + 2 * Xor(a / 2, b / 2)
  }

  lemma Halved(x: nat, k: nat)
    requires k > 0
    ensures x % Pow2(k) == x % 2 + 2 * (x / 2 % Pow2(k - 1))
  {
    TwicePow(k - 1);
    var p, y := Pow2(k - 1), x / 2;
    var q, r := y / p, y % p;
    hide Pow2;
    assert x == q * (2 * p) + (x % 2 + 2 * r) by {
      assert y == q * p + r;
      assert 2 * (q * p) == q * (2 * p);
    }
    DivUnique(x, q, x % 2 + 2 * r, 2 * p);
  }

  /** The numbers agree in their low bits just when these bits of the difference are zero. */
  lemma {:induction false} XorLow(a: nat, b: nat, k: nat)
    ensures Xor(a, b) % Pow2(k) == 0 <==> a % Pow2(k) == b % Pow2(k)
  {
    if k > 0 {
      XorLow(a / 2, b / 2, k - 1);
      XorHalves(a, b);
      Halved(a, k);
      Halved(b, k);
      Halved(Xor(a, b), k);
      hide Xor, Pow2;
    }
  }

  lemma XorHalves(a: nat, b: nat)
    ensures Xor(a, b) / 2 == Xor(a / 2, b / 2) && (Xor(a, b) % 2 == 0 <==> a % 2 == b % 2)
  {
    XorUnfold(a, b);
    hide Xor;
  }

  lemma XorUnfold(a: nat, b: nat)
    ensures Xor(a, b) == (a + b) % 2 + 2 * Xor(a / 2, b / 2)
  {}

  lemma {:induction false} XorBound(a: nat, b: nat, k: nat)
    requires a < Pow2(k) && b < Pow2(k)
    ensures Xor(a, b) < Pow2(k)
  {
    if k > 0 {
      XorBound(a / 2, b / 2, k - 1);
    }
  }

  lemma {:induction false} BytePowers(c: nat)
    ensures Pow2(8 * c) == Limit(c)
  {
    if c > 0 {
      BytePowers(c - 1);
      PowAdd(8, 8 * (c - 1));
      assert Pow2(8) == 256;
    }
  }

  /** The low bytes of a number. */
  lemma {:induction false} NumberLow(s: Bytes, c: nat)
    requires c <= |s|
    ensures Number(s) % Limit(c) == Number(s[..c]) < Limit(c)
  {
    if c > 0 {
      NumberLow(s[1..], c - 1);
      NumberFirst(s, c);
      hide Number, Limit;
      LowByte(s[0], Number(s[1..]), Limit(c - 1));
    }
  }

  lemma NumberFirst(s: Bytes, c: nat)
    requires 1 <= c <= |s|
    ensures Limit(c) == 256 * Limit(c - 1) && Number(s) == s[0] + 256 * Number(s[1..])
    ensures Number(s[..c]) == s[0] + 256 * Number(s[1..][..c - 1])
  {
    assert s[..c][1..] == s[1..][..c - 1];
  }

  lemma LowByte(b: byte, y: nat, p: nat)
    requires p > 0
    ensures (b + 256 * y) % (256 * p) == b + 256 * (y % p) < 256 * p
  {
    var q, r := y / p, y % p;
    assert y == q * p + r;
    assert 256 * (q * p) == q * (256 * p);
    DivUnique(b + 256 * y, q, b + 256 * r, 256 * p);
  }

  lemma {:induction false} SameNumber(s: Bytes, t: Bytes)
    requires |s| == |t| && Number(s) == Number(t)
    ensures s == t
  {
    if s != [] {
      SameNumber(s[1..], t[1..]);
      assert s == [s[0]] + s[1..] && t == [t[0]] + t[1..];
    }
  }

  /** The first `c` bytes agree just when the difference has no bit among them. */
  lemma PrefixAgrees(s: Bytes, t: Bytes, c: nat)
    requires |s| == |t| && c <= |s|
    ensures Xor(Number(s), Number(t)) % Pow2(8 * c) == 0 <==> s[..c] == t[..c]
  {
    XorLow(Number(s), Number(t), 8 * c);
    BytePowers(c);
    NumberLow(s, c);
    NumberLow(t, c);
    if Number(s[..c]) == Number(t[..c]) { SameNumber(s[..c], t[..c]); }
  }

  lemma NoneBelow(x: nat, l: nat, k: nat)
    requires Lowest(x, l)
    ensures x % Pow2(k) == 0 <==> k <= l
  {
    if k <= l {
      PowAdd(l + 1 - k, k);
      PowAdd(l - k, k);
      ModOfMod(x, Pow2(l + 1 - k), Pow2(k));
      hide Pow2;
      Multiple(Pow2(l - k), Pow2(k));
    } else {
      PowAdd(k - (l + 1), l + 1);
      ModOfMod(x, Pow2(k - (l + 1)), Pow2(l + 1));
      assert Pow2(l) > 0;
      hide Pow2;
      if x % Pow2(k) == 0 { Multiple(0, Pow2(l + 1)); }
    }
  }

  /** The position of the lowest bit in which two words differ, divided by eight, is the
      number of leading bytes in which they agree. */
  method EqualLeadingBytes(s: Bytes, t: Bytes) returns (c: nat)
    requires |s| == |t| == 8 && s != t
    ensures c < 8 && s[..c] == t[..c] && s[c] != t[c]
  {
    var x: nat := Xor(Number(s), Number(t));
    XorSize(s, t);
    var bit := FindLSBSetNonZero64(x);
    c := bit / 8;
    NoneBelow(x, bit, 8 * c);
    NoneBelow(x, bit, 8 * (c + 1));
    PrefixAgrees(s, t, c);
    PrefixAgrees(s, t, c + 1);
    assert s[..c + 1] == s[..c] + [s[c]] && t[..c + 1] == t[..c] + [t[c]];
  }

  lemma XorSize(s: Bytes, t: Bytes)
    requires |s| == |t| == 8 && s != t
    ensures 0 < Xor(Number(s), Number(t)) < TWO32 * TWO32
  {
    hide Pow2, Limit, Number, Xor;
    assert s[..8] == s && t[..8] == t;
    NumberLow(s, 8);
    NumberLow(t, 8);
    BytePowers(8);
    XorBound(Number(s), Number(t), 64);
    PrefixAgrees(s, t, 8);
    assert 0 % Pow2(64) == 0;
    Pow64();
  }

  /** In how many leading bytes the words at two places agree, given that they differ. */
  method NbCommonBytes(src: Bytes, i: nat, m: nat) returns (c: nat)
    requires m <= i && i + 8 <= |src| && !Eight(src, i, m)
    ensures c < 8 && src[i + c] != src[m + c] && Repeats(src, i, i + c, i - m)
  {
    var s, t := src[i..i + 8], src[m..m + 8];
    c := EqualLeadingBytes(s, t);
    forall k | i <= k < i + c ensures src[k] == src[k - (i - m)] {
      assert src[k] == s[..c][k - i] && src[k - (i - m)] == t[..c][k - i];
    }
  }
}
