/** Powers of two. */
module Powers {

  const TWO32 := 0x1_0000_0000

  function Pow2(h: nat): (r: nat)
    ensures r > 0
  {
    if h == 0 then 1 else 2 * Pow2(h - 1)
  }

  lemma {:induction false} PowAdd(a: nat, b: nat)
    ensures Pow2(a + b) == Pow2(a) * Pow2(b)
  {
    if a > 0 {
      PowAdd(a - 1, b);
      assert a - 1 + b == a + b - 1;
      Doubled(Pow2(a - 1), Pow2(b));
    }
  }

  lemma Doubled(x: int, y: int)
    ensures 2 * (x * y) == 2 * x * y
  {}

  lemma {:induction false} PowMono(a: nat, b: nat)
    requires a <= b
    ensures Pow2(a) <= Pow2(b)
  {
    if a < b { PowMono(a, b - 1); }
  }

  lemma PowStrict(a: nat, b: nat)
    requires a < b
    ensures 2 * Pow2(a) <= Pow2(b)
  {
    PowMono(a + 1, b);
  }

  lemma Pow64()
    ensures Pow2(64) == 0x1_0000_0000_0000_0000
  {
    assert Pow2(8) == 256;
    PowAdd(8, 8);
    PowAdd(16, 16);
    PowAdd(32, 32);
  }

  lemma NotNegative(x: nat, y: nat)
    ensures x * y >= 0
  {}

  lemma MulGrows(d: int, p: int)
    requires d >= 1 && p >= 1
    ensures d * p >= p
  {
    assert (d - 1) * p >= 0;
  }

  lemma DivUnique(x: int, q: int, r: int, p: int)
    requires 0 <= r < p && x == q * p + r
    ensures x / p == q && x % p == r
  {
    var y, s := x / p, x % p;
    assert (y - q) * p == r - s;
    if y > q {
      MulGrows(y - q, p);
    } else if y < q {
      assert (q - y) * p == s - r;
      MulGrows(q - y, p);
    }
  }

  lemma ModOfMod(x: nat, q: nat, p: nat)
    requires p > 0 && q > 0
    ensures q * p > 0 && x % (q * p) % p == x % p
  {
    MulGrows(q, p);
    var m := q * p;
    var w, r := x / m, x % m;
    var a, b := r / p, r % p;
    calc {
      x;
      w * m + r;
      w * (q * p) + (a * p + b);
      (w * q + a) * p + b;
    }
    DivUnique(x, w * q + a, b, p);
  }

  /** Reducing modulo 2^64 first changes nothing modulo a smaller power of two. */
  lemma WrapThenMask(x: nat, k: nat)
    requires k <= 64
    ensures x % 0x1_0000_0000_0000_0000 % Pow2(k) == x % Pow2(k)
  {
    Pow64();
    PowAdd(64 - k, k);
    hide Pow2;
    ModOfMod(x, Pow2(64 - k), Pow2(k));
  }
}
