/** Powers of two, and the bitwise-and mask the sources use to reduce an index. */
module Powers {

  /** `1 << k` of the sources, on unbounded integers. */
  function Pow2(k: nat): (r: nat)
    ensures r >= 1
  {
    if k == 0 then 1 else 2 * Pow2(k - 1)
  }

  lemma {:induction false} Pow2Monotone(a: nat, b: nat)
    requires a <= b
    ensures Pow2(a) <= Pow2(b)
  {
    if a < b {
      Pow2Monotone(a, b - 1);
    }
  }

  lemma Pow2Order(a: nat, b: nat)
    ensures a <= b <==> Pow2(a) <= Pow2(b)
    ensures a < b <==> Pow2(a) < Pow2(b)
  {
    if a < b {
      Pow2Monotone(a, b - 1);
    } else {
      Pow2Monotone(b, a);
      if b < a {
        Pow2Monotone(b, a - 1);
      }
    }
  }

  // ----- division by a variable, from the definition up

  lemma DivMod(x: int, d: int)
    requires d > 0
    ensures x == d * (x / d) + x % d && 0 <= x % d < d
  {
  }

  lemma MulAtLeast(d: int, k: int)
    requires d > 0 && k > 0
    ensures d * k >= d
  {
  }

  lemma MulDistributes(d: int, a: int, b: int)
    ensures d * (a - b) == d * a - d * b
    ensures d * (a + b) == d * a + d * b
  {
  }

  /** A quotient and a remainder in range are the only ones. */
  lemma QuotientUnique(x: int, d: int, q: int, r: int)
    requires d > 0 && 0 <= r < d && x == d * q + r
    ensures x / d == q && x % d == r
  {
    DivMod(x, d);
    var k := x / d - q;
    MulDistributes(d, x / d, q);
    if k > 0 {
      MulAtLeast(d, k);
    } else if k < 0 {
      MulAtLeast(d, -k);
    }
  }

  // ----- masking

  /** Bitwise and of two unbounded naturals, bit by bit from the lowest. */
  function BitAnd(a: nat, b: nat): nat
    decreases a
  {
    if a == 0 then 0 else (if a % 2 == 1 && b % 2 == 1 then 1 else 0) + 2 * BitAnd(a / 2, b / 2)
  }

  /** Masking with a power of two minus one is the remainder. */
  lemma {:induction false} MaskIsRemainder(h: nat, n: nat)
    ensures BitAnd(h, Pow2(n) - 1) == h % Pow2(n)
    decreases h
  {
    if n == 0 {
      AndZero(h);
    } else if h == 0 {
      QuotientUnique(0, Pow2(n), 0, 0);
    } else {
      var p := Pow2(n - 1);
      assert (2 * p - 1) % 2 == 1 && (2 * p - 1) / 2 == p - 1;
      MaskIsRemainder(h / 2, n - 1);
      HalveRemainder(h, p);
    }
  }

  lemma HalveRemainder(h: nat, p: nat)
    requires p >= 1
    ensures h % (2 * p) == 2 * ((h / 2) % p) + h % 2
    ensures h / (2 * p) == (h / 2) / p
  {
    DivMod(h / 2, p);
    var q, r := (h / 2) / p, (h / 2) % p;
    assert 2 * (p * q) == (2 * p) * q;
    QuotientUnique(h, 2 * p, q, 2 * r + h % 2);
  }

  lemma {:induction false} AndZero(h: nat)
    ensures BitAnd(h, 0) == 0
    decreases h
  {
    if h != 0 {
      AndZero(h / 2);
    }
  }
}
