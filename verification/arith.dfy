/** Integer facts used by the bit-level proofs: powers of two and the
    uniqueness of Euclidean division. */
module Arith {

  /** 2^n. */
  function Pow2(n: nat): (p: nat)
    ensures p >= 1
  {
    if n == 0 then 1 else 2 * Pow2(n - 1)
  }

  /** Exponents add when powers of two multiply. */
  lemma {:induction false} Pow2Add(a: nat, b: nat)
    ensures Pow2(a + b) == Pow2(a) * Pow2(b)
  {
    if a > 0 {
      Pow2Add(a - 1, b);
    }
  }

  /** Powers of two grow with the exponent. */
  lemma {:induction false} Pow2Monotone(a: nat, b: nat)
    requires a <= b
    ensures Pow2(a) <= Pow2(b)
  {
    if a < b {
      Pow2Monotone(a, b - 1);
    }
  }

  /** The powers of two the binary16 and binary32 layouts are built from. */
  lemma Pow2Table()
    ensures Pow2(10) == 0x400 && Pow2(12) == 0x1000 && Pow2(13) == 0x2000 && Pow2(14) == 0x4000
    ensures Pow2(23) == 0x80_0000 && Pow2(24) == 0x100_0000
  {
    assert Pow2(10) == 0x400;
    assert Pow2(12) == 0x1000;
    assert Pow2(13) == 0x2000;
    assert Pow2(14) == 0x4000;
    Pow2Add(10, 13);
    Pow2Add(10, 14);
  }

  /** 2^112, the distance between the binary32 and binary16 exponent biases
      (127 - 15), as a numeral. */
  const Two112: nat := 0x1_0000_0000_0000_0000_0000_0000_0000

  /** 2^125 == 2^13 * 2^112, as a numeral. */
  const Two125: nat := 0x2000_0000_0000_0000_0000_0000_0000_0000

  lemma Pow2At28(n: nat)
    requires n == 28
    ensures Pow2(n) == 0x1000_0000
  {
    Pow2Table();
    Pow2Add(14, 14);
  }

  lemma Pow2At56(n: nat)
    requires n == 56
    ensures Pow2(n) == 0x100_0000_0000_0000
  {
    Pow2At28(28);
    Pow2Add(28, 28);
  }

  lemma Pow2At112(n: nat)
    requires n == 112
    ensures Pow2(n) == Two112
  {
    Pow2At56(56);
    Pow2Add(56, 56);
  }

  lemma Pow2At125(n: nat)
    requires n == 125
    ensures Pow2(n) == Two125
  {
    Pow2Plus112(13);
    Pow2Table();
  }

  /** Multiplying by 2^112. */
  lemma Pow2Plus112(a: nat)
    ensures Pow2(a + 112) == Pow2(a) * Two112
  {
    Pow2Add(a, 112);
    Pow2At112(112);
  }

  lemma MulAssoc(a: int, b: int, c: int)
    ensures a * b * c == a * (b * c)
  {
  }

  /** (c * a) * (p * k) == (a * p) * (c * k), for a product x == c * a. */
  lemma Rearrange(a: int, p: int, k: int, x: int, c: int)
    requires x == c * a
    ensures x * (p * k) == a * p * (c * k)
  {
  }

  lemma MulAtLeast(a: int, d: int)
    requires a >= 1 && d > 0
    ensures a * d >= d
  {
  }

  lemma Distrib(a: int, b: int, d: int)
    ensures a * d - b * d == (a - b) * d
  {
  }

  /** Quotient and remainder are the only pair that rebuilds x. */
  lemma DivModUnique(x: int, d: int, q: int, r: int)
    requires d > 0 && x == q * d + r && 0 <= r < d
    ensures x / d == q && x % d == r
  {
    var q' := x / d;
    var r' := x % d;
    assert x == q' * d + r';
    Distrib(q, q', d);
    Distrib(q', q, d);
    if q' < q {
      MulAtLeast(q - q', d);
    } else if q' > q {
      MulAtLeast(q' - q, d);
    }
  }

  /** `x >> n` on an unsigned value: n halvings, each dropping the low bit. */
  function Shr(x: nat, n: nat): nat
  {
    if n == 0 then x else Shr(x / 2, n - 1)
  }

  /** A value below 2^(b + n) shifted right by n is below 2^b. */
  lemma {:induction false} ShrBound(x: nat, n: nat, b: nat)
    requires x < Pow2(b + n)
    ensures Shr(x, n) < Pow2(b)
  {
    if n > 0 {
      assert Pow2(b + n) == 2 * Pow2(b + (n - 1));
      ShrBound(x / 2, n - 1, b);
    }
  }

  /** Shifting right by n divides by 2^n, dropping a remainder below 2^n. */
  lemma {:induction false} ShrBracket(x: nat, n: nat)
    ensures Shr(x, n) * Pow2(n) <= x < (Shr(x, n) + 1) * Pow2(n)
  {
    if n > 0 {
      ShrBracket(x / 2, n - 1);
      HalveBracket(x, Shr(x / 2, n - 1), Pow2(n - 1));
    }
  }

  lemma HalveBracket(x: nat, q: nat, p: nat)
    requires q * p <= x / 2 < (q + 1) * p
    ensures q * (2 * p) <= x < (q + 1) * (2 * p)
  {
    assert q * (2 * p) == 2 * (q * p);
    assert (q + 1) * (2 * p) == 2 * ((q + 1) * p);
  }

  /** Shifting right by a + b is shifting by a, then by b. */
  lemma {:induction false} ShrAdd(x: nat, a: nat, b: nat)
    ensures Shr(x, a + b) == Shr(Shr(x, a), b)
  {
    if a > 0 {
      ShrAdd(x / 2, a - 1, b);
    }
  }

  /** Shifting left by k and then right by k gives the value back. */
  lemma {:induction false} ShrMul(m: nat, k: nat)
    ensures Shr(m * Pow2(k), k) == m
  {
    if k > 0 {
      assert m * Pow2(k) == 2 * (m * Pow2(k - 1));
      ShrMul(m, k - 1);
    }
  }

  /** Scaling a quotient bracket q * d <= x < (q + 1) * d by w, where
      d * w == big. */
  lemma ScaleBracket(x: int, q: int, d: int, w: int, big: int)
    requires q * d <= x < (q + 1) * d && w > 0 && d * w == big
    ensures q * big <= x * w < (q + 1) * big
  {
    MulBracket(q * d, x, d, w);
    MulAssoc(q, d, w);
    assert (q * d + d) * w == (q + 1) * (d * w);
  }

  /** Multiplying a bracket lo <= x < lo + width by a positive factor. */
  lemma MulBracket(lo: int, x: int, width: int, w: int)
    requires lo <= x < lo + width && w > 0
    ensures lo * w <= x * w < (lo + width) * w
  {
    Distrib(x, lo, w);
    Distrib(lo + width, x, w);
    MulAtLeast(x - lo + 1, w);
    MulAtLeast(lo + width - x, w);
  }
}
