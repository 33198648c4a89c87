/** Bit-level conversion between IEEE 754 binary32 and binary16 words
    (section 3.4 of IEEE 754-2008, binary interchange format encodings),
    as done by `tensor_float32_to_f16` and `tensor_f16_to_float32`.

    A C `float` is seen through a `union` as its 32-bit pattern, so both
    conversions are total functions on words. Words are unsigned integers
    below 2^32 or 2^16, and the source's bit operations are written as the
    arithmetic they perform on such values: `x >> k` is `x / 2^k`,
    `x & (2^k - 1)` is `x % 2^k`, `x << k` is `x * 2^k` (never overflowing
    where it is used), and `a | b` on fields with disjoint bits is `a + b`. */
module HalfCodec {
  import opened Arith

  /** A `uint32_t` value. */
  type Word32 = x: int | 0 <= x < 0x1_0000_0000

  /** A `uint16_t` value. */
  type Word16 = x: int | 0 <= x < 0x1_0000

  // ---------------------------------------------------------------------------
  // Fields of the two encodings
  // ---------------------------------------------------------------------------

  /** Sign bit (bit 31) of a binary32 word. */
  function Sign32(u: Word32): nat { u / 0x8000_0000 }

  /** Biased exponent field (bits 30..23) of a binary32 word. */
  function Exp32(u: Word32): nat { (u / 0x80_0000) % 0x100 }

  /** Trailing significand field (bits 22..0) of a binary32 word. */
  function Frac32(u: Word32): nat { u % 0x80_0000 }

  /** Sign bit (bit 15) of a binary16 word. */
  function Sign16(h: Word16): nat { h / 0x8000 }

  /** Biased exponent field (bits 14..10) of a binary16 word. */
  function Exp16(h: Word16): nat { (h / 0x400) % 0x20 }

  /** Trailing significand field (bits 9..0) of a binary16 word. */
  function Frac16(h: Word16): nat { h % 0x400 }

  /** The binary32 word `sign << 31 | exp << 23 | frac`. */
  function Pack32(sign: nat, exp: nat, frac: nat): (u: Word32)
    requires sign <= 1 && exp <= 0xFF && frac <= 0x7F_FFFF
    ensures Sign32(u) == sign && Exp32(u) == exp && Frac32(u) == frac
  {
    var u := sign * 0x8000_0000 + exp * 0x80_0000 + frac;
    DivModUnique(u, 0x80_0000, sign * 0x100 + exp, frac);
    DivModUnique(sign * 0x100 + exp, 0x100, sign, exp);
    DivModUnique(u, 0x8000_0000, sign, exp * 0x80_0000 + frac);
    u
  }

  /** The binary16 word `sign << 15 | exp << 10 | frac`. */
  function Pack16(sign: nat, exp: nat, frac: nat): (h: Word16)
    requires sign <= 1 && exp <= 0x1F && frac <= 0x3FF
    ensures Sign16(h) == sign && Exp16(h) == exp && Frac16(h) == frac
  {
    var h := sign * 0x8000 + exp * 0x400 + frac;
    DivModUnique(h, 0x400, sign * 0x20 + exp, frac);
    DivModUnique(sign * 0x20 + exp, 0x20, sign, exp);
    DivModUnique(h, 0x8000, sign, exp * 0x400 + frac);
    h
  }

  /** Every binary32 word is the packing of its own fields. */
  lemma Unpack32(u: Word32)
    ensures Sign32(u) <= 1 && Exp32(u) <= 0xFF && Frac32(u) <= 0x7F_FFFF
    ensures u == Pack32(Sign32(u), Exp32(u), Frac32(u))
  {
    var q := u / 0x80_0000;
    assert u == q * 0x80_0000 + Frac32(u);
    assert q == (q / 0x100) * 0x100 + Exp32(u);
    assert u == (q / 0x100) * 0x8000_0000 + (Exp32(u) * 0x80_0000 + Frac32(u));
    DivModUnique(u, 0x8000_0000, q / 0x100, Exp32(u) * 0x80_0000 + Frac32(u));
  }

  /** Every binary16 word is the packing of its own fields. */
  lemma Unpack16(h: Word16)
    ensures Sign16(h) <= 1 && Exp16(h) <= 0x1F && Frac16(h) <= 0x3FF
    ensures h == Pack16(Sign16(h), Exp16(h), Frac16(h))
  {
    var q := h / 0x400;
    assert h == q * 0x400 + Frac16(h);
    assert q == (q / 0x20) * 0x20 + Exp16(h);
    assert h == (q / 0x20) * 0x8000 + (Exp16(h) * 0x400 + Frac16(h));
    DivModUnique(h, 0x8000, q / 0x20, Exp16(h) * 0x400 + Frac16(h));
  }

  // Classes of binary16 words.
  predicate IsZero16(h: Word16) { Exp16(h) == 0 && Frac16(h) == 0 }
  predicate IsSubnormal16(h: Word16) { Exp16(h) == 0 && Frac16(h) != 0 }
  predicate IsNormal16(h: Word16) { 1 <= Exp16(h) <= 30 }
  predicate IsInf16(h: Word16) { Exp16(h) == 0x1F && Frac16(h) == 0 }
  predicate IsNaN16(h: Word16) { Exp16(h) == 0x1F && Frac16(h) != 0 }

  // Classes of binary32 words.
  predicate IsZero32(u: Word32) { Exp32(u) == 0 && Frac32(u) == 0 }
  predicate IsSubnormal32(u: Word32) { Exp32(u) == 0 && Frac32(u) != 0 }
  predicate IsNormal32(u: Word32) { 1 <= Exp32(u) <= 254 }
  predicate IsInf32(u: Word32) { Exp32(u) == 0xFF && Frac32(u) == 0 }
  predicate IsNaN32(u: Word32) { Exp32(u) == 0xFF && Frac32(u) != 0 }

  // ---------------------------------------------------------------------------
  // Magnitudes of finite words, as exact integers
  // ---------------------------------------------------------------------------

  /** |value| * 2^24 of a finite binary16 word: an integer, since 2^-24 is the
      least binary16 subnormal. */
  function HalfScaled(h: Word16): nat
    requires Exp16(h) != 0x1F
  {
    if Exp16(h) == 0 then Frac16(h) else (0x400 + Frac16(h)) * Pow2(Exp16(h) - 1)
  }

  /** |value| * 2^149 of a finite binary32 word: an integer, since 2^-149 is
      the least binary32 subnormal. A binary32 magnitude equals a binary16
      one exactly when SingleScaled == HalfScaled * Two125 (2^125). */
  function SingleScaled(u: Word32): nat
    requires Exp32(u) != 0xFF
  {
    if Exp32(u) == 0 then Frac32(u) else (0x80_0000 + Frac32(u)) * Pow2(Exp32(u) - 1)
  }

  /** The gap from a finite binary16 magnitude to the next larger one, in the
      units of HalfScaled. */
  function HalfUlp(h: Word16): nat
    requires Exp16(h) != 0x1F
  {
    if Exp16(h) == 0 then 1 else Pow2(Exp16(h) - 1)
  }

  // ---------------------------------------------------------------------------
  // binary32 -> binary16
  // ---------------------------------------------------------------------------

  /** `tensor_float32_to_f16`: the exponent is re-biased (field - 127 + 15)
      as a signed int. Below -10 the result is a signed zero; from -10 to 0
      the 24-bit significand (leading 1 restored) is shifted right by
      14 - exp into a subnormal; from 31 up the exponent is all ones and the
      fraction is 1 when the 23-bit input fraction is nonzero, else 0;
      otherwise the exponent and input fraction bits 22..13 are packed.
      F32ToF16Fields states the result field by field. */
  function F32ToF16(u: Word32): (h: Word16)
    ensures Sign16(h) == Sign32(u)
  {
    var sign := Sign32(u);
    var exp := Exp32(u) - 127 + 15;
    var mant := Frac32(u) / 0x2000;
    if exp <= 0 then
      if exp < -10 then
        Pack16(sign, 0, 0)
      else
        var mantissa := Frac32(u) + 0x80_0000;
        var shift := 14 - exp;
        Pack16(sign, 0, Shr(mantissa, shift) % 0x400)
    else if exp >= 31 then
      Pack16(sign, 0x1F, if Frac32(u) != 0 then 1 else 0)
    else
      Pack16(sign, exp, mant)
  }

  /** The fields of F32ToF16's result, by range of the re-biased exponent
      (input exponent field - 112). */
  lemma F32ToF16Fields(u: Word32)
    // below -10: signed zero
    ensures Exp32(u) < 102 ==> IsZero16(F32ToF16(u))
    // -10..0: exponent 0, and the 24-bit significand re-scaled to units of
    // 2^-24 with the remainder dropped
    ensures 102 <= Exp32(u) <= 112 ==>
              Exp16(F32ToF16(u)) == 0 &&
              Frac16(F32ToF16(u)) == Shr(0x80_0000 + Frac32(u), 126 - Exp32(u))
    // 1..30: the same exponent, and fraction bits 22..13
    ensures 113 <= Exp32(u) <= 142 ==>
              Exp16(F32ToF16(u)) == Exp32(u) - 112 && Frac16(F32ToF16(u)) == Frac32(u) / 0x2000
    // 31 and up: all-ones exponent, and a NaN with fraction 1 exactly when
    // the 23-bit input fraction is nonzero, even for a finite input
    ensures 143 <= Exp32(u) ==>
              Exp16(F32ToF16(u)) == 0x1F && Frac16(F32ToF16(u)) == (if Frac32(u) != 0 then 1 else 0)
  {
    if 102 <= Exp32(u) <= 112 {
      EncodeSubnormal(u);
    }
  }

  lemma EncodeSubnormal(u: Word32)
    requires 102 <= Exp32(u) <= 112
    ensures Exp16(F32ToF16(u)) == 0
    ensures Frac16(F32ToF16(u)) == Shr(0x80_0000 + Frac32(u), 126 - Exp32(u))
  {
    var m, k := 0x80_0000 + Frac32(u), 126 - Exp32(u);
    SubnormalShiftBound(m, k);
    EncodeSubnormalWord(u, m, k);
  }

  lemma SubnormalShiftBound(m: nat, k: nat)
    requires m < 0x100_0000 && 14 <= k
    ensures Shr(m, k) < 0x400
  {
    Pow2Table();
    Pow2Monotone(10 + 14, 10 + k);
    ShrBound(m, k, 10);
  }

  lemma EncodeSubnormalWord(u: Word32, m: nat, k: nat)
    requires 102 <= Exp32(u) <= 112
    requires m == 0x80_0000 + Frac32(u) && k == 126 - Exp32(u) && Shr(m, k) < 0x400
    ensures F32ToF16(u) == Pack16(Sign32(u), 0, Shr(m, k))
  {
    EncodeSubnormalBranch(u);
    assert Shr(m, k) % 0x400 == Shr(m, k);
  }

  /** The subnormal branch of the encoder, before the mask is shown to be a
      no-op. */
  lemma EncodeSubnormalBranch(u: Word32)
    requires 102 <= Exp32(u) <= 112
    ensures F32ToF16(u) == Pack16(Sign32(u), 0, Shr(0x80_0000 + Frac32(u), 126 - Exp32(u)) % 0x400)
  {
    var exp := Exp32(u) - 127 + 15;
    assert -10 <= exp <= 0 && 14 - exp == 126 - Exp32(u);
  }

  // ---------------------------------------------------------------------------
  // binary16 -> binary32
  // ---------------------------------------------------------------------------

  /** A nonzero subnormal fraction shifted left until bit 10 is set, with the
      number of shifts it took. */
  datatype Normalized = Normalized(value: nat, shifts: nat)

  /** Below 0x800, bit 10 of a value (`m & 0x400`) is clear exactly when
      the value is below 0x400. */
  lemma Bit10Clear(m: nat)
    requires m < 0x800
    ensures (m / 0x400) % 2 == 0 <==> m < 0x400
  {
  }

  /** The normalisation loop of `tensor_f16_to_float32` (shift left while
      bit 10 is clear), as a recursive function: the number of shifts is the
      distance of the leading 1 of `m` below bit 10. */
  function Normalize(m: nat): (r: Normalized)
    requires 0 < m < 0x800
    ensures 0x400 <= r.value < 0x800
    ensures r.shifts <= 10
    ensures Pow2(10 - r.shifts) <= m < Pow2(11 - r.shifts)
    decreases 0x800 - m
  {
    if m >= 0x400 then
      assert Pow2(10) == 0x400 && Pow2(11) == 0x800;
      Normalized(m, 0)
    else
      var r := Normalize(m * 2);
      ShiftBracket(m, r.shifts);
      Normalized(r.value, r.shifts + 1)
  }

  /** The normalised value is `m` shifted left by the number of shifts. */
  lemma {:induction false} NormalizeValue(m: nat)
    requires 0 < m < 0x800
    ensures Normalize(m).value == m * Pow2(Normalize(m).shifts)
    decreases 0x800 - m
  {
    if m < 0x400 {
      var r := Normalize(m * 2);
      NormalizeValue(m * 2);
      ShiftCount(m, r.value, r.shifts);
    }
  }

  lemma ShiftCount(m: nat, v: nat, s: nat)
    requires v == m * 2 * Pow2(s)
    ensures v == m * Pow2(s + 1)
  {
    var p := Pow2(s);
    assert Pow2(s + 1) == 2 * p;
    assert m * 2 * p == m * (2 * p);
  }

  lemma ShiftBracket(m: nat, s: nat)
    requires 0 < m && s <= 10 && Pow2(10 - s) <= m * 2 < Pow2(11 - s)
    ensures s + 1 <= 10 && Pow2(10 - (s + 1)) <= m < Pow2(11 - (s + 1))
  {
    if s == 10 {
      assert false;
    }
    var k := 9 - s;
    assert Pow2(k + 1) == 2 * Pow2(k);
    assert Pow2(k + 2) == 2 * Pow2(k + 1);
  }

  /** Exponent and trailing significand fields of a decoded binary32 word. */
  datatype Fields = Fields(exp: nat, frac: nat)

  /** The fields `tensor_f16_to_float32` computes for a binary16 word, with
      the subnormal exponent counter starting at `start`: the source starts
      it at -1, so a subnormal with n normalising shifts gets exponent field
      113 + start - n. Zero decodes to zero fields; an all-ones exponent to
      an all-ones exponent and the fraction shifted left by 13; a normal
      exponent is re-biased by +112 with the fraction shifted left by 13. */
  function DecodeFields(h: Word16, start: int): (f: Fields)
    requires start == -1 || start == 0
    ensures f.exp <= 0xFF && f.frac <= 0x7F_FFFF
  {
    var exp: int := Exp16(h);
    var mant: int := Frac16(h);
    if exp == 0 then
      if mant == 0 then
        Fields(0, 0)
      else
        var n := Normalize(mant);
        var e := start - n.shifts;
        Fields(127 - 15 + 1 + e, (n.value % 0x400) * 0x2000)
    else if exp == 0x1F then
      Fields(0xFF, if mant != 0 then mant * 0x2000 else 0)
    else
      Fields(exp - 15 + 127, mant * 0x2000)
  }

  /** `tensor_f16_to_float32`, as written. */
  function F16ToF32(h: Word16): (u: Word32)
    ensures Sign32(u) == Sign16(h)
  {
    var f := DecodeFields(h, -1);
    Pack32(Sign16(h), f.exp, f.frac)
  }

  /** `tensor_f16_to_float32` with the subnormal exponent counter started at
      0 instead of -1: the decoder the binary16 encoding calls for. */
  function F16ToF32Intended(h: Word16): (u: Word32)
    ensures Sign32(u) == Sign16(h)
  {
    var f := DecodeFields(h, 0);
    Pack32(Sign16(h), f.exp, f.frac)
  }

  /** `tensor_f16_to_float32` with its normalisation `while` loop: the loop
      ends after exactly the shifts Normalize counts, so the method computes
      F16ToF32. `shifts` reports how many times the loop body ran. */
  method F16ToF32Loop(h: Word16) returns (u: Word32, shifts: nat)
    ensures u == F16ToF32(h)
    ensures shifts > 0 <==> IsSubnormal16(h)
    ensures shifts <= 10
  {
    var sign := Sign16(h);
    var exp: int := Exp16(h);
    var mant: int := Frac16(h);
    var outExp: nat, outMant: nat;
    shifts := 0;
    DecodeFieldsSpec(h, -1);
    if exp == 0 {
      if mant == 0 {
        outExp, outMant := 0, 0;
      } else {
        var m, e := NormalizeLoop(mant);
        shifts := -1 - e;
        NormalizeSubnormal(mant);
        m := m % 0x400;
        outExp, outMant := 127 - 15 + 1 + e, m * 0x2000;
      }
    } else if exp == 0x1F {
      outExp, outMant := 0xFF, if mant != 0 then mant * 0x2000 else 0;
    } else {
      outExp, outMant := exp - 15 + 127, mant * 0x2000;
    }
    assert DecodeFields(h, -1) == Fields(outExp, outMant);
    u := Pack32(sign, outExp, outMant);
  }

  /** The normalisation loop of `tensor_f16_to_float32` on a nonzero
      subnormal fraction: it stops with bit 10 set after the shifts
      Normalize counts, having decremented the counter `e` from -1 once per
      shift. */
  method NormalizeLoop(mant: nat) returns (m: nat, e: int)
    requires 0 < mant < 0x400
    ensures e <= -1 && Normalize(mant) == Normalized(m, -1 - e)
  {
    e := -1;
    m := mant;
    while (m / 0x400) % 2 == 0
      invariant 0 < m < 0x800
      invariant Normalize(m).value == Normalize(mant).value
      invariant e <= -1
      invariant -1 - e + Normalize(m).shifts == Normalize(mant).shifts
      decreases Normalize(m).shifts
    {
      Bit10Clear(m);
      m := m * 2;
      e := e - 1;
    }
    Bit10Clear(m);
  }

  /** The fields DecodeFields produces, by class of the binary16 word. */
  lemma DecodeFieldsSpec(h: Word16, start: int)
    requires start == -1 || start == 0
    ensures IsZero16(h) ==> DecodeFields(h, start) == Fields(0, 0)
    ensures IsSubnormal16(h) ==>
              var n := Normalize(Frac16(h));
              1 <= n.shifts &&
              DecodeFields(h, start) == Fields(113 + start - n.shifts, (n.value - 0x400) * 0x2000)
    ensures Exp16(h) == 0x1F ==> DecodeFields(h, start) == Fields(0xFF, Frac16(h) * 0x2000)
    ensures IsNormal16(h) ==> DecodeFields(h, start) == Fields(Exp16(h) + 112, Frac16(h) * 0x2000)
  {
    if IsSubnormal16(h) {
      DecodeSubnormal(h, start);
    }
  }

  lemma DecodeSubnormal(h: Word16, start: int)
    requires start == -1 || start == 0
    requires IsSubnormal16(h)
    ensures var n := Normalize(Frac16(h));
            1 <= n.shifts &&
            DecodeFields(h, start) == Fields(113 + start - n.shifts, (n.value - 0x400) * 0x2000)
  {
    NormalizeSubnormal(Frac16(h));
  }

  /** A ten-bit fraction needs at least one shift to reach bit 10. */
  lemma NormalizeSubnormal(m: nat)
    requires 0 < m < 0x400
    ensures 1 <= Normalize(m).shifts
    ensures Normalize(m).value % 0x400 == Normalize(m).value - 0x400
  {
    var r := Normalize(m * 2);
    assert Normalize(m) == Normalized(r.value, r.shifts + 1);
    DivModUnique(r.value, 0x400, 1, r.value - 0x400);
  }

  /** Decoding keeps the class of the word: zeros, infinities and NaNs stay
      what they are, and every finite nonzero binary16 word (subnormals
      included) becomes a normal binary32 word. */
  lemma F16ToF32Classes(h: Word16)
    ensures IsZero32(F16ToF32(h)) <==> IsZero16(h)
    ensures IsInf32(F16ToF32(h)) <==> IsInf16(h)
    ensures IsNaN32(F16ToF32(h)) <==> IsNaN16(h)
    ensures IsNormal32(F16ToF32(h)) <==> IsNormal16(h) || IsSubnormal16(h)
  {
    DecodeFieldsSpec(h, -1);
  }

  /** Two binary16 words with the same three fields are the same word. */
  lemma SameFields16(a: Word16, b: Word16)
    requires Sign16(a) == Sign16(b) && Exp16(a) == Exp16(b) && Frac16(a) == Frac16(b)
    ensures a == b
  {
    Unpack16(a);
    Unpack16(b);
  }

  // ---------------------------------------------------------------------------
  // Round trips binary16 -> binary32 -> binary16
  // ---------------------------------------------------------------------------

  /** Zeros, normal numbers and infinities come back bit for bit. */
  lemma RoundTrip(h: Word16)
    requires IsZero16(h) || IsNormal16(h) || IsInf16(h)
    ensures F32ToF16(F16ToF32(h)) == h
  {
    DecodeFieldsSpec(h, -1);
    F32ToF16Fields(F16ToF32(h));
    SameFields16(F32ToF16(F16ToF32(h)), h);
  }

  /** A NaN comes back as the NaN with fraction 1 and the same sign: its
      payload is lost. */
  lemma RoundTripNaN(h: Word16)
    requires IsNaN16(h)
    ensures F32ToF16(F16ToF32(h)) == Sign16(h) * 0x8000 + 0x7C01
  {
    DecodeFieldsSpec(h, -1);
    F32ToF16Fields(F16ToF32(h));
    SameFields16(F32ToF16(F16ToF32(h)), Pack16(Sign16(h), 0x1F, 1));
  }

  /** Re-encoding the binary32 fields a subnormal decodes to, with the
      counter started at `start`: the 24-bit significand is the fraction
      shifted left by 13 + the normalising shifts, and the encoder shifts it
      right by 13 + shifts - start. */
  lemma SubnormalReencode(m: nat, start: int)
    requires 0 < m < 0x400 && (start == -1 || start == 0)
    ensures var n := Normalize(m);
            Shr(0x80_0000 + (n.value - 0x400) * 0x2000, 126 - (113 + start - n.shifts)) ==
            (if start == 0 then m else m / 2)
  {
    var n := Normalize(m);
    var x := 0x80_0000 + (n.value - 0x400) * 0x2000;
    SubnormalSignificand(m);
    ShrMul(m, n.shifts + 13);
    if start == -1 {
      ShrAdd(x, n.shifts + 13, 1);
    }
    assert 126 - (113 + start - n.shifts) == n.shifts + 13 - start;
  }

  /** The 24-bit significand of a decoded subnormal is its fraction shifted
      left by 13 + the normalising shifts. */
  lemma SubnormalSignificand(m: nat)
    requires 0 < m < 0x400
    ensures var n := Normalize(m);
            0x80_0000 + (n.value - 0x400) * 0x2000 == m * Pow2(n.shifts + 13)
  {
    var n := Normalize(m);
    NormalizeValue(m);
    Pow2Add(n.shifts, 13);
    assert Pow2(13) == 0x2000;
    MulAssoc(m, Pow2(n.shifts), 0x2000);
  }

  /** As written, a subnormal comes back with its fraction halved (the low
      bit dropped): the decoder's exponent is one too small. */
  lemma RoundTripSubnormal(h: Word16)
    requires IsSubnormal16(h)
    ensures F32ToF16(F16ToF32(h)) == Sign16(h) * 0x8000 + Frac16(h) / 2
  {
    DecodeFieldsSpec(h, -1);
    F32ToF16Fields(F16ToF32(h));
    SubnormalReencode(Frac16(h), -1);
    SameFields16(F32ToF16(F16ToF32(h)), Pack16(Sign16(h), 0, Frac16(h) / 2));
  }

  /** With the counter started at 0, every non-NaN binary16 word comes back
      bit for bit. */
  lemma RoundTripIntended(h: Word16)
    requires !IsNaN16(h)
    ensures F32ToF16(F16ToF32Intended(h)) == h
  {
    DecodeFieldsSpec(h, 0);
    if IsSubnormal16(h) {
      F32ToF16Fields(F16ToF32Intended(h));
      SubnormalReencode(Frac16(h), 0);
      SameFields16(F32ToF16(F16ToF32Intended(h)), h);
    } else {
      DecodeFieldsSpec(h, -1);
      assert F16ToF32Intended(h) == F16ToF32(h);
      RoundTrip(h);
    }
  }

  // ---------------------------------------------------------------------------
  // Round trips binary32 -> binary16 -> binary32
  // ---------------------------------------------------------------------------

  /** A single whose value is a normal half (exponent field 113..142, low 13
      fraction bits clear) comes back bit for bit. Singles whose value is a
      subnormal half do not: the decoder halves them (RoundTripSubnormal). */
  lemma RoundTripRepresentable(u: Word32)
    requires 113 <= Exp32(u) <= 142 && Frac32(u) % 0x2000 == 0
    ensures F16ToF32(F32ToF16(u)) == u
  {
    F32ToF16Fields(u);
    DecodeFieldsSpec(F32ToF16(u), -1);
    Unpack32(u);
    Unpack32(F16ToF32(F32ToF16(u)));
  }

  /** Signed zeros and infinities come back bit for bit. */
  lemma RoundTripZeroInf(u: Word32)
    requires IsZero32(u) || IsInf32(u)
    ensures F16ToF32(F32ToF16(u)) == u
  {
    F32ToF16Fields(u);
    DecodeFieldsSpec(F32ToF16(u), -1);
    Unpack32(u);
    Unpack32(F16ToF32(F32ToF16(u)));
  }

  // ---------------------------------------------------------------------------
  // Magnitudes
  // ---------------------------------------------------------------------------

  /** (0x400 + f) * 2^(e-1) in binary16 units is (2^23 + f * 2^13) * 2^(e+111)
      in binary32 units. */
  lemma NormalScale(f: nat, e: nat)
    requires 1 <= e
    ensures (0x80_0000 + f * 0x2000) * Pow2(e + 111) == (0x400 + f) * Pow2(e - 1) * Two125
  {
    Pow2Plus112(e - 1);
    Rearrange(0x400 + f, Pow2(e - 1), Two112, 0x80_0000 + f * 0x2000, 0x2000);
  }

  /** Decoding a zero or normal binary16 word gives exactly the same
      magnitude. */
  lemma F16ToF32Exact(h: Word16)
    requires IsZero16(h) || IsNormal16(h)
    ensures SingleScaled(F16ToF32(h)) == HalfScaled(h) * Two125
  {
    DecodeFieldsSpec(h, -1);
    if IsNormal16(h) {
      NormalScale(Frac16(h), Exp16(h));
    }
  }

  /** The magnitude of a decoded subnormal with the counter started at
      `start`: m * 2^(13 + start) * 2^112 in binary32 units, where
      m * 2^13 * 2^112 is the true magnitude. */
  lemma SubnormalScale(m: nat, start: int)
    requires 0 < m < 0x400 && (start == -1 || start == 0)
    ensures var n := Normalize(m);
            (0x80_0000 + (n.value - 0x400) * 0x2000) * Pow2(112 + start - n.shifts) ==
            m * Pow2(13 + start) * Two112
  {
    var n := Normalize(m);
    SubnormalSignificand(m);
    Pow2Add(n.shifts + 13, 112 + start - n.shifts);
    Pow2Plus112(13 + start);
    MulAssoc(m, Pow2(n.shifts + 13), Pow2(112 + start - n.shifts));
    MulAssoc(m, Pow2(13 + start), Two112);
  }

  /** As written, a decoded subnormal has exactly half the magnitude of the
      binary16 word. */
  lemma F16ToF32HalvesSubnormals(h: Word16)
    requires IsSubnormal16(h)
    ensures 2 * SingleScaled(F16ToF32(h)) == HalfScaled(h) * Two125
  {
    var m := Frac16(h);
    DecodedSubnormalScale(h);
    assert Pow2(12) == 0x1000 by { Pow2Table(); }
    DoubleHalf(m, SingleScaled(F16ToF32(h)), Two112);
  }

  lemma DecodedSubnormalScale(h: Word16)
    requires IsSubnormal16(h)
    ensures SingleScaled(F16ToF32(h)) == Frac16(h) * Pow2(12) * Two112
  {
    var m, u := Frac16(h), F16ToF32(h);
    var n := Normalize(m);
    assert Exp32(u) == 112 - n.shifts && Frac32(u) == (n.value - 0x400) * 0x2000 by {
      DecodeSubnormal(h, -1);
    }
    SubnormalWordScale(u, m, -1);
  }

  /** The magnitude of a binary32 word holding the fields a subnormal
      fraction `m` decodes to. */
  lemma SubnormalWordScale(u: Word32, m: nat, start: int)
    requires 0 < m < 0x400 && (start == -1 || start == 0)
    requires Exp32(u) == 113 + start - Normalize(m).shifts
    requires Frac32(u) == (Normalize(m).value - 0x400) * 0x2000
    ensures SingleScaled(u) == m * Pow2(13 + start) * Two112
  {
    var n := Normalize(m);
    NormalizeSubnormal(m);
    SubnormalScale(m, start);
    var k := 112 + start - n.shifts;
    assert Exp32(u) - 1 == k;
    assert SingleScaled(u) == (0x80_0000 + Frac32(u)) * Pow2(k);
  }

  lemma DoubleHalf(m: nat, x: nat, t: nat)
    requires x == m * 0x1000 * t && t == Two112
    ensures 2 * x == m * Two125
  {
    MulAssoc(m, 0x1000, t);
    assert 2 * (0x1000 * t) == Two125;
  }

  /** With the counter started at 0, every finite binary16 word decodes to
      exactly its own magnitude. */
  lemma F16ToF32IntendedExact(h: Word16)
    requires Exp16(h) != 0x1F
    ensures SingleScaled(F16ToF32Intended(h)) == HalfScaled(h) * Two125
  {
    if IsSubnormal16(h) {
      IntendedSubnormalExact(h);
    } else {
      DecodeFieldsSpec(h, 0);
      DecodeFieldsSpec(h, -1);
      assert F16ToF32Intended(h) == F16ToF32(h);
      F16ToF32Exact(h);
    }
  }

  lemma IntendedSubnormalExact(h: Word16)
    requires IsSubnormal16(h)
    ensures SingleScaled(F16ToF32Intended(h)) == HalfScaled(h) * Two125
  {
    var m, u := Frac16(h), F16ToF32Intended(h);
    var n := Normalize(m);
    assert Exp32(u) == 113 - n.shifts && Frac32(u) == (n.value - 0x400) * 0x2000 by {
      DecodeSubnormal(h, 0);
    }
    SubnormalWordScale(u, m, 0);
    assert Pow2(13) == 0x2000 by { Pow2Table(); }
    MulAssoc(m, 0x2000, Two112);
  }

  /** The started-at-0 decoder differs from the source only on subnormals. */
  lemma F16ToF32IntendedAgrees(h: Word16)
    ensures F16ToF32Intended(h) == F16ToF32(h) <==> !IsSubnormal16(h)
  {
    DecodeFieldsSpec(h, 0);
    DecodeFieldsSpec(h, -1);
    if IsSubnormal16(h) {
      assert Exp32(F16ToF32Intended(h)) != Exp32(F16ToF32(h));
    }
  }

  /** Rounding toward zero onto the binary16 grid: for a binary32 word whose
      re-biased exponent is at most 30 (a finite value below 2^16), the
      result is finite, its magnitude is at most the input's, and the next
      binary16 magnitude up exceeds the input's. The sign is always kept
      (F32ToF16's own contract). */
  lemma F32ToF16RoundsTowardZero(u: Word32)
    requires Exp32(u) <= 142
    ensures Exp16(F32ToF16(u)) != 0x1F
    ensures HalfScaled(F32ToF16(u)) * Two125 <= SingleScaled(u)
    ensures SingleScaled(u) < (HalfScaled(F32ToF16(u)) + HalfUlp(F32ToF16(u))) * Two125
  {
    F32ToF16Fields(u);
    if Exp32(u) < 102 {
      UnderflowValue(u);
    } else if Exp32(u) <= 112 {
      SubnormalValue(u);
    } else {
      NormalValue(u);
    }
  }

  /** Every binary32 magnitude with a re-biased exponent below -10 is below
      the least binary16 subnormal. */
  lemma UnderflowValue(u: Word32)
    requires Exp32(u) < 102
    ensures SingleScaled(u) < Two125
  {
    if Exp32(u) > 0 {
      var a := Exp32(u) - 1;
      Pow2Monotone(a + 12, a + 12 + (100 - a));
      Pow2At112(a + 12 + (100 - a));
      Pow2Add(a, 12);
      assert Pow2(12) == 0x1000;
      BelowTwo125(0x80_0000 + Frac32(u), Pow2(a));
    }
  }

  lemma BelowTwo125(x: nat, p: nat)
    requires x < 0x100_0000 && p * 0x1000 <= Two112
    ensures x * p < Two125
  {
    if p > 0 {
      MulBracket(0, x, 0x100_0000, p);
    }
  }

  /** In the subnormal range the result's fraction is the significand shifted
      right by 126 - exponent field, so it is the input magnitude divided by
      one binary16 unit, remainder dropped. */
  lemma SubnormalValue(u: Word32)
    requires 102 <= Exp32(u) <= 112
    ensures var h := F32ToF16(u);
            Exp16(h) == 0 &&
            Frac16(h) * Two125 <= SingleScaled(u) < (Frac16(h) + 1) * Two125
  {
    F32ToF16Fields(u);
    var m, k := 0x80_0000 + Frac32(u), 126 - Exp32(u);
    ShrBracket(m, k);
    Pow2Add(k, Exp32(u) - 1);
    Pow2At125(k + (Exp32(u) - 1));
    ScaleBracket(m, Shr(m, k), Pow2(k), Pow2(Exp32(u) - 1), Two125);
  }

  /** In the normal range the result keeps the exponent and the top ten
      fraction bits, so its magnitude is the input's with the low 13 bits of
      the significand cleared. */
  lemma NormalValue(u: Word32)
    requires 113 <= Exp32(u) <= 142
    ensures var h := F32ToF16(u);
            IsNormal16(h) &&
            HalfScaled(h) * Two125 <= SingleScaled(u) < (HalfScaled(h) + HalfUlp(h)) * Two125
  {
    var e := Exp32(u) - 112;
    var a, m := 0x400 + Frac32(u) / 0x2000, 0x80_0000 + Frac32(u);
    var p := Pow2(e - 1);
    NormalHalfScaled(u, F32ToF16(u));
    assert SingleScaled(u) == m * (p * Two112) by { Pow2Plus112(e - 1); }
    NormalBracket(a, m, p, Two112);
  }

  /** The magnitude and ulp of a normal result, in terms of the input's
      fields. */
  lemma NormalHalfScaled(u: Word32, h: Word16)
    requires 113 <= Exp32(u) <= 142 && h == F32ToF16(u)
    ensures IsNormal16(h)
    ensures HalfScaled(h) == (0x400 + Frac32(u) / 0x2000) * Pow2(Exp32(u) - 113)
    ensures HalfUlp(h) == Pow2(Exp32(u) - 113)
  {
    F32ToF16Fields(u);
  }

  lemma NormalBracket(a: nat, m: nat, p: nat, t: nat)
    requires 0x2000 * a <= m < 0x2000 * a + 0x2000 && p >= 1 && t == Two112
    ensures a * p * Two125 <= m * (p * t) < (a * p + p) * Two125
  {
    var w, lo, hi := p * t, 0x2000 * a, 0x2000 * (a + 1);
    assert 0x2000 * t == Two125;
    MulBracket(lo, m, 0x2000, w);
    Rearrange(a, p, t, lo, 0x2000);
    Rearrange(a + 1, p, t, hi, 0x2000);
    assert (a + 1) * p == a * p + p;
  }

  /** As written, the encoder yields a NaN for every input whose re-biased
      exponent is 31 or more and whose 23-bit fraction is nonzero, whether
      the input is a NaN or a finite number. */
  lemma F32ToF16NaNs(u: Word32)
    ensures IsNaN16(F32ToF16(u)) <==> Exp32(u) >= 143 && Frac32(u) != 0
    ensures IsInf16(F32ToF16(u)) <==> Exp32(u) >= 143 && Frac32(u) == 0
  {
    F32ToF16Fields(u);
  }

  /** 0x4780_0001: the finite binary32 value (1 + 2^-23) * 2^16, too large
      for binary16. */
  const FiniteOverflow: Word32 := 0x4780_0001

  /** Witness for the finite-overflow discrepancy: the source encodes
      FiniteOverflow as the NaN 0x7C01; the corrected encoder gives
      +infinity. */
  lemma FiniteOverflowWitness()
    ensures IsNormal32(FiniteOverflow) && !IsNaN32(FiniteOverflow)
    ensures F32ToF16(FiniteOverflow) == 0x7C01 && IsNaN16(0x7C01)
    ensures F32ToF16Intended(FiniteOverflow) == 0x7C00 && IsInf16(0x7C00)
  {
    var u := FiniteOverflow;
    assert Exp32(u) == 143 && Frac32(u) == 1 && Sign32(u) == 0;
    F32ToF16Fields(u);
    SameFields16(F32ToF16(u), 0x7C01);
  }

  /** `tensor_float32_to_f16` with the NaN fraction set only for a NaN input,
      so that a finite input too large for binary16 becomes a signed
      infinity; every other input encodes as in the source. */
  function F32ToF16Intended(u: Word32): (h: Word16)
    ensures Sign16(h) == Sign32(u)
  {
    if IsNormal32(u) && Exp32(u) >= 143 then Pack16(Sign32(u), 0x1F, 0) else F32ToF16(u)
  }

  /** The corrected encoder yields a NaN exactly for a NaN, and an infinity
      exactly for an infinity or a finite value whose re-biased exponent is
      31 or more; it differs from the source only on finite overflow with a
      nonzero fraction. */
  lemma F32ToF16IntendedClasses(u: Word32)
    ensures IsNaN16(F32ToF16Intended(u)) <==> IsNaN32(u)
    ensures IsInf16(F32ToF16Intended(u)) <==> Exp32(u) >= 143 && !IsNaN32(u)
    ensures F32ToF16Intended(u) == F32ToF16(u) <==> !(IsNormal32(u) && Exp32(u) >= 143 && Frac32(u) != 0)
  {
    F32ToF16Fields(u);
  }

  /** 0x0001: the least binary16 subnormal, 2^-24. */
  const LeastSubnormal: Word16 := 0x0001

  /** Witness for the subnormal decoding discrepancy: LeastSubnormal is
      nonzero, yet decoding it and encoding the result gives +0, because
      the decoded word is 2^-25 rather than 2^-24. */
  lemma SubnormalDecodeWitness(h: Word16)
    requires h == LeastSubnormal
    ensures IsSubnormal16(h) && F32ToF16(F16ToF32(h)) == 0x0000
  {
    assert Sign16(h) == 0 && Exp16(h) == 0 && Frac16(h) == 1;
    RoundTripSubnormal(h);
  }
}
