/** The element-level arithmetic of `tensor_quantize_to_int8_inplace`:
    the maximum magnitude of the input, the symmetric scale `127 / max_abs`,
    rounding half away from zero through a truncating conversion, and the
    saturation of `tensor_saturate_int8`.

    Element values are real numbers: `float` rounding, NaN, infinities and
    negative zero are not modelled (see the README). */
module Quantization {

  /** An `int8_t` value. */
  type Int8 = x: int | -128 <= x < 128

  /** The largest magnitude an element may take after quantization. */
  const QMax: int := 127

  function Abs(x: real): (a: real)
    ensures a >= 0.0 && (a == x || a == -x)
  {
    if x >= 0.0 then x else -x
  }

  function Dist(a: int, b: int): nat
  {
    if a >= b then a - b else b - a
  }

  // ---------------------------------------------------------------------------
  // Saturation
  // ---------------------------------------------------------------------------

  /** `tensor_saturate_int8`: clamps to the symmetric range [-127, 127], so
      that -128 is never produced. The result is the point of that range
      nearest to `x`. */
  function Saturate(x: int): (r: Int8)
    ensures -QMax <= r <= QMax
    ensures forall y :: -QMax <= y <= QMax ==> Dist(r, x) <= Dist(y, x)
  {
    if x > QMax then QMax
    else if x < -QMax then -QMax
    else x
  }

  /** Saturation leaves the range alone and never moves an out-of-range
      value past the nearer bound. */
  lemma SaturateInRange(x: int)
    ensures -QMax <= x <= QMax <==> Saturate(x) == x
    ensures Saturate(Saturate(x)) == Saturate(x)
  {
  }

  /** Saturation is monotone and odd: the range is symmetric. */
  lemma SaturateMonotone(x: int, y: int)
    ensures x <= y ==> Saturate(x) <= Saturate(y)
    ensures Saturate(-x) == -Saturate(x)
  {
  }

  // ---------------------------------------------------------------------------
  // Rounding
  // ---------------------------------------------------------------------------

  /** Conversion of a real to an integer that discards the fraction, as a
      C conversion from `float` to `int32_t` does (rounding toward zero). */
  function Trunc(x: real): (r: int)
    ensures x >= 0.0 ==> 0 <= r && r as real <= x < r as real + 1.0
    ensures x <= 0.0 ==> r <= 0 && r as real - 1.0 < x <= r as real
  {
    if x >= 0.0 then x.Floor else -((-x).Floor)
  }

  /** `(int32_t)(s + (s >= 0 ? 0.5 : -0.5))`: the integer nearest to `s`,
      with ties going away from zero. */
  function RoundHalfAway(s: real): (r: int)
    ensures -0.5 <= r as real - s <= 0.5
    ensures r as real - s == 0.5 ==> s > 0.0
    ensures s - r as real == 0.5 ==> s < 0.0
  {
    Trunc(s + (if s >= 0.0 then 0.5 else -0.5))
  }

  /** The nearest-integer, ties-away characterisation determines the result:
      any integer meeting it is `RoundHalfAway(s)`. */
  lemma RoundHalfAwayUnique(s: real, n: int)
    requires -0.5 <= n as real - s <= 0.5
    requires n as real - s == 0.5 ==> s > 0.0
    requires s - n as real == 0.5 ==> s < 0.0
    ensures n == RoundHalfAway(s)
  {
  }

  /** Rounding is monotone and odd. */
  lemma RoundHalfAwayMonotone(s: real, t: real)
    ensures s <= t ==> RoundHalfAway(s) <= RoundHalfAway(t)
    ensures RoundHalfAway(-s) == -RoundHalfAway(s)
  {
    RoundHalfAwayUnique(-s, -RoundHalfAway(s));
  }

  // ---------------------------------------------------------------------------
  // Maximum magnitude
  // ---------------------------------------------------------------------------

  /** The value of `max_abs` after the first loop of the quantizer has seen
      `xs`: it starts at 0 and is replaced by any larger magnitude. */
  function MaxAbs(xs: seq<real>): (m: real)
    ensures m >= 0.0
    ensures forall i :: 0 <= i < |xs| ==> Abs(xs[i]) <= m
    ensures |xs| == 0 ==> m == 0.0
    ensures |xs| > 0 ==> exists i :: 0 <= i < |xs| && Abs(xs[i]) == m
  {
    if |xs| == 0 then 0.0
    else
      var m := MaxAbs(xs[..|xs| - 1]);
      var a := Abs(xs[|xs| - 1]);
      if a > m then a else m
  }

  /** The maximum magnitude is zero exactly when every element is zero. */
  lemma MaxAbsZero(xs: seq<real>)
    ensures MaxAbs(xs) == 0.0 <==> forall i :: 0 <= i < |xs| ==> xs[i] == 0.0
  {
    if MaxAbs(xs) != 0.0 {
      var i :| 0 <= i < |xs| && Abs(xs[i]) == MaxAbs(xs);
      assert xs[i] != 0.0;
    }
  }

  /** The first loop of `tensor_quantize_to_int8_inplace`. */
  method MaxAbsLoop(xs: seq<real>) returns (m: real)
    ensures m == MaxAbs(xs)
    ensures forall i :: 0 <= i < |xs| ==> Abs(xs[i]) <= m
    ensures |xs| > 0 ==> exists i :: 0 <= i < |xs| && Abs(xs[i]) == m
  {
    m := 0.0;
    var i := 0;
    while i < |xs|
      invariant 0 <= i <= |xs|
      invariant m == MaxAbs(xs[..i])
    {
      assert xs[..i + 1][..i] == xs[..i];
      var a := Abs(xs[i]);
      if a > m {
        m := a;
      }
      i := i + 1;
    }
    assert xs[..i] == xs;
  }

  // ---------------------------------------------------------------------------
  // Quantizing one element
  // ---------------------------------------------------------------------------

  /** The scale stored in the tensor: maps the largest magnitude to 127. */
  function ScaleFor(maxAbs: real): (s: real)
    requires maxAbs > 0.0
    ensures IsScaleFor(s, maxAbs)
  {
    QMax as real / maxAbs
  }

  /** `scale` maps the magnitude `m` to exactly 127. */
  predicate IsScaleFor(scale: real, m: real)
  {
    scale > 0.0 && scale * m == QMax as real
  }

  /** Element `x` quantized with scale `scale`: round, then saturate. */
  function QuantizeValue(x: real, scale: real): Int8
  {
    Saturate(RoundHalfAway(x * scale))
  }

  /** With a scale that maps a bound on the magnitude of `x` to 127, the
      scaled value lies in [-127, 127]: rounding alone already stays in
      range, so the saturation never engages and the result is within 1/2
      of the scaled value. */
  lemma QuantizeValueInRange(x: real, m: real, scale: real)
    requires Abs(x) <= m && IsScaleFor(scale, m)
    ensures -QMax <= RoundHalfAway(x * scale) <= QMax
    ensures QuantizeValue(x, scale) == RoundHalfAway(x * scale)
    ensures -0.5 <= QuantizeValue(x, scale) as real - x * scale <= 0.5
  {
    ScaledBound(x, m, scale);
  }

  lemma ScaledBound(x: real, m: real, scale: real)
    requires Abs(x) <= m && IsScaleFor(scale, m)
    ensures -(QMax as real) <= x * scale <= QMax as real
  {
    if x >= 0.0 {
      assert x * scale <= m * scale;
    } else {
      assert -x * scale <= m * scale;
    }
  }

  /** An element of largest magnitude is quantized to exactly +127 or -127,
      with its sign. */
  lemma QuantizeValueFullScale(x: real, m: real, scale: real)
    requires Abs(x) == m && IsScaleFor(scale, m)
    ensures x > 0.0 ==> QuantizeValue(x, scale) == QMax
    ensures x < 0.0 ==> QuantizeValue(x, scale) == -QMax
  {
    if x > 0.0 {
      assert x * scale == QMax as real;
    } else {
      assert x * scale == -(QMax as real);
    }
  }

  /** Dequantizing (`q / scale`) recovers each element to within half a
      quantization step, that is `m / 254`. */
  lemma QuantizeValueError(x: real, m: real, scale: real)
    requires Abs(x) <= m && IsScaleFor(scale, m)
    ensures Abs(QuantizeValue(x, scale) as real / scale - x) <= m / (2.0 * QMax as real)
  {
    var q := QuantizeValue(x, scale) as real;
    QuantizeValueInRange(x, m, scale);
    var e := q - x * scale;
    assert -0.5 <= e <= 0.5;
    assert q / scale - x == e / scale;
    assert 1.0 / scale == m / (QMax as real);
    DivideBound(e, scale, m / (QMax as real));
  }

  lemma DivideBound(e: real, s: real, inv: real)
    requires -0.5 <= e <= 0.5 && s > 0.0 && inv == 1.0 / s
    ensures Abs(e / s) <= inv / 2.0
  {
    assert e / s == e * inv;
    if e >= 0.0 {
      assert e * inv <= 0.5 * inv;
    } else {
      assert -e * inv <= 0.5 * inv;
    }
  }

  /** Quantization with a positive scale preserves order and sign symmetry. */
  lemma QuantizeValueMonotone(x: real, y: real, scale: real)
    requires scale > 0.0
    ensures x <= y ==> QuantizeValue(x, scale) <= QuantizeValue(y, scale)
    ensures QuantizeValue(-x, scale) == -QuantizeValue(x, scale)
  {
    var a, b := x * scale, y * scale;
    if x <= y {
      ScaleMonotone(x, y, scale);
      RoundThenSaturate(a, b);
      assert a <= b;
      assert Saturate(RoundHalfAway(a)) <= Saturate(RoundHalfAway(b));
      assert QuantizeValue(x, scale) == Saturate(RoundHalfAway(a));
    }
    assert -x * scale == -a;
    RoundThenSaturate(a, a);
  }

  lemma ScaleMonotone(x: real, y: real, scale: real)
    requires scale > 0.0 && x <= y
    ensures x * scale <= y * scale
  {
  }

  lemma RoundThenSaturate(a: real, b: real)
    ensures a <= b ==> Saturate(RoundHalfAway(a)) <= Saturate(RoundHalfAway(b))
    ensures Saturate(RoundHalfAway(-a)) == -Saturate(RoundHalfAway(a))
  {
    RoundHalfAwayMonotone(a, b);
    SaturateMonotone(RoundHalfAway(a), RoundHalfAway(b));
  }

  /** The quantized buffer: element `i` is `QuantizeValue(xs[i], scale)`.
      Whatever the scale, saturation keeps every element in [-127, 127]. */
  function QuantizeAll(xs: seq<real>, scale: real): (qs: seq<Int8>)
    ensures |qs| == |xs|
    ensures forall i :: 0 <= i < |xs| ==> qs[i] == QuantizeValue(xs[i], scale)
    ensures InSymmetricRange(qs)
  {
    seq(|xs|, i requires 0 <= i < |xs| => QuantizeValue(xs[i], scale))
  }

  /** The second loop of `tensor_quantize_to_int8_inplace`, element by
      element. */
  method QuantizeElements(xs: seq<real>, scale: real) returns (qs: seq<Int8>)
    ensures qs == QuantizeAll(xs, scale)
  {
    qs := [];
    var i := 0;
    while i < |xs|
      invariant 0 <= i <= |xs| && |qs| == i
      invariant forall k :: 0 <= k < i ==> qs[k] == QuantizeValue(xs[k], scale)
    {
      var scaled := xs[i] * scale;
      var rounded := Trunc(scaled + (if scaled >= 0.0 then 0.5 else -0.5));
      qs := qs + [Saturate(rounded)];
      i := i + 1;
    }
  }

  // ---------------------------------------------------------------------------
  // Properties of a quantized buffer
  // ---------------------------------------------------------------------------

  /** Every element lies in the symmetric range [-127, 127]. */
  predicate InSymmetricRange(qs: seq<Int8>)
  {
    forall i :: 0 <= i < |qs| ==> -QMax <= qs[i] <= QMax
  }

  /** Each element is its scaled input rounded to within 1/2. */
  predicate RoundedFrom(qs: seq<Int8>, xs: seq<real>, scale: real)
  {
    |qs| == |xs| && forall i :: 0 <= i < |qs| ==> -0.5 <= qs[i] as real - xs[i] * scale <= 0.5
  }

  /** Some element sits at the edge of the range. */
  predicate ReachesFullScale(qs: seq<Int8>)
  {
    exists i :: 0 <= i < |qs| && (qs[i] == QMax || qs[i] == -QMax)
  }

  /** Dividing each element by the scale recovers its input within `err`. */
  predicate DequantizesWithin(qs: seq<Int8>, xs: seq<real>, scale: real, err: real)
    requires scale > 0.0
  {
    |qs| == |xs| && forall i :: 0 <= i < |qs| ==> Abs(qs[i] as real / scale - xs[i]) <= err
  }

  /** The elements of `qs` are ordered as those of `xs` are. */
  predicate SameOrder(qs: seq<Int8>, xs: seq<real>)
  {
    |qs| == |xs| && forall i, j :: 0 <= i < |qs| && 0 <= j < |qs| && xs[i] <= xs[j] ==> qs[i] <= qs[j]
  }

  /** With a scale that maps a bound `m` on every magnitude to 127, every
      quantized element lies within 1/2 of its scaled input: saturation
      never engages. */
  lemma QuantizeAllRounded(xs: seq<real>, m: real, scale: real)
    requires forall i :: 0 <= i < |xs| ==> Abs(xs[i]) <= m
    requires IsScaleFor(scale, m)
    ensures RoundedFrom(QuantizeAll(xs, scale), xs, scale)
  {
    forall i | 0 <= i < |xs|
      ensures -0.5 <= QuantizeAll(xs, scale)[i] as real - xs[i] * scale <= 0.5
    {
      QuantizeValueInRange(xs[i], m, scale);
    }
  }

  /** An element whose magnitude is the bound `m` is quantized to +127 or
      -127. */
  lemma QuantizeAllFullScale(xs: seq<real>, m: real, scale: real, k: int)
    requires 0 <= k < |xs| && Abs(xs[k]) == m && m > 0.0
    requires IsScaleFor(scale, m)
    ensures ReachesFullScale(QuantizeAll(xs, scale))
  {
    QuantizeValueFullScale(xs[k], m, scale);
    var qs := QuantizeAll(xs, scale);
    assert qs[k] == QMax || qs[k] == -QMax;
  }

  /** Dequantizing the buffer recovers each element to within `m / 254`,
      and quantization with a positive scale keeps the order of the
      elements. */
  lemma QuantizeAllError(xs: seq<real>, m: real, scale: real)
    requires forall i :: 0 <= i < |xs| ==> Abs(xs[i]) <= m
    requires IsScaleFor(scale, m)
    ensures DequantizesWithin(QuantizeAll(xs, scale), xs, scale, m / (2.0 * QMax as real))
    ensures SameOrder(QuantizeAll(xs, scale), xs)
  {
    forall i | 0 <= i < |xs|
      ensures Abs(QuantizeAll(xs, scale)[i] as real / scale - xs[i]) <= m / (2.0 * QMax as real)
    {
      QuantizeValueError(xs[i], m, scale);
    }
    forall i, j | 0 <= i < |xs| && 0 <= j < |xs| && xs[i] <= xs[j]
      ensures QuantizeAll(xs, scale)[i] <= QuantizeAll(xs, scale)[j]
    {
      QuantizeValueMonotone(xs[i], xs[j], scale);
    }
  }

  /** The outcome of quantizing a buffer: the scale and the int8 elements. */
  datatype Quantized = Quantized(scale: real, values: seq<Int8>)

  /** The buffer quantized with the scale `127 / max_abs`. */
  function QuantizeBuffer(xs: seq<real>): (q: Quantized)
    requires MaxAbs(xs) > 0.0
    ensures |q.values| == |xs|
  {
    var scale := ScaleFor(MaxAbs(xs));
    Quantized(scale, QuantizeAll(xs, scale))
  }

  /** Everything quantization promises about a buffer with a nonzero
      element: the scale maps the largest magnitude to 127; the elements
      lie in [-127, 127], each within 1/2 of its scaled input, with one at
      the edge of the range; dequantizing recovers each input within
      `max_abs / 254`; and the order of the elements is kept. */
  lemma QuantizeBufferFacts(xs: seq<real>)
    requires MaxAbs(xs) > 0.0
    ensures var q := QuantizeBuffer(xs);
      && q.scale > 0.0 && q.scale == QMax as real / MaxAbs(xs)
      && InSymmetricRange(q.values)
      && RoundedFrom(q.values, xs, q.scale)
      && ReachesFullScale(q.values)
      && DequantizesWithin(q.values, xs, q.scale, MaxAbs(xs) / (2.0 * QMax as real))
      && SameOrder(q.values, xs)
  {
    var m := MaxAbs(xs);
    var scale := ScaleFor(m);
    QuantizeAllRounded(xs, m, scale);
    QuantizeAllError(xs, m, scale);
    var k :| 0 <= k < |xs| && Abs(xs[k]) == m;
    QuantizeAllFullScale(xs, m, scale, k);
  }
}
