/** The tensor container of `tensor.h` and its life cycle in `tensor.c`:
    `tensor_init`, `tensor_create_f32`, `tensor_free`,
    `tensor_get_data_size_bytes` and `tensor_quantize_to_int8_inplace`.

    A `Tensor *` argument that the C code updates in place becomes a tensor
    value passed in and an `Outcome` (status code and new tensor) passed
    out. A heap buffer is the sequence of its elements; `malloc` is a
    boolean saying whether the allocation succeeds. */
module TensorModel {
  import opened Quantization
  import HalfCodec

  /** The `type` tag. The C enum field can hold values other than the four
      enumerators; `Unknown` stands for any of them. */
  datatype TensorType = TypeNone | TypeF32 | TypeF16 | TypeInt8 | Unknown(tag: int)

  /** The `data` union: one pointer, read as `float *`, `uint16_t *` or
      `int8_t *` according to the tag. */
  datatype Buffer =
    | Null
    | F32Data(f32: seq<real>)
    | F16Data(f16: seq<HalfCodec.Word16>)
    | Int8Data(qint8: seq<Int8>)

  datatype Tensor = Tensor(ttype: TensorType, length: HalfCodec.Word32, data: Buffer, scale: real)

  /** A pointer argument that may be null. */
  datatype Option<T> = None | Some(value: T)

  /** The documented return codes. */
  datatype Status = Ok | InvalidParam | OutOfMemory | AllZero
  {
    function Code(): (c: int)
      ensures -3 <= c <= 0
      ensures c == 0 <==> this == Ok
    {
      match this
      case Ok => 0
      case InvalidParam => -1
      case OutOfMemory => -2
      case AllZero => -3
    }
  }

  /** The result of an operation that returns an `int` status and may
      update the tensor. */
  datatype Outcome = Outcome(status: Status, tensor: Tensor)

  /** The states the API produces: a tensor without data has tag NONE and
      length 0; otherwise exactly one buffer is active, the one the tag
      selects, and it holds `length` elements. */
  predicate Valid(t: Tensor)
  {
    match t.ttype
    case TypeNone => t.data == Null && t.length == 0
    case TypeF32 => t.data.F32Data? && |t.data.f32| == t.length > 0
    case TypeF16 => t.data.F16Data? && |t.data.f16| == t.length > 0
    case TypeInt8 => t.data.Int8Data? && |t.data.qint8| == t.length > 0
    case Unknown(_) => false
  }

  // ---------------------------------------------------------------------------
  // Initialisation and release
  // ---------------------------------------------------------------------------

  /** `tensor_init`: the safe empty state; no memory is allocated. */
  function Init(): (t: Tensor)
    ensures Valid(t) && t.data == Null && Released(t) == Null
    ensures t.ttype == TypeNone && t.scale == 1.0
  {
    Tensor(TypeNone, 0, Null, 1.0)
  }

  /** The buffer `tensor_free` hands to `free`: the pointer, when it is
      non-null and the tag is one of the three data types. */
  function Released(t: Tensor): (b: Buffer)
    ensures b == Null || b == t.data
  {
    if (t.ttype == TypeF32 || t.ttype == TypeF16 || t.ttype == TypeInt8) && t.data != Null
    then t.data
    else Null
  }

  /** `tensor_free`: releases the active buffer and resets every field. */
  function Free(t: Tensor): (r: Tensor)
    ensures r.ttype == TypeNone && r.length == 0 && r.data == Null && r.scale == 1.0
  {
    Init()
  }

  /** Freeing is idempotent, the second call releases nothing, and on any
      state the API produces the first call releases the whole buffer. */
  lemma FreeIdempotent(t: Tensor)
    ensures Free(Free(t)) == Free(t)
    ensures Released(Free(t)) == Null
    ensures Valid(t) ==> Released(t) == t.data
    ensures Valid(Free(t)) && SizeBytes(Free(t)) == 0
  {
  }

  // ---------------------------------------------------------------------------
  // Byte size
  // ---------------------------------------------------------------------------

  /** `tensor_get_data_size_bytes`: `length` times the element size the
      tag selects, 0 for any tag without data. The product is formed in
      `size_t`; with a 32-bit length and at most 4 bytes per element it fits
      in 34 bits, so no wrap-around occurs on a platform whose `size_t` is
      64 bits. */
  function SizeBytes(t: Tensor): (n: nat)
    ensures n < 0x4_0000_0000
    ensures n == 0 <==> t.length == 0 || t.ttype == TypeNone || t.ttype.Unknown?
  {
    match t.ttype
    case TypeF32 => 4 * t.length
    case TypeF16 => 2 * t.length
    case TypeInt8 => t.length
    case _ => 0
  }

  /** The byte size by tag, and how it relates to the active buffer: on a
      valid tensor it counts exactly the elements of that buffer. */
  lemma SizeBytesByType(t: Tensor)
    ensures t.ttype == TypeF32 ==> SizeBytes(t) == 4 * t.length
    ensures t.ttype == TypeF16 ==> SizeBytes(t) == 2 * t.length
    ensures t.ttype == TypeInt8 ==> SizeBytes(t) == t.length
    ensures t.ttype == TypeNone || t.ttype.Unknown? ==> SizeBytes(t) == 0
    ensures Valid(t) && t.data.F32Data? ==> SizeBytes(t) == 4 * |t.data.f32|
    ensures Valid(t) && t.data.Int8Data? ==> SizeBytes(t) == |t.data.qint8|
  {
  }

  // ---------------------------------------------------------------------------
  // Creation
  // ---------------------------------------------------------------------------

  /** `tensor_create_f32(t, src, length)`, where `src` is `None` for a null
      pointer and `allocOk` says whether `malloc` succeeds. The caller must
      supply at least `length` readable elements. */
  function CreateF32(t: Tensor, src: Option<seq<real>>, length: HalfCodec.Word32, allocOk: bool): (o: Outcome)
    requires src.Some? ==> |src.value| >= length
    ensures o.status != AllZero
    ensures o.status == InvalidParam <==> src.None? || length == 0
    ensures o.status == OutOfMemory <==> src.Some? && length > 0 && !allocOk
    ensures o.status == InvalidParam ==> o.tensor == t
    ensures o.status == OutOfMemory ==> o.tensor == Free(t)
    ensures o.status == Ok ==>
      && o.tensor.ttype == TypeF32 && o.tensor.length == length
      && o.tensor.data == F32Data(src.value[..length]) && o.tensor.scale == 1.0
  {
    if src.None? || length == 0 then Outcome(InvalidParam, t)
    else
      var cleared := Free(t);
      if !allocOk then Outcome(OutOfMemory, cleared)
      else Outcome(Ok, Tensor(TypeF32, length, F32Data(src.value[..length]), 1.0))
  }

  /** `tensor_create_f32` written as the source writes it, with the element
      copy loop. */
  method CreateF32Copy(t: Tensor, src: Option<seq<real>>, length: HalfCodec.Word32, allocOk: bool)
    returns (o: Outcome)
    requires src.Some? ==> |src.value| >= length
    ensures o == CreateF32(t, src, length, allocOk)
  {
    if src.None? || length == 0 {
      return Outcome(InvalidParam, t);
    }
    var cleared := Free(t);
    if !allocOk {
      return Outcome(OutOfMemory, cleared);
    }
    var data: seq<real> := [];
    var i := 0;
    while i < length
      invariant 0 <= i <= length
      invariant data == src.value[..i]
    {
      data := data + [src.value[i]];
      i := i + 1;
    }
    o := Outcome(Ok, Tensor(TypeF32, length, F32Data(data), 1.0));
  }

  /** Whatever the previous state, a successful creation yields a valid
      tensor whose elements are the first `length` source elements and whose
      byte size is 4 per element; every other outcome keeps or resets the
      state to a valid one. */
  lemma CreateF32Valid(t: Tensor, src: Option<seq<real>>, length: HalfCodec.Word32, allocOk: bool)
    requires src.Some? ==> |src.value| >= length
    ensures var o := CreateF32(t, src, length, allocOk);
      && (o.status == Ok ==>
            Valid(o.tensor) && SizeBytes(o.tensor) == 4 * length
            && forall i :: 0 <= i < length ==> o.tensor.data.f32[i] == src.value[i])
      && (o.status == OutOfMemory ==> Valid(o.tensor) && SizeBytes(o.tensor) == 0)
      && (Valid(t) ==> Valid(o.tensor))
  {
  }

  // ---------------------------------------------------------------------------
  // Quantization
  // ---------------------------------------------------------------------------

  /** What `tensor_quantize_to_int8_inplace` requires of the buffer it
      reads: an F32 tensor with a non-null buffer and a positive length
      points at `length` floats. */
  predicate Readable(t: Tensor)
  {
    t.ttype == TypeF32 && t.data != Null && t.length > 0 ==>
      t.data.F32Data? && |t.data.f32| >= t.length
  }

  /** The `length` elements the quantizer reads. */
  function Elements(t: Tensor): (xs: seq<real>)
    requires Readable(t) && t.ttype == TypeF32 && t.data != Null && t.length > 0
    ensures |xs| == t.length
    ensures forall i :: 0 <= i < |xs| ==> xs[i] == t.data.f32[i]
  {
    t.data.f32[..t.length]
  }

  /** `tensor_quantize_to_int8_inplace(t)`, with `allocOk` saying whether the
      `malloc` of the int8 buffer succeeds. On every error the tensor is
      returned as it was: the float buffer is released only after the new
      buffer has been filled. */
  function QuantizeToInt8(t: Tensor, allocOk: bool): (o: Outcome)
    requires Readable(t)
    ensures o.status != Ok ==> o.tensor == t
  {
    if t.ttype != TypeF32 || t.data == Null || t.length == 0 then Outcome(InvalidParam, t)
    else
      var xs := Elements(t);
      var maxAbs := MaxAbs(xs);
      if maxAbs == 0.0 then Outcome(AllZero, t)
      else
        var q := QuantizeBuffer(xs);
        if !allocOk then Outcome(OutOfMemory, t)
        else Outcome(Ok, Tensor(TypeInt8, t.length, Int8Data(q.values), q.scale))
  }

  /** The status of quantization in terms of the input alone: -1 for
      anything but a non-empty F32 tensor with data, -3 when every element
      is zero, -2 when the allocation fails, 0 otherwise. */
  lemma QuantizeStatus(t: Tensor, allocOk: bool)
    requires Readable(t)
    ensures var o := QuantizeToInt8(t, allocOk);
      && (o.status == InvalidParam <==> t.ttype != TypeF32 || t.data == Null || t.length == 0)
      && (o.status == AllZero <==>
            t.ttype == TypeF32 && t.data != Null && t.length > 0
            && forall i :: 0 <= i < t.length ==> t.data.f32[i] == 0.0)
      && (o.status == OutOfMemory <==>
            t.ttype == TypeF32 && t.data != Null && t.length > 0 && !allocOk
            && exists i :: 0 <= i < t.length && t.data.f32[i] != 0.0)
      && (o.status == Ok <==>
            t.ttype == TypeF32 && t.data != Null && t.length > 0 && allocOk
            && exists i :: 0 <= i < t.length && t.data.f32[i] != 0.0)
  {
    if t.ttype == TypeF32 && t.data != Null && t.length > 0 {
      var xs := Elements(t);
      MaxAbsZero(xs);
    }
  }

  /** A successful quantization yields a valid INT8 tensor of the same
      length, one byte per element instead of four. */
  lemma QuantizeShape(t: Tensor, allocOk: bool)
    requires Readable(t)
    ensures var o := QuantizeToInt8(t, allocOk);
      o.status == Ok ==>
        && Valid(o.tensor) && o.tensor.ttype == TypeInt8
        && o.tensor.length == t.length
        && SizeBytes(o.tensor) == t.length && SizeBytes(t) == 4 * t.length
  {
  }

  /** On success the stored scale maps the largest magnitude to 127, the
      elements lie in [-127, 127] (never -128), each within 1/2 of the
      scaled input (saturation never engages), and an element of largest
      magnitude becomes +127 or -127. */
  lemma QuantizeValues(t: Tensor, allocOk: bool)
    requires Readable(t)
    ensures var o := QuantizeToInt8(t, allocOk);
      o.status == Ok ==>
        && o.tensor.scale == QMax as real / MaxAbs(Elements(t))
        && InSymmetricRange(o.tensor.data.qint8)
        && RoundedFrom(o.tensor.data.qint8, Elements(t), o.tensor.scale)
        && ReachesFullScale(o.tensor.data.qint8)
  {
    if QuantizeToInt8(t, allocOk).status == Ok {
      QuantizeBufferFacts(Elements(t));
    }
  }

  /** Each quantized element, divided by the stored scale, is within
      `max_abs / 254` of the original element, and quantization keeps the
      order of the elements. */
  lemma QuantizeDequantize(t: Tensor, allocOk: bool)
    requires Readable(t)
    ensures var o := QuantizeToInt8(t, allocOk);
      o.status == Ok ==>
        && o.tensor.scale > 0.0
        && DequantizesWithin(o.tensor.data.qint8, Elements(t), o.tensor.scale,
                             MaxAbs(Elements(t)) / (2.0 * QMax as real))
        && SameOrder(o.tensor.data.qint8, Elements(t))
  {
    if QuantizeToInt8(t, allocOk).status == Ok {
      QuantizeBufferFacts(Elements(t));
    }
  }

  /** `tensor_quantize_to_int8_inplace` written as the source writes it:
      the maximum-magnitude loop, then the element loop. */
  method QuantizeLoop(t: Tensor, allocOk: bool) returns (o: Outcome)
    requires Readable(t)
    ensures o == QuantizeToInt8(t, allocOk)
  {
    if t.ttype != TypeF32 || t.data == Null || t.length == 0 {
      return Outcome(InvalidParam, t);
    }
    var xs := t.data.f32[..t.length];
    var maxAbs := MaxAbsLoop(xs);
    if maxAbs == 0.0 {
      return Outcome(AllZero, t);
    }
    var scale := QMax as real / maxAbs;
    if !allocOk {
      return Outcome(OutOfMemory, t);
    }
    var qdata := QuantizeElements(xs, scale);
    assert Quantized(scale, qdata) == QuantizeBuffer(xs);
    return Outcome(Ok, Tensor(TypeInt8, t.length, Int8Data(qdata), scale));
  }

  // ---------------------------------------------------------------------------
  // The life cycle
  // ---------------------------------------------------------------------------

  /** From any starting state: create from a source with a nonzero element,
      then quantize. Both steps succeed, the byte size drops from 4 to 1 per
      element, and freeing afterwards returns the int8 buffer. */
  lemma CreateThenQuantize(t: Tensor, src: seq<real>, length: HalfCodec.Word32)
    requires |src| >= length > 0
    requires exists i :: 0 <= i < length && src[i] != 0.0
    ensures var c := CreateF32(t, Some(src), length, true);
      && c.status == Ok && SizeBytes(c.tensor) == 4 * length
      && var q := QuantizeToInt8(c.tensor, true);
      && q.status == Ok && SizeBytes(q.tensor) == length
      && Released(q.tensor) == q.tensor.data
  {
    var c := CreateF32(t, Some(src), length, true);
    QuantizeStatus(c.tensor, true);
    QuantizeShape(c.tensor, true);
  }

  /** Quantizing an all-zero tensor fails with -3 and leaves it unchanged. */
  lemma QuantizeAllZero(t: Tensor, length: HalfCodec.Word32)
    requires length > 0
    ensures var c := CreateF32(t, Some(seq(length, _ => 0.0)), length, true);
      QuantizeToInt8(c.tensor, true) == Outcome(AllZero, c.tensor)
  {
    var c := CreateF32(t, Some(seq(length, _ => 0.0)), length, true);
    QuantizeStatus(c.tensor, true);
  }

  /** A second quantization of a quantized tensor is refused with -1 and
      changes nothing. */
  lemma QuantizeTwice(t: Tensor, allocOk: bool, again: bool)
    requires Readable(t)
    ensures var o := QuantizeToInt8(t, allocOk);
      o.status == Ok ==> Readable(o.tensor) && QuantizeToInt8(o.tensor, again) == Outcome(InvalidParam, o.tensor)
  {
  }

  /** The six elements the demonstration program quantizes. */
  const DemoInput: seq<real> := [-1.0, -0.5, 0.0, 0.25, 0.75, 1.0]

  /** The demonstration run: a fresh tensor created from DemoInput takes 24
      bytes; quantizing it succeeds with scale 127 and the elements
      -127, -64, 0, 32, 95, 127 (the half-way value -63.5 goes away from
      zero), in 6 bytes. */
  lemma DemoRun()
    ensures var c := CreateF32(Init(), Some(DemoInput), 6, true);
      && c.status == Ok && SizeBytes(c.tensor) == 24
      && var q := QuantizeToInt8(c.tensor, true);
      && q.status == Ok && q.tensor.scale == 127.0 && SizeBytes(q.tensor) == 6
      && q.tensor.data == Int8Data([-127, -64, 0, 32, 95, 127])
  {
    var c := CreateF32(Init(), Some(DemoInput), 6, true);
    assert c.tensor == Tensor(TypeF32, 6, F32Data(DemoInput), 1.0) by {
      assert DemoInput[..6] == DemoInput;
    }
    assert Elements(c.tensor) == DemoInput;
    DemoMaxAbs();
    DemoQuantized();
  }

  lemma DemoMaxAbs()
    ensures MaxAbs(DemoInput) == 1.0
  {
    var xs := DemoInput;
    assert MaxAbs(xs[..1]) == 1.0;
    assert MaxAbs(xs[..2]) == 1.0 by { assert xs[..2][..1] == xs[..1]; }
    assert MaxAbs(xs[..3]) == 1.0 by { assert xs[..3][..2] == xs[..2]; }
    assert MaxAbs(xs[..4]) == 1.0 by { assert xs[..4][..3] == xs[..3]; }
    assert MaxAbs(xs[..5]) == 1.0 by { assert xs[..5][..4] == xs[..4]; }
    assert xs[..5] == xs[..|xs| - 1];
  }

  lemma DemoQuantized()
    ensures QuantizeAll(DemoInput, 127.0) == [-127, -64, 0, 32, 95, 127]
  {
    var qs := QuantizeAll(DemoInput, 127.0);
    assert qs[0] == -127;
    assert qs[1] == -64 by { assert RoundHalfAway(-63.5) == -64; }
    assert qs[2] == 0;
    assert qs[3] == 32 by { assert RoundHalfAway(31.75) == 32; }
    assert qs[4] == 95 by { assert RoundHalfAway(95.25) == 95; }
    assert qs[5] == 127;
  }
}
