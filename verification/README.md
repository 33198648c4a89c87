# TinyML dynamic tensor — a Dafny model

TinyML-Dynamic-Tensor is a small C library. It provides a tensor container
(`Tensor`: a type tag, an element count, one heap buffer behind a union, and
a quantization scale) with the following operations:

- `tensor_init`, `tensor_create_f32`, `tensor_free` and
  `tensor_get_data_size_bytes` manage the container;
- `tensor_quantize_to_int8_inplace` turns a float32 tensor into an int8
  tensor with a symmetric scale `127 / max|x|`;
- `tensor_float32_to_f16` and `tensor_f16_to_float32` convert between
  IEEE 754 binary32 and binary16 bit patterns.

The model has four modules:

- `Arith` (`arith.dfy`): powers of two and shifts on unbounded integers. These
  are the arithmetic facts the codec proofs rely on.
- `HalfCodec` (`half_codec.dfy`): the two conversions, on words modelled as
  integers (`Word32`, `Word16`). Field extraction is division and remainder by
  powers of two, and a right shift is `Arith.Shr`. The values of words are
  compared through exact integer magnitudes: `SingleScaled(u)` is
  |value|·2^149 and `HalfScaled(h)` is |value|·2^24. Both conversions are
  modelled as written, including two deviations from IEEE 754 (see
  "## Findings"). Next to them sits a corrected version of each, with the
  intended property proved about it.
- `Quantization` (`quantize.dfy`): the pieces of the quantizer:
  - `tensor_saturate_int8`;
  - the round-half-away-from-zero conversion `(int32_t)(s ± 0.5)`;
  - the running maximum of `fabsf`;
  - the element loop.

  Elements are real numbers.
- `TensorModel` (`tensor.dfy`): the container and its life cycle.
  - An operation that updates a `Tensor *` in place takes a tensor value and
    returns an `Outcome`: the status code plus the new tensor.
  - A heap buffer is the sequence of its elements.
  - Whether `malloc` succeeds is a boolean parameter.
  - `Released` says which buffer `tensor_free` hands back to the allocator.
  - The run in `main.c` is reproduced as the lemma `DemoRun`.

Each operation is given twice where the C code has a loop: as a function that
states the result, and as a method with the loop and its invariants, proved
equal to the function.

## Model

| member | source | states |
|---|---|---|
| HalfCodec.Pack32 | tensor.c:215 | packing sign, exponent and fraction into a binary32 word gives back exactly those three fields |
| HalfCodec.Pack16 | tensor.c:168 | packing sign, exponent and fraction into a binary16 word gives back exactly those three fields |
| HalfCodec.Unpack32 | tensor.c:141-143 | every binary32 word is the packing of its own sign, exponent and fraction fields |
| HalfCodec.Unpack16 | tensor.c:175-177 | every binary16 word is the packing of its own sign, exponent and fraction fields |
| HalfCodec.F32ToF16 | tensor.c:130-172 | the encoder keeps the sign bit of its input |
| HalfCodec.F32ToF16Fields | tensor.c:141-168 | the output fields for each range of the input exponent: below 102 gives zero; 102..112 gives a subnormal with fraction (1.frac) >> (126 − e); 113..142 gives a normal half with exponent e − 112 and the top 10 fraction bits; 143 and above gives exponent 31 with fraction 1 exactly when the input fraction is nonzero |
| HalfCodec.EncodeSubnormal | tensor.c:153-157 | an input exponent of 102..112 yields a subnormal half whose fraction is the implicit-one significand shifted right by 14 − (e − 112) |
| HalfCodec.Normalize | tensor.c:190-196 | the normalisation loop ends with the significand in [0x400, 0x800); the shift count is at most 10 and fixes the position of the leading one bit |
| HalfCodec.NormalizeValue | tensor.c:190-196 | the normalised significand equals the input multiplied by 2 to the number of shifts |
| HalfCodec.Bit10Clear | tensor.c:192 | on the loop's range below 0x800, the bit test `(m & 0x400) == 0` holds exactly when m < 0x400 |
| HalfCodec.NormalizeLoop | tensor.c:190-196 | the `while` loop, with exponent counter starting at −1, computes the same significand and shift count as `Normalize` |
| HalfCodec.DecodeFields | tensor.c:179-207 | the decoded exponent fits in 8 bits and the decoded fraction in 23 bits |
| HalfCodec.DecodeFieldsSpec | tensor.c:179-207 | the binary32 fields for each class of half: zero gives zero fields; a subnormal gives exponent 113 − 1 − shifts with the normalised fraction; exponent 31 gives 0xFF with the fraction shifted left by 13; a normal half gives exponent + 112 with the fraction shifted left by 13 |
| HalfCodec.F16ToF32 | tensor.c:174-217 | the decoder keeps the sign bit of its input |
| HalfCodec.F16ToF32Loop | tensor.c:174-217 | the decoder with its normalisation loop computes `F16ToF32`, and the loop runs exactly for subnormal inputs |
| HalfCodec.F16ToF32Classes | tensor.c:174-217 | the decoder maps zero to zero, infinity to infinity and NaN to NaN in both directions, and maps normal and subnormal halves, and only those, to normal singles |
| HalfCodec.RoundTrip | tensor.c:130-217 | encoding the decoded word gives back every zero, normal or infinite half |
| HalfCodec.RoundTripNaN | tensor.c:159-165 | a NaN half comes back from decode and encode as the NaN with the same sign and fraction 1 |
| HalfCodec.F16ToF32Exact | tensor.c:204-207 | the decoded single of a zero or normal half has exactly the half's value |
| HalfCodec.F32ToF16RoundsTowardZero | tensor.c:145-168 | for finite inputs below 2^16 the encoder truncates: the half's magnitude is at most the input's, and the input is less than one half-ulp above it |
| HalfCodec.UnderflowValue | tensor.c:147-151 | inputs flushed to zero by the encoder are below the least half subnormal 2^-24 |
| HalfCodec.SubnormalValue | tensor.c:153-157 | a subnormal result truncates the input to a multiple of 2^-24 |
| HalfCodec.NormalValue | tensor.c:166-168 | a normal result truncates the input to a multiple of the half's ulp |
| HalfCodec.F32ToF16NaNs | tensor.c:159-165 | the encoder yields a NaN exactly when the input exponent is at least 143 and the fraction is nonzero, and yields infinity exactly when the exponent is at least 143 and the fraction is zero |
| HalfCodec.RoundTripSubnormal | tensor.c:190-198 | as written, a subnormal half comes back from decode and encode with its fraction halved |
| HalfCodec.RoundTripRepresentable | tensor.c:130-217 | decoding the encoded word gives back every single whose value is a normal half (exponent field 113..142, low 13 fraction bits zero) |
| HalfCodec.RoundTripZeroInf | tensor.c:130-217 | decoding the encoded word gives back every signed zero and infinity |
| HalfCodec.F16ToF32HalvesSubnormals | tensor.c:190-198 | as written, the decoded value of a subnormal half is exactly half of the half's value |
| HalfCodec.SubnormalDecodeWitness | tensor.c:190-198 | as written, the least subnormal 0x0001 decodes and re-encodes to +0 |
| HalfCodec.F16ToF32Intended | tensor.c:174-217 | the corrected decoder, with the exponent counter starting at 0, keeps the sign bit |
| HalfCodec.F16ToF32IntendedExact | tensor.c:174-217 | the corrected decoder gives exactly the half's value for every finite half |
| HalfCodec.RoundTripIntended | tensor.c:130-217 | with the corrected decoder, encoding the decoded word gives back every non-NaN half |
| HalfCodec.F16ToF32IntendedAgrees | tensor.c:190-198 | the corrected decoder differs from the as-written one exactly on subnormal halves |
| HalfCodec.FiniteOverflowWitness | tensor.c:159-165 | as written, the finite single 0x47800001 is encoded as the NaN 0x7C01; the corrected encoder gives infinity 0x7C00 |
| HalfCodec.F32ToF16Intended | tensor.c:159-165 | the corrected encoder keeps the sign bit |
| HalfCodec.F32ToF16IntendedClasses | tensor.c:159-165 | the corrected encoder gives NaN exactly for NaN inputs, and gives infinity exactly for the non-NaN inputs with exponent 143 or more; it agrees with the as-written encoder except on finite overflow with a nonzero fraction |
| Quantization.Abs | tensor.c:91 | `fabsf` is non-negative and equals the input or its negation |
| Quantization.Saturate | tensor.c:71-75 | the result lies in [−127, 127] and is the point of that range nearest to the input |
| Quantization.SaturateInRange | tensor.c:71-75 | saturation leaves a value unchanged exactly when the value is already in [−127, 127], and saturation is idempotent |
| Quantization.SaturateMonotone | tensor.c:71-75 | saturation is monotone and commutes with negation |
| Quantization.Trunc | tensor.c:114 | the `(int32_t)` conversion truncates toward zero: it lies between 0 and the input, less than 1 away from it |
| Quantization.RoundHalfAway | tensor.c:113-114 | adding ±0.5 and truncating lands within 0.5 of the input, and a tie moves away from zero |
| Quantization.RoundHalfAwayUnique | tensor.c:113-114 | any integer within 0.5 of the input that breaks ties away from zero is the rounded value |
| Quantization.RoundHalfAwayMonotone | tensor.c:113-114 | rounding is monotone and commutes with negation |
| Quantization.MaxAbs | tensor.c:88-95 | the running maximum of `fabsf` is non-negative, bounds every element's magnitude, is attained by some element when the buffer is non-empty, and is 0 for an empty buffer |
| Quantization.MaxAbsZero | tensor.c:97-101 | the maximum magnitude is 0 exactly when every element is 0 |
| Quantization.MaxAbsLoop | tensor.c:88-95 | the loop computes `MaxAbs`, which bounds every element and is attained |
| Quantization.ScaleFor | tensor.c:103 | the scale is positive and maps the maximum magnitude to exactly 127 |
| Quantization.QuantizeValueInRange | tensor.c:112-116 | for an element within the maximum magnitude, the rounded value already lies in ±127, so saturation does not change it and the result is within 0.5 of the scaled element |
| Quantization.QuantizeValueFullScale | tensor.c:112-116 | an element of maximum magnitude quantizes to +127 or −127, according to its sign |
| Quantization.QuantizeValueError | tensor.c:112-116 | dequantizing (q / scale) lands within max / 254 of the element |
| Quantization.QuantizeValueMonotone | tensor.c:112-116 | quantization keeps the order of the elements and commutes with negation |
| Quantization.QuantizeAll | tensor.c:112-116 | every element of the quantized buffer is the quantized source element at the same index, and lies in ±127 |
| Quantization.QuantizeElements | tensor.c:112-116 | the element loop fills the buffer with `QuantizeAll` |
| Quantization.QuantizeAllRounded | tensor.c:112-116 | every quantized value is the rounded scaled element, unclipped |
| Quantization.QuantizeAllFullScale | tensor.c:112-116 | the element that attains the maximum magnitude quantizes to ±127 |
| Quantization.QuantizeAllError | tensor.c:112-116 | every dequantized value lies within max / 254 of its element, and the quantized buffer keeps the order of the elements |
| Quantization.QuantizeBuffer | tensor.c:103-116 | quantizing a buffer keeps its length |
| Quantization.QuantizeBufferFacts | tensor.c:88-116 | the scale is 127 / max; the values lie in ±127, are the rounded scaled elements, reach ±127 at the maximum, dequantize to within max / 254, and keep the order of the elements |
| TensorModel.Status.Code | tensor.h:35-62 | the status codes are 0, −1, −2 and −3, and 0 means success |
| TensorModel.Init | tensor.c:6-12 | the initial tensor is valid, has tag NONE, length 0, no buffer and scale 1, and releases nothing when freed |
| TensorModel.Released | tensor.c:42-48 | `tensor_free` hands back either nothing or the tensor's own buffer |
| TensorModel.Free | tensor.c:39-54 | after freeing, the tag is NONE, the length is 0, the buffer is null and the scale is 1 |
| TensorModel.FreeIdempotent | tensor.c:39-54 | freeing twice is freeing once; a freed tensor is valid, holds no bytes and releases nothing; freeing a valid tensor releases exactly its buffer |
| TensorModel.SizeBytes | tensor.c:56-69 | the byte count fits in 64 bits, and is 0 exactly when the length is 0 or the tag is not F32, F16 or INT8 |
| TensorModel.SizeBytesByType | tensor.c:56-69 | the byte count is 4, 2 or 1 bytes per element for F32, F16 and INT8; for a valid tensor this is the byte size of its buffer |
| TensorModel.CreateF32 | tensor.c:14-37 | a null source or zero length gives −1 and leaves the tensor as it was; a failed allocation gives −2 with the old contents freed; success gives an F32 tensor holding a copy of the first `length` source elements, with scale 1 |
| TensorModel.CreateF32Copy | tensor.c:14-37 | the copy loop produces the same outcome as `CreateF32` |
| TensorModel.CreateF32Valid | tensor.c:14-37 | success yields a valid tensor of 4·length bytes; an allocation failure yields a valid empty tensor; a valid tensor stays valid on every path |
| TensorModel.QuantizeToInt8 | tensor.c:77-125 | on every error path the tensor is left unchanged |
| TensorModel.QuantizeStatus | tensor.c:77-109 | the result is −1 exactly when the tensor is not an F32 tensor with data and length; −3 exactly when all its elements are 0; −2 exactly when the allocation fails otherwise; 0 exactly when it has a nonzero element and the allocation succeeds |
| TensorModel.QuantizeShape | tensor.c:118-122 | a quantized tensor is a valid INT8 tensor of the same length, shrinking from 4·length to length bytes |
| TensorModel.QuantizeValues | tensor.c:103-122 | the stored scale is 127 / max; the stored values lie in ±127, are the rounded scaled elements, and reach ±127 at the maximum |
| TensorModel.QuantizeDequantize | tensor.c:103-122 | the stored values dequantize to within max / 254 of the elements, and keep the order of the elements |
| TensorModel.QuantizeLoop | tensor.c:77-125 | the two loops of the C function produce the same outcome as `QuantizeToInt8` |
| TensorModel.CreateThenQuantize | tensor.c:14-125 | creating from a source with a nonzero element and then quantizing succeeds twice, and the tensor goes from 4·length to length bytes |
| TensorModel.QuantizeAllZero | tensor.c:97-101 | quantizing a freshly created all-zero tensor gives −3 and keeps the float tensor |
| TensorModel.QuantizeTwice | tensor.c:81-83 | quantizing an INT8 tensor again is rejected with −1 and changes nothing |
| TensorModel.DemoRun | main.c:6-29 | the demo input creates a 24-byte tensor, which quantizes with scale 127 to the 6-byte buffer [−127, −64, 0, 32, 95, 127] |

## Left out

- `main.c` printing and exit codes are not modelled. Only the sequence of API calls is reproduced, in `DemoRun`.
- `malloc` and `free` are not modelled as memory. An allocation outcome is a boolean parameter, and pointer identity and aliasing are not modelled. `Released` names the buffer `tensor_free` hands back.
- The `!t` checks are left out: a tensor is always a value. A null `src` is the `None` of an `Option`.
- Float arithmetic is idealised as real arithmetic. This leaves out:
  - rounding of `127.0f / max_abs` and of `src[i] * scale`;
  - rounding of `scaled + (±0.5f)` at tensor.c:114: in binary32, `0.49999997f + 0.5f` rounds to `1.0f`, so the C code stores 1 where `RoundHalfAway` gives 0 (with scale 1, when another element is 127);
  - overflow of `127.0f / max_abs` when `max_abs` is below 127 / FLT_MAX (about 3.7e−37): the scale is then infinite, `src[i] * scale` is infinite or NaN, and the `(int32_t)` conversion is undefined;
  - NaN and infinite elements;
  - negative zero.

  The scale is therefore exactly 127 / max.
- TensorModel.CreateF32: requires the source to hold at least `length` elements. C gives no way to check this.
- TensorModel.QuantizeToInt8: requires an F32 tensor with a non-null buffer to hold at least `length` floats. The C code reads them without a check.
- `size_t` is taken to be 64 bits wide, so `SizeBytes` never wraps.
- The `(int32_t)` conversion is modelled as truncation toward zero without overflow. Under the real-arithmetic idealisation this is enough, because every scaled element then lies in [−127, 127]; in binary32 it fails in the overflow case above.
- HalfCodec: the `float` argument and result are modelled as their bit patterns. A signalling NaN may be quieted when it passes through a floating-point register; this is not modelled.
- The recursive `Normalize` tests `m < 0x400` in place of the loop's bit test `(m & 0x400) == 0`; `NormalizeLoop` keeps the bit test, and `Bit10Clear` shows the two agree on the loop's range.
- HalfCodec.F32ToF16RoundsTowardZero: the value bounds are stated only for inputs that do not overflow (exponent field at most 142). Above that, the encoder's results are classified by `F32ToF16NaNs`.
- No IEEE 754 rounding claim is made for the encoder. The encoder truncates rather than rounding to nearest even, which is what the header's "approximate conversion" allows.
- No API call creates F16 tensors. The F16 tag and buffer are modelled only for `tensor_free` and `tensor_get_data_size_bytes`.

## Findings

| source | as written | input that shows it | evidently intended | confidence | as-written member | corrected member |
|---|---|---|---|---|---|---|
| tensor.c:190-198 | the subnormal branch of the decoder starts the exponent counter at −1, so the decoded single is half the half's value | 0x0001 (2^-24) decodes to 2^-25 and re-encodes to 0x0000 | start the counter at 0, so every finite half decodes exactly and round-trips | not executed | HalfCodec.F16ToF32HalvesSubnormals | HalfCodec.F16ToF32IntendedExact |
| tensor.c:159-165 | the overflow branch of the encoder keeps a nonzero fraction bit for finite inputs at or above 2^16, producing a NaN | 0x47800001 (a finite single just above 65536) encodes to 0x7C01, a NaN | produce infinity for finite overflow and NaN only for NaN inputs | not executed | HalfCodec.FiniteOverflowWitness | HalfCodec.F32ToF16IntendedClasses |
