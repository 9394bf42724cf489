# intgemm SIMD layer, modelled in Dafny

This project models the SIMD layer of intgemm, a library for 8- and 16-bit integer matrix
multiplication. The layer has three parts.

- **The intrinsic wrappers** of `intrinsics.h`. These are one-instruction SSE2, AVX2 and AVX512BW
  operations: add, saturating add, low and widening multiplies, shuffle, unpack, shifts, and/or,
  max, abs, sign, madd, maddubs, set1 and setzero.
- **The kernels** of `kernels/implementations.inl`. These are `write`, `quantize`, `unquantize`,
  `add_bias`, `relu`, `multiply`, `floor` and `exp_approx_taylor`. Several of them emulate an
  instruction that some instruction set lacks. Upstream, the byte-wise multiply, the SSE2 32-bit
  multiply, the SSE2 ReLU and the floor are each such an emulation.
- **The callbacks** of `callbacks/implementations.inl`. A matrix multiply calls `Dummy`,
  `UnquantizeAndWrite` or `UnquantizeAndAddBiasAndWrite` on every finished register of 32-bit
  results.

## How registers are modelled

`Lanes` models a register as a sequence of bytes in memory order: 16 bytes on SSE2, 32 on AVX2
and 64 on AVX512BW. The 16-, 32- and 64-bit lanes are little-endian views of those bytes. Signed
lanes are the two's-complement reading of those views (`S8`, `S16`, `S32`).

`Arith` defines `Wrap` and `Saturate`, the C-style conversion and the saturation into a signed
type. Each intrinsic is a function in `Intrinsics`. A lemma beside it states its lanes in terms of
the input lanes, for every register width.

Float lanes are exact `real` numbers. `cvtps_epi32` rounds half to even and `cvttps_epi32`
truncates. Both return the integer indefinite value -2^31 outside the int32_t range. `FloatKernels`
models the float kernels, and `Kernels` models the integer kernels and `write`.

`write` and the callbacks change memory, so they are imperative. `write` is a method that modifies
an `array`. Each callback is a class: its constructor sets the configuration and the broadcast
multiplier, and its `Apply` method (the C++ `operator()`) writes into the configured output array.
Each `Apply` is specified by a function of the old array contents. Lemmas then state what that
function leaves in each element, that applying it twice changes nothing more, and that different
tiles commute.

Upstream, an `Index` is a 32-bit unsigned integer, so `row_idx * cols + col_idx` wraps modulo
2^32 (`Callbacks.WrapIndex`). The kernels use `assert(false)` on SSE2 in `exp_approx_taylor`; the
model makes that case a precondition (`isa != SSE2`).

`Dummy`'s `Apply` has an empty body and no `modifies` clause, so it changes no memory.

## Model

| member | source | states |
|---|---|---|
| Intrinsics.Set1Epi8Lanes | intrinsics.h:115-117 | every byte lane of set1_epi8(x) reads back as x, at every register width |
| Intrinsics.Set1Epi16Lanes | intrinsics.h:118-120 | every 16-bit lane of set1_epi16(x) reads back as x |
| Intrinsics.Set1Epi32Lanes | intrinsics.h:121-123 | every 32-bit lane of set1_epi32(x) reads back as x |
| Intrinsics.SetzeroLanes | intrinsics.h:136-138 | every 16- and 32-bit lane of setzero_si is 0 |
| Intrinsics.Set1Zero | intrinsics.h:115-138 | set1_epi8/16/32 of 0 are the setzero_si register |
| Intrinsics.AddEpi8Lanes | intrinsics.h:37-39 | each signed byte lane of add_epi8 is the sum of the input lanes wrapped to int8_t |
| Intrinsics.AddEpi16Lanes | intrinsics.h:40-42 | each 16-bit lane is the lane sum modulo 2^16, i.e. the signed sum wrapped to int16_t |
| Intrinsics.AddEpi32Lanes | intrinsics.h:43-45 | each 32-bit lane is the lane sum modulo 2^32, i.e. the signed sum wrapped to int32_t |
| Intrinsics.AddsEpi16Lanes | intrinsics.h:46-48 | each signed 16-bit lane is the signed sum saturated to [-32768, 32767] |
| Intrinsics.MulloEpi16Lanes | intrinsics.h:109-111 | each 16-bit lane is the low 16 bits of the lane product, i.e. the signed product wrapped to int16_t |
| Intrinsics.MulloEpi32Lanes | kernels/implementations.inl:168-172 | each 32-bit lane of mullo_epi32 is the low 32 bits of the lane product, also in signed terms |
| Intrinsics.MulEpu32Lanes | intrinsics.h:100-102 | each 64-bit lane is the full unsigned product of the even (low) dwords of the inputs |
| Intrinsics.MulEpu32IgnoresHigh | intrinsics.h:100-102 | inputs that agree on their even dwords give the same mul_epu32 result, whatever their odd dwords |
| Intrinsics.ShuffleEpi32At | intrinsics.h:139-141 | dword p of each 128-bit block of the result is the block's dword selected by bits 2p..2p+1 of imm8 |
| Intrinsics.ShuffleEpi32Imm8 | kernels/implementations.inl:167 | with imm8 = 0x8 each block becomes dwords 0, 2, 0, 0 of the input block |
| Intrinsics.UnpackloEpi32At | intrinsics.h:160-162 | dword p of each block is dword p/2 of a (p even) or of b (p odd) |
| Intrinsics.UnpackloEpi32Lanes | intrinsics.h:160-162 | each 128-bit block of unpacklo_epi32(a, b) is a0, b0, a1, b1 of that block |
| Intrinsics.SrliSi128By4 | kernels/implementations.inl:166 | shifting a 128-bit register right by 4 bytes moves dwords 1..3 down one place and zero-fills dword 3 |
| Intrinsics.SlliBy8 | intrinsics.h:145-147 | slli_epi16 by 8 moves the low byte of each 16-bit lane to the high byte and zero-fills the low byte |
| Intrinsics.SrliBy8 | intrinsics.h:148-150 | srli_epi16 by 8 moves the high byte of each 16-bit lane to the low byte and zero-fills the high byte |
| Intrinsics.AndSiMask | intrinsics.h:58-60 | and_si with a mask of 0x00/0xFF bytes keeps the masked bytes and clears the others |
| Intrinsics.AndSiDword | intrinsics.h:58-60 | and_si with an all-ones or all-zero dword keeps or clears that dword |
| Intrinsics.OrSiDisjoint | intrinsics.h:112-114 | or_si of registers never both non-zero in a byte is their byte-wise sum |
| Intrinsics.MaxLanes | intrinsics.h:88-90 | max_epi8/16/32 give the signed maximum of each lane pair |
| Intrinsics.CmpltEpi32Bytes | kernels/implementations.inl:124 | every byte of cmplt_epi32(a, b) is 0xFF when the signed dword of a is below that of b, and 0 otherwise |
| Intrinsics.AbsEpi8 | intrinsics.h:169-171 | each byte lane is the magnitude of the signed input byte, at most 0x80 |
| Intrinsics.AbsSignProduct | intrinsics.h:142-144 | abs_epi8(a) times sign_epi8(b, a) is the signed product a_j * b_j, except where a_j < 0 and b_j = -128 |
| Intrinsics.MaddEpi16Lanes | intrinsics.h:79-81 | each 32-bit lane is a0*b0 + a1*b1 of the two signed 16-bit pairs, wrapped to int32_t |
| Intrinsics.MaddubsEpi16Lanes | intrinsics.h:82-84 | each 16-bit lane is the unsigned-by-signed byte pair sum, saturated to int16_t |
| Kernels.LoadInt32Lanes | kernels/implementations.inl:81-83 | int32_t elements loaded into a register read back as the same elements |
| Kernels.Int32LanesLoad | kernels/implementations.inl:42-43 | storing a register's 32-bit lanes and loading them again gives back the register |
| Kernels.LoadInt16Lanes | kernels/implementations.inl:76-78 | int16_t elements loaded into a register read back as the same elements |
| Kernels.Int16LanesLoad | kernels/implementations.inl:38-39 | storing a register's 16-bit lanes and loading them again gives back the register |
| Kernels.LoadInt8Lanes | kernels/implementations.inl:71-73 | int8_t elements loaded into a register read back as the same elements |
| Kernels.Int8LanesLoad | kernels/implementations.inl:34-35 | storing a register's bytes and loading them again gives back the register |
| Kernels.Overwrite | kernels/implementations.inl:34-52 | after a write, out[offset + k] holds lane k and every element outside the range is unchanged |
| Kernels.OverwriteIdempotent | kernels/implementations.inl:34-52 | writing the same lanes twice at one offset leaves what one write leaves |
| Kernels.OverwriteReadBack | kernels/implementations.inl:34-52 | the written range reads back as the written lanes |
| Kernels.OverwriteCommute | kernels/implementations.inl:34-52 | writes to disjoint ranges may be done in either order |
| Kernels.WriteInt8 | kernels/implementations.inl:34-36 | out becomes the old out with the register's bytes at offset |
| Kernels.WriteInt16 | kernels/implementations.inl:38-40 | out becomes the old out with the register's 16-bit lanes at offset |
| Kernels.WriteInt32 | kernels/implementations.inl:42-44 | out becomes the old out with the register's 32-bit lanes at offset |
| Kernels.WriteFloats | kernels/implementations.inl:46-52 | out becomes the old out with the float or double lanes at offset |
| Kernels.AddBiasInt8Lanes | kernels/implementations.inl:71-74 | each signed byte lane is input_i + bias[offset + i], wrapped to int8_t |
| Kernels.AddBiasInt16Lanes | kernels/implementations.inl:76-79 | each signed 16-bit lane is input_i + bias[offset + i], wrapped to int16_t |
| Kernels.AddBiasInt32Lanes | kernels/implementations.inl:81-84 | each signed 32-bit lane is input_i + bias[offset + i], wrapped to int32_t |
| Kernels.MultiplyInt8At | kernels/implementations.inl:150-155 | both bytes of 16-bit lane i are their own byte product modulo 256, each independent of the other byte |
| Kernels.MultiplyInt8Lanes | kernels/implementations.inl:150-155 | every byte lane is (a_j * b_j) mod 256, i.e. the signed product wrapped to int8_t |
| Kernels.MultiplyInt16Lanes | kernels/implementations.inl:157-160 | every 16-bit lane is (a_i * b_i) mod 2^16, also in signed terms |
| Kernels.MultiplyInt32Sse2Lanes | kernels/implementations.inl:164-167 | each of the four lanes of the two-PMULUDQ, shuffle and unpack emulation is (a_i * b_i) mod 2^32 |
| Kernels.MultiplyInt32Sse2IsMullo | kernels/implementations.inl:164-167 | the SSE2 emulation of multiply<int> equals mullo_epi32 |
| Kernels.MultiplyInt32Lanes | kernels/implementations.inl:162-173 | on every instruction set multiply<int> is mullo_epi32: each lane is the signed product wrapped to int32_t |
| Kernels.MaskedReluInt8IsMax | kernels/implementations.inl:102-112 | the SSE2 relu<int8_t>, and_si(x, cmplt_epi8(0, x)), equals max_epi8(x, 0) |
| Kernels.ReluInt8Lanes | kernels/implementations.inl:102-112 | every signed byte lane of relu<int8_t> is max(x_j, 0) |
| Kernels.ReluInt16Lanes | kernels/implementations.inl:114-118 | every signed 16-bit lane of relu<int16_t> is max(x_i, 0) |
| Kernels.MaskedReluInt32IsMax | kernels/implementations.inl:120-130 | the SSE2 relu<int>, and_si(x, cmplt_epi32(0, x)), equals max_epi32(x, 0) |
| Kernels.ReluInt32Lanes | kernels/implementations.inl:120-130 | every signed 32-bit lane of relu<int> is max(x_i, 0) |
| FloatKernels.TruncToZero | intrinsics.h:67-69 | cvttps_epi32's truncation lies strictly less than 1 from x, toward zero |
| FloatKernels.RoundHalfEvenNearest | intrinsics.h:64-66 | cvtps_epi32's rounding is within 0.5 of x, goes to the even integer on ties, and keeps integers |
| FloatKernels.CvtpsEpi32Range | intrinsics.h:64-66 | inside the int32_t range (with its half-unit margins) cvtps_epi32 rounds to nearest; outside it gives the indefinite value -2^31 |
| FloatKernels.ToFloatsExact | intrinsics.h:61-63 | on lanes of magnitude at most 2^24, where a float is exact, cvtepi32_ps keeps the order of the int32_t lanes and is injective |
| FloatKernels.QuantizeLanes | kernels/implementations.inl:57-59 | each lane of quantize is within 0.5 of input_i * quant_mult_i when that is in range, and -2^31 otherwise |
| FloatKernels.QuantizeUnquantize | kernels/implementations.inl:57-66 | unquantize with unquant_mult and quantize with quant_mult = 1 / unquant_mult gives back the int32_t register exactly |
| FloatKernels.UnquantizeOfQuantize | kernels/implementations.inl:57-66 | unquantize of quantize multiplies the rounded products, converted back to floats, by unquant_mult |
| FloatKernels.UnquantizeQuantize | kernels/implementations.inl:57-66 | with unquant_mult = 1 / quant_mult and the product in range, the round trip returns input_i within half a step 1 / quant_mult |
| FloatKernels.ScaleInverse | kernels/implementations.inl:175-183 | multiply<float> by set1_ps(q) and then by set1_ps(1 / q) gives the register back |
| FloatKernels.AddBiasFloatOfInt32 | kernels/implementations.inl:86-94 | float add_bias of the converted int32_t lanes and bias equals the conversion of add_bias<int> wherever no lane sum wraps |
| FloatKernels.ReluFloatLanes | kernels/implementations.inl:132-142 | every lane of the float relu is non-negative; it keeps exactly the non-negative lanes; relu is idempotent |
| FloatKernels.ReluFloatOfInt32 | kernels/implementations.inl:120-136 | converting int32_t lanes to float commutes with relu: the float relu of the lanes is the converted relu<int> |
| FloatKernels.FloorLaneIsFloor | kernels/implementations.inl:188-213 | for -2^31 - 1 < x < 2^31, the SSE2 truncate-and-correct, the AVX2 floor and the AVX512 blend all give the mathematical floor |
| FloatKernels.FloorLaneOutOfRange | kernels/implementations.inl:189-211 | for x >= 2^31 the SSE2 and AVX512 emulations give -2^31, which the native AVX2 floor does not |
| FloatKernels.FloorLanes | kernels/implementations.inl:188-213 | every lane of floor within that range is the mathematical floor of the input lane |
| FloatKernels.HornerTailSum | kernels/implementations.inl:253-268 | the Horner tail from coefficient k, times x^k, is the part of the polynomial from degree k up |
| FloatKernels.HornerIsTaylor | kernels/implementations.inl:234-268 | the seven multiply-add steps with the 1/k! dividers, plus 1, are the degree-7 Taylor polynomial of e^x |
| FloatKernels.ExpClamp | kernels/implementations.inl:247-248 | the clamped input lies in [EXP_MIN, EXP_MAX] = [-20, 20], and inputs already inside are unchanged |
| FloatKernels.ExpIndex | kernels/implementations.inl:247-250 | after the clamp, floor is exact and cvtps_epi32 of it is the integer floor, so EXP_MAX + floor lies in [0, 40] |
| FloatKernels.ExpFraction | kernels/implementations.inl:250-251 | the fraction xa = x - floor(x) of the clamped input lies in [0, 1) |
| FloatKernels.ExpLaneIsTaylor | kernels/implementations.inl:218-273 | each lane equals the reference: the table entry for floor(clamped x) times the degree-7 Taylor polynomial of e^t at the fraction t |
| FloatKernels.ExpApproxTaylorLanes | kernels/implementations.inl:218-273 | every lane of exp_approx_taylor has that form |
| FloatKernels.ExpAtInteger | kernels/implementations.inl:218-273 | at an integer k of [-20, 20] the result is exactly the table entry for k |
| FloatKernels.ExpSaturates | kernels/implementations.inl:247-248 | inputs at or above 20 give the entry for 20, and inputs at or below -20 give the entry for -20 |
| Callbacks.CallbackIsa | callbacks/implementations.inl:22-30 | callbacks use SSE2 registers on SSE2 and AVX2 registers otherwise, so one write covers 4 or 8 floats (never 16) |
| Callbacks.WrapIndex | callbacks/implementations.inl:65 | the unsigned 32-bit offset equals the product-sum below 2^32 and wraps above it |
| Callbacks.OutputOffsetRowMajor | callbacks/implementations.inl:65 | for a tile inside a matrix of at most 2^32 elements the offset is row_idx * cols + col_idx and the tile lies inside the matrix |
| Callbacks.TilesDisjoint | callbacks/implementations.inl:65 | different tiles of the same matrix cover disjoint element ranges |
| Callbacks.UnquantizeAndWriteElements | callbacks/implementations.inl:63-66 | element row_idx * cols + col_idx + k becomes lane k times unquant_mult; every other element is kept |
| Callbacks.UnquantizeAndAddBiasAndWriteElements | callbacks/implementations.inl:80-84 | element row_idx * cols + col_idx + k becomes lane k times unquant_mult plus bias[col_idx + k]; every other element is kept |
| Callbacks.UnquantizeAndWriteIdempotent | callbacks/implementations.inl:63-69 | a repeated call with the same input and tile leaves the output as one call does |
| Callbacks.UnquantizeAndAddBiasAndWriteIdempotent | callbacks/implementations.inl:80-87 | with the bias distinct from the output, a repeated call with the same input and tile changes nothing more |
| Callbacks.UnquantizeAndWriteTilesCommute | callbacks/implementations.inl:63-66 | calls on two different tiles of the matrix may run in either order |
| Callbacks.DummyCallback.Apply | callbacks/implementations.inl:49-53 | the Dummy callback has no modifies clause, so a call changes no memory: it ignores the tile, as the source's empty operator() does |
| Callbacks.UnquantizeAndWriteCallback.constructor | callbacks/implementations.inl:60-62 | stores isa and config; every lane of unquant_mult is config.unquant_mult |
| Callbacks.UnquantizeAndWriteCallback.Apply | callbacks/implementations.inl:63-66 | config.addr becomes the old contents with the unquantized lanes at row_idx * cols + col_idx; only config.addr changes |
| Callbacks.UnquantizeAndAddBiasAndWriteCallback.constructor | callbacks/implementations.inl:77-79 | stores isa and config; every lane of unquant_mult is config.unquant_mult |
| Callbacks.UnquantizeAndAddBiasAndWriteCallback.Apply | callbacks/implementations.inl:80-84 | the output becomes the old contents with unquantized lanes plus bias[col_idx ..] (read before the write) at row_idx * cols + col_idx; only the output array changes |

## Left out

- Floating point: float and double lanes are exact reals. `cvtepi32_ps` (`FloatKernels.Cvtepi32Ps`) is the exact value of the int32_t lane; the instruction rounds to a 24-bit significand above 2^24 in magnitude, so the lemmas that convert int32_t lanes (unquantize, relu and add_bias of converted lanes, the callbacks) describe the exact conversion. IEEE rounding of `mul_ps`, `add_ps`, `sub_ps` and the Horner steps is not modelled, so the accuracy of the exponential approximation is not modelled either. Rounding to integer in `cvtps_epi32` and truncation in `cvttps_epi32` are modelled exactly.
- Float operations are not uninterpreted functions: exact real arithmetic makes the round-trip, floor and Taylor properties statable.
- `expi` and `factorial` (utils.h) are not part of this model. The 41-entry exponent table is a parameter, and the dividers are 1/k! over the reals.
- `sigmoid` and `tanh` are not modelled: they are built on `rcp_ps` and `div_ps` float approximations.
- `loadu_ps`, `storeu_ps` and the `i32gather_ps` scale and address arithmetic are not modelled. Only the gather index range is (`ExpIndex`).
- The alignment of the `reinterpret_cast` loads and stores is not modelled. A register-wide read or write is in-bounds element access.
- Float intrinsics with no per-lane logic of interest (`and_ps`, `div_ps`, `setzero_ps`, `setzero_pd`, `set1_pd`, `sub_pd`) are not modelled separately. `max_ps`, `min_ps`, `mul_ps`, `add_ps`, `sub_ps`, `cvtepi32_ps`, `cvtps_epi32` and `cvttps_epi32` appear inside the kernels that use them.
- The SSE2 `assert(false)` branch of `exp_approx_taylor` is a precondition (`isa != SSE2`), not an abort.
- Target attributes, the `CPU_NAME`/`THIS_IS_*` macro selection, `#error` branches and runtime dispatch are not modelled. The instruction set is an explicit `Isa` parameter.
- The width of `Index` comes from types.h, which is not part of this model. It is taken as an unsigned 32-bit integer.
- Concurrency: the core has none.
- FloatKernels.ToFloatsExact: stated only for lanes of magnitude at most 2^24, where the float conversion is exact; above that cvtepi32_ps maps distinct values such as 16777216 and 16777217 to the same float.
- Callbacks.UnquantizeAndAddBiasAndWriteIdempotent: stated for a bias sequence separate from the output. When the bias and output arrays alias, a second call reads bias values the first call overwrote.
