/** The float kernels of kernels/implementations.inl: quantize, unquantize, add_bias, relu and
  * multiply on float (and double) lanes, the emulated floor, and exp_approx_taylor. A float lane
  * is a real number: the lane arithmetic is exact, and the conversions between float and int32
  * lanes are written out with the rounding, truncation and out-of-range result of the instructions.
  */
module FloatKernels {
  import opened Arith
  import opened Lanes
  import opened Intrinsics
  import opened Kernels

  /** The number of float lanes of a register of the target (a double register holds half as many). */
  function FloatCount(isa: Isa): (n: nat)
    ensures n == DwordCount(RegBytes(isa))
  {
    DwordCount(RegBytes(isa))
  }

  /* ---------------- conversions ---------------- */

  /** The "integer indefinite" value the conversions return when the result does not fit in int32_t. */
  const Indefinite: I32 := -0x8000_0000

  predicate InInt32(z: int) {
    -0x8000_0000 <= z < 0x8000_0000
  }

  /** Rounding toward zero. */
  function Trunc(x: real): int {
    if x >= 0.0 then x.Floor else -((-x).Floor)
  }

  /** Truncation drops the fraction: the result is the integer next to x on the side of zero. */
  lemma TruncToZero(x: real)
    ensures x >= 0.0 ==> 0.0 <= x - Trunc(x) as real < 1.0
    ensures x < 0.0 ==> 0.0 <= Trunc(x) as real - x < 1.0
  {
  }

  /** Rounding to nearest, ties to even (the default rounding mode that cvtps_epi32 uses). */
  function RoundHalfEven(x: real): int {
    var f := x.Floor;
    var d := x - f as real;
    if d < 0.5 then f else if d > 0.5 then f + 1 else if f % 2 == 0 then f else f + 1
  }

  /** The rounded value is within one half of x, even on a tie, and x itself when x is an integer. */
  lemma RoundHalfEvenNearest(x: real)
    ensures -0.5 <= RoundHalfEven(x) as real - x <= 0.5
    ensures RoundHalfEven(x) as real - x == 0.5 || x - RoundHalfEven(x) as real == 0.5 ==> RoundHalfEven(x) % 2 == 0
    ensures x == x.Floor as real ==> RoundHalfEven(x) == x.Floor
  {
  }

  /** cvttps_epi32 on one lane: truncation, or the indefinite value when that is out of range. */
  function CvttpsEpi32(x: real): I32 {
    var t := Trunc(x);
    if InInt32(t) then t else Indefinite
  }

  /** cvtps_epi32 on one lane: rounding to nearest even, or the indefinite value when out of range. */
  function CvtpsEpi32(x: real): I32 {
    var r := RoundHalfEven(x);
    if InInt32(r) then r else Indefinite
  }

  /** Within [-2^31 - 1/2, 2^31 - 1/2) cvtps_epi32 rounds to within one half; elsewhere it gives
    * the indefinite value.
    */
  lemma CvtpsEpi32Range(x: real)
    ensures -2147483648.5 <= x < 2147483647.5 ==> -0.5 <= CvtpsEpi32(x) as real - x <= 0.5
    ensures !(-2147483648.5 <= x < 2147483647.5) ==> CvtpsEpi32(x) == Indefinite
  {
    RoundHalfEvenNearest(x);
  }

  /** cvtepi32_ps on one lane. */
  function Cvtepi32Ps(z: I32): real {
    z as real
  }

  /** cvtepi32_ps on int32_t lanes. */
  function ToFloats(v: seq<I32>): (f: seq<real>)
    ensures |f| == |v|
  {
    seq(|v|, i requires 0 <= i < |v| => Cvtepi32Ps(v[i]))
  }

  /** On lanes of magnitude at most 2^24 a float holds every int32_t value exactly, so there the
    * conversion keeps the order of the lanes and is injective.
    */
  lemma {:induction false} ToFloatsExact(v: seq<I32>, w: seq<I32>)
    requires |w| == |v|
    requires forall i :: 0 <= i < |v| ==> -0x100_0000 <= v[i] <= 0x100_0000
    requires forall i :: 0 <= i < |w| ==> -0x100_0000 <= w[i] <= 0x100_0000
    ensures forall i :: 0 <= i < |v| ==> (v[i] < w[i] <==> ToFloats(v)[i] < ToFloats(w)[i])
    ensures ToFloats(v) == ToFloats(w) ==> v == w
  {
    if ToFloats(v) == ToFloats(w) {
      forall i | 0 <= i < |v|
        ensures v[i] == w[i]
      {
        assert ToFloats(v)[i] == ToFloats(w)[i];
      }
    }
  }

  /* ---------------- quantize and unquantize ---------------- */

  /** cvtps_epi32 on float lanes. */
  function CvtpsEpi32Lanes(p: seq<real>): (v: seq<I32>)
    ensures |v| == |p|
  {
    seq(|p|, i requires 0 <= i < |p| => CvtpsEpi32(p[i]))
  }

  /** quantize: cvtps_epi32(mul_ps(input, quant_mult)). */
  function Quantize(input: seq<real>, quantMult: seq<real>): (r: Reg)
    requires |quantMult| == |input| && IsWidth(4 * |input|)
    ensures |r| == 4 * |input|
  {
    LoadInt32(CvtpsEpi32Lanes(MultiplyFloat(input, quantMult)))
  }

  /** Each int32_t lane of quantize is lane i of the product mul_ps(input, quant_mult) rounded to
    * within one half, or the indefinite value when that product is out of the int32_t range.
    */
  lemma {:induction false} QuantizeLanes(input: seq<real>, quantMult: seq<real>, i: nat)
    requires |quantMult| == |input| && IsWidth(4 * |input|) && i < |input|
    ensures var p := MultiplyFloat(input, quantMult)[i];
      var z := Int32Lanes(Quantize(input, quantMult))[i];
      (-2147483648.5 <= p < 2147483647.5 ==> -0.5 <= z as real - p <= 0.5) &&
      (!(-2147483648.5 <= p < 2147483647.5) ==> z == Indefinite)
  {
    CvtpsEpi32LanesRange(MultiplyFloat(input, quantMult), i);
  }

  /** cvtps_epi32 of a float register, lane by lane. */
  lemma CvtpsEpi32LanesRange(p: seq<real>, i: nat)
    requires IsWidth(4 * |p|) && i < |p|
    ensures var z := Int32Lanes(LoadInt32(CvtpsEpi32Lanes(p)))[i];
      (-2147483648.5 <= p[i] < 2147483647.5 ==> -0.5 <= z as real - p[i] <= 0.5) &&
      (!(-2147483648.5 <= p[i] < 2147483647.5) ==> z == Indefinite)
  {
    var v := CvtpsEpi32Lanes(p);
    LoadInt32Lanes(v);
    assert v[i] == CvtpsEpi32(p[i]);
    CvtpsEpi32Range(p[i]);
  }

  /** unquantize: mul_ps(cvtepi32_ps(input), unquant_mult). */
  function Unquantize(input: Reg, unquantMult: seq<real>): (r: seq<real>)
    requires IsReg(input) && |unquantMult| == DwordCount(|input|)
    ensures |r| == DwordCount(|input|)
  {
    MultiplyFloat(ToFloats(Int32Lanes(input)), unquantMult)
  }

  /** Each lane of unquantize is the converted int32_t lane times the multiplier. */
  lemma {:induction false} UnquantizeLanes(input: Reg, unquantMult: seq<real>)
    requires IsReg(input) && |unquantMult| == DwordCount(|input|)
    ensures forall i :: 0 <= i < |unquantMult| ==>
      Unquantize(input, unquantMult)[i] == Cvtepi32Ps(Int32Lanes(input)[i]) * unquantMult[i]
  {
    ScaledFloats(Int32Lanes(input), unquantMult);
  }

  /** Lane i of the converted lanes times the multipliers. */
  lemma ScaledFloats(v: seq<I32>, u: seq<real>)
    requires |u| == |v|
    ensures forall i :: 0 <= i < |v| ==> MultiplyFloat(ToFloats(v), u)[i] == Cvtepi32Ps(v[i]) * u[i]
  {
  }

  /** unquantize after quantize converts each rounded product back and scales it. */
  lemma UnquantizeOfQuantize(input: seq<real>, quantMult: seq<real>, unquantMult: seq<real>)
    requires |quantMult| == |input| && |unquantMult| == |input| && IsWidth(4 * |input|)
    ensures Unquantize(Quantize(input, quantMult), unquantMult) ==
      MultiplyFloat(ToFloats(CvtpsEpi32Lanes(MultiplyFloat(input, quantMult))), unquantMult)
  {
    LoadInt32Lanes(CvtpsEpi32Lanes(MultiplyFloat(input, quantMult)));
  }

  /** Quantizing with q and unquantizing with 1 / q gives back each in-range lane within half a step 1 / q. */
  lemma {:induction false} UnquantizeQuantize(input: seq<real>, quantMult: seq<real>, unquantMult: seq<real>, i: nat)
    requires |quantMult| == |input| && |unquantMult| == |input| && IsWidth(4 * |input|) && i < |input|
    requires quantMult[i] > 0.0 && quantMult[i] * unquantMult[i] == 1.0
    requires -2147483648.5 <= input[i] * quantMult[i] < 2147483647.5
    ensures -0.5 * unquantMult[i] <= Unquantize(Quantize(input, quantMult), unquantMult)[i] - input[i] <= 0.5 * unquantMult[i]
  {
    UnquantizeOfQuantize(input, quantMult, unquantMult);
    RoundTripLanes(input, quantMult, unquantMult, i);
  }

  /** Unquantizing with 1 / q and quantizing again with q gives back the int32_t register: an
    * integer lane scaled by u and then by q is that integer, and cvtps_epi32 keeps integers.
    */
  lemma {:induction false} QuantizeUnquantize(input: Reg, unquantMult: seq<real>, quantMult: seq<real>)
    requires IsReg(input) && |unquantMult| == DwordCount(|input|) && |quantMult| == |unquantMult|
    requires forall i :: 0 <= i < |quantMult| ==> quantMult[i] * unquantMult[i] == 1.0
    ensures Quantize(Unquantize(input, unquantMult), quantMult) == input
  {
    RequantizeLanes(Int32Lanes(input), unquantMult, quantMult);
    Int32LanesLoad(input);
  }

  /** The same on the int32_t lanes, without the registers. */
  lemma {:induction false} RequantizeLanes(v: seq<I32>, unquantMult: seq<real>, quantMult: seq<real>)
    requires |unquantMult| == |v| && |quantMult| == |v|
    requires forall i :: 0 <= i < |quantMult| ==> quantMult[i] * unquantMult[i] == 1.0
    ensures CvtpsEpi32Lanes(MultiplyFloat(MultiplyFloat(ToFloats(v), unquantMult), quantMult)) == v
  {
    var f := ToFloats(v);
    var p := MultiplyFloat(MultiplyFloat(f, unquantMult), quantMult);
    forall i | 0 <= i < |v|
      ensures CvtpsEpi32Lanes(p)[i] == v[i]
    {
      assert f[i] == Cvtepi32Ps(v[i]);
      assert p[i] == (f[i] * unquantMult[i]) * quantMult[i];
      RequantizeLane(v[i], unquantMult[i], quantMult[i], p[i]);
    }
  }

  /** An int32_t lane scaled by u and then by q = 1 / u rounds back to itself. */
  lemma RequantizeLane(z: I32, u: real, q: real, p: real)
    requires q * u == 1.0 && p == (Cvtepi32Ps(z) * u) * q
    ensures CvtpsEpi32(p) == z
  {
    var x := Cvtepi32Ps(z);
    ScaleBack(x, u, q);
    assert x.Floor == z;
    RoundHalfEvenNearest(x);
    assert RoundHalfEven(x) == z;
    assert InInt32(z);
    assert p == x;
    assert CvtpsEpi32(x) == z;
  }

  /** Scaling z by u and then by q, where q * u = 1, gives z. */
  lemma ScaleBack(z: real, u: real, q: real)
    requires q * u == 1.0
    ensures (z * u) * q == z
  {
    assert (z * u) * q == z * (q * u);
  }

  /** The same bound on the lanes, without the registers. */
  lemma RoundTripLanes(input: seq<real>, quantMult: seq<real>, unquantMult: seq<real>, i: nat)
    requires |quantMult| == |input| && |unquantMult| == |input| && i < |input|
    requires quantMult[i] > 0.0 && quantMult[i] * unquantMult[i] == 1.0
    requires -2147483648.5 <= input[i] * quantMult[i] < 2147483647.5
    ensures var p := MultiplyFloat(input, quantMult);
      -0.5 * unquantMult[i] <= MultiplyFloat(ToFloats(CvtpsEpi32Lanes(p)), unquantMult)[i] - input[i] <= 0.5 * unquantMult[i]
  {
    assert MultiplyFloat(input, quantMult)[i] == input[i] * quantMult[i];
    RoundTripLane(MultiplyFloat(input, quantMult), unquantMult, input[i], quantMult[i], i);
  }

  /** Rounding p = x * q, converting back and multiplying by u = 1 / q gives a value within u / 2 of x. */
  lemma RoundTripLane(p: seq<real>, unquantMult: seq<real>, x: real, q: real, i: nat)
    requires |unquantMult| == |p| && i < |p|
    requires q > 0.0 && q * unquantMult[i] == 1.0 && p[i] == x * q
    requires -2147483648.5 <= p[i] < 2147483647.5
    ensures -0.5 * unquantMult[i] <= MultiplyFloat(ToFloats(CvtpsEpi32Lanes(p)), unquantMult)[i] - x <= 0.5 * unquantMult[i]
  {
    var f := ToFloats(CvtpsEpi32Lanes(p));
    CvtpsEpi32Range(p[i]);
    assert f[i] == CvtpsEpi32(p[i]) as real;
    MultiplyNear(f, unquantMult, x, q, p[i], i);
  }

  /** Multiplying a lane within one half of p = x * q by u, where u * q = 1, gives a value within u / 2 of x. */
  lemma MultiplyNear(f: seq<real>, unquantMult: seq<real>, x: real, q: real, p: real, i: nat)
    requires |unquantMult| == |f| && i < |f|
    requires q > 0.0 && q * unquantMult[i] == 1.0 && p == x * q && -0.5 <= f[i] - p <= 0.5
    ensures -0.5 * unquantMult[i] <= MultiplyFloat(f, unquantMult)[i] - x <= 0.5 * unquantMult[i]
  {
    RescaledError(x, q, unquantMult[i], f[i]);
  }

  /** If z is within one half of x * q and u = 1 / q, then z * u is within u / 2 of x. */
  lemma RescaledError(x: real, q: real, u: real, z: real)
    requires q > 0.0 && q * u == 1.0 && -0.5 <= z - x * q <= 0.5
    ensures -0.5 * u <= z * u - x <= 0.5 * u
  {
    assert u > 0.0;
    assert (x * q) * u == x * (q * u);
    assert z * u - x == (z - x * q) * u;
    MulRealBounds(z - x * q, u);
  }

  /** Multiplying a value within [-1/2, 1/2] by a positive u keeps it within [-u/2, u/2]. */
  lemma MulRealBounds(d: real, u: real)
    requires -0.5 <= d <= 0.5 && u > 0.0
    ensures -0.5 * u <= d * u <= 0.5 * u
  {
    assert (0.5 - d) * u >= 0.0;
    assert (d + 0.5) * u >= 0.0;
  }

  /* ---------------- add_bias, relu and multiply on float lanes ---------------- */

  /** add_bias on float (or double) lanes: add_ps of the input and the lanes loaded from bias[offset..]. */
  function AddBiasFloat(input: seq<real>, bias: seq<real>, offset: U32): (r: seq<real>)
    requires offset + |input| <= |bias|
    ensures |r| == |input|
  {
    seq(|input|, i requires 0 <= i < |input| => input[i] + bias[offset + i])
  }

  /** relu<float> and relu<double>: max_ps with zero. */
  function ReluFloat(input: seq<real>): (r: seq<real>)
    ensures |r| == |input|
  {
    seq(|input|, i requires 0 <= i < |input| => if input[i] > 0.0 then input[i] else 0.0)
  }

  /** multiply<float> and multiply<double>: mul_ps. */
  function MultiplyFloat(a: seq<real>, b: seq<real>): (r: seq<real>)
    requires |b| == |a|
    ensures |r| == |a|
  {
    seq(|a|, i requires 0 <= i < |a| => a[i] * b[i])
  }

  /** multiply<float> by set1_ps(q) and then by set1_ps(1 / q) gives the register back. */
  lemma {:induction false} ScaleInverse(isa: Isa, x: seq<real>, q: real, u: real)
    requires |x| == FloatCount(isa) && q * u == 1.0
    ensures MultiplyFloat(MultiplyFloat(x, Set1Ps(isa, q)), Set1Ps(isa, u)) == x
  {
    var y := MultiplyFloat(MultiplyFloat(x, Set1Ps(isa, q)), Set1Ps(isa, u));
    forall i | 0 <= i < |x|
      ensures y[i] == x[i]
    {
      ScaleBack(x[i], q, u);
    }
  }

  /** Lane i of add_bias is input_i + bias[offset + i]. */
  lemma {:induction false} AddBiasFloatLanes(input: seq<real>, bias: seq<real>, offset: U32)
    requires offset + |input| <= |bias|
    ensures forall i :: 0 <= i < |input| ==> AddBiasFloat(input, bias, offset)[i] - input[i] == bias[offset + i]
  {
  }

  /** add_bias on float lanes agrees with add_bias<int> through cvtepi32_ps: adding the converted
    * bias to the converted lanes gives the converted int32_t sums wherever no sum wraps.
    */
  lemma {:induction false} AddBiasFloatOfInt32(input: Reg, bias: seq<I32>, offset: U32)
    requires IsReg(input) && offset + DwordCount(|input|) <= |bias|
    requires forall i :: 0 <= i < DwordCount(|input|) ==> InInt32(S32(Dword(input, i)) + bias[offset + i])
    ensures AddBiasFloat(ToFloats(Int32Lanes(input)), ToFloats(bias), offset) ==
      ToFloats(Int32Lanes(AddBiasInt32(input, bias, offset)))
  {
    AddBiasInt32Exact(input, bias, offset);
    AddConverted(Int32Lanes(input), bias, offset, Int32Lanes(AddBiasInt32(input, bias, offset)));
  }

  /** Where no lane sum wraps, add_bias<int> adds exactly. */
  lemma {:induction false} AddBiasInt32Exact(input: Reg, bias: seq<I32>, offset: U32)
    requires IsReg(input) && offset + DwordCount(|input|) <= |bias|
    requires forall i :: 0 <= i < DwordCount(|input|) ==> InInt32(S32(Dword(input, i)) + bias[offset + i])
    ensures forall i :: 0 <= i < DwordCount(|input|) ==>
      Int32Lanes(AddBiasInt32(input, bias, offset))[i] as int == Int32Lanes(input)[i] as int + bias[offset + i] as int
  {
    forall i | 0 <= i < DwordCount(|input|)
      ensures Int32Lanes(AddBiasInt32(input, bias, offset))[i] as int == Int32Lanes(input)[i] as int + bias[offset + i] as int
    {
      AddBiasInt32At(input, bias, offset, i);
      NoWrap32(S32(Dword(input, i)) + bias[offset + i]);
    }
  }

  /** A value in the int32_t range is its own wrapped value. */
  lemma NoWrap32(x: int)
    requires InInt32(x)
    ensures Wrap32(x) == x
  {
    SignedRoundTrip(x, 0x1_0000_0000);
  }

  /** Converting lanes c_i = a_i + b[offset + i] is adding the converted lanes. */
  lemma {:induction false} AddConverted(a: seq<I32>, b: seq<I32>, offset: U32, c: seq<I32>)
    requires |c| == |a| && offset + |a| <= |b|
    requires forall i :: 0 <= i < |a| ==> c[i] as int == a[i] as int + b[offset + i] as int
    ensures AddBiasFloat(ToFloats(a), ToFloats(b), offset) == ToFloats(c)
  {
    var l := AddBiasFloat(ToFloats(a), ToFloats(b), offset);
    forall i | 0 <= i < |a|
      ensures l[i] == ToFloats(c)[i]
    {
      assert l[i] == ToFloats(a)[i] + ToFloats(b)[offset + i];
    }
  }

  /** relu on float lanes: non-negative, and it keeps exactly the positive lanes; applying it twice
    * is applying it once.
    */
  lemma {:induction false} ReluFloatLanes(input: seq<real>)
    ensures forall i :: 0 <= i < |input| ==> ReluFloat(input)[i] >= 0.0
    ensures forall i :: 0 <= i < |input| ==> (ReluFloat(input)[i] == input[i] <==> input[i] >= 0.0)
    ensures ReluFloat(ReluFloat(input)) == ReluFloat(input)
  {
  }

  /** relu commutes with the int32_t to float conversion: relu<float> of the converted lanes is the
    * conversion of relu<int>, on every target.
    */
  lemma {:induction false} ReluFloatOfInt32(isa: Isa, x: Reg)
    requires |x| == RegBytes(isa)
    ensures ReluFloat(ToFloats(Int32Lanes(x))) == ToFloats(Int32Lanes(ReluInt32(isa, x)))
  {
    ReluInt32Lanes(isa, x);
  }

  /* ---------------- floor ---------------- */

  /** floor on SSE2: convert with truncation and back, then subtract 1 (the constant AND-ed with the
    * two compare masks) from the lanes that are negative and not integral.
    */
  function FloorSse2(x: real): real {
    var result := Cvtepi32Ps(CvttpsEpi32(x));
    var negatives := x < 0.0;
    var nonintegers := x != result;
    result - (if negatives && nonintegers then 1.0 else 0.0)
  }

  /** floor on AVX512BW: the same truncation, then a blend that picks result - 1 under the combined mask. */
  function FloorAvx512(x: real): real {
    var result := Cvtepi32Ps(CvttpsEpi32(x));
    var mask := x < 0.0 && x != result;
    if mask then result - 1.0 else result
  }

  /** floor on one lane: the emulations on SSE2 and AVX512BW, the rounding instruction on AVX2. */
  function FloorLane(isa: Isa, x: real): real {
    match isa
    case SSE2 => FloorSse2(x)
    case AVX2 => x.Floor as real
    case AVX512BW => FloorAvx512(x)
  }

  /** floor on a float register. */
  function Floor(isa: Isa, input: seq<real>): (r: seq<real>)
    ensures |r| == |input|
  {
    seq(|input|, i requires 0 <= i < |input| => FloorLane(isa, input[i]))
  }

  /** Wherever the truncation fits in int32_t, both emulations compute the mathematical floor. */
  lemma FloorLaneIsFloor(isa: Isa, x: real)
    requires -2147483649.0 < x < 2147483648.0
    ensures FloorLane(isa, x) == x.Floor as real
  {
    var t := Trunc(x);
    assert InInt32(t);
    if x < 0.0 && x != t as real {
      assert x.Floor == t - 1;
    }
  }

  /** At or above 2^31 the truncation does not fit, and both emulations return -2^31 instead of the floor. */
  lemma FloorLaneOutOfRange(isa: Isa, x: real)
    requires isa != AVX2 && x >= 2147483648.0
    ensures FloorLane(isa, x) == -2147483648.0
  {
  }

  /** floor of a register whose lanes are all within range: every lane is the floor of the input lane. */
  lemma {:induction false} FloorLanes(isa: Isa, input: seq<real>)
    requires forall i :: 0 <= i < |input| ==> -2147483649.0 < input[i] < 2147483648.0
    ensures forall i :: 0 <= i < |input| ==> Floor(isa, input)[i] == input[i].Floor as real
  {
    forall i | 0 <= i < |input|
      ensures Floor(isa, input)[i] == input[i].Floor as real
    {
      FloorLaneIsFloor(isa, input[i]);
    }
  }

  /* ---------------- exp_approx_taylor ---------------- */

  const ExpMin: int := -20
  const ExpMax: int := 20

  function Factorial(n: nat): (f: nat)
    ensures f >= 1
  {
    if n == 0 then 1 else n * Factorial(n - 1)
  }

  function Power(x: real, n: nat): real {
    if n == 0 then 1.0 else x * Power(x, n - 1)
  }

  /** The polynomial with coefficients c, summed term by term: c[0] + c[1] x + ... + c[n-1] x^(n-1). */
  function Poly(c: seq<real>, x: real, n: nat): real
    requires n <= |c|
  {
    if n == 0 then 0.0 else Poly(c, x, n - 1) + c[n - 1] * Power(x, n - 1)
  }

  /** The same polynomial's terms k .. |c|-1 in Horner form: c[k] + x (c[k+1] + x (...)). */
  function HornerTail(c: seq<real>, x: real, k: nat): real
    requires k <= |c|
    decreases |c| - k
  {
    if k == |c| then 0.0 else c[k] + x * HornerTail(c, x, k + 1)
  }

  /** The coefficients 1 / k! of the Taylor series of e^x, up to degree n. */
  function TaylorCoefficients(n: nat): (c: seq<real>)
    ensures |c| == n + 1
  {
    seq(n + 1, k requires 0 <= k <= n => 1.0 / Factorial(k) as real)
  }

  /** The Taylor polynomial of e^x of degree n. */
  function Taylor(x: real, n: nat): real {
    Poly(TaylorCoefficients(n), x, n + 1)
  }

  /** x^k times the Horner form of the terms from k on is the sum of those terms. */
  lemma {:induction false} HornerTailSum(c: seq<real>, x: real, k: nat)
    requires k <= |c|
    ensures Power(x, k) * HornerTail(c, x, k) == Poly(c, x, |c|) - Poly(c, x, k)
    decreases |c| - k
  {
    if k < |c| {
      HornerTailSum(c, x, k + 1);
      Distribute(x, Power(x, k), c[k], HornerTail(c, x, k + 1), Power(x, k + 1));
    }
  }

  lemma Distribute(x: real, p: real, c: real, h: real, q: real)
    requires q == x * p
    ensures p * (c + x * h) == c * p + q * h
  {
  }

  /** dividers[k] = 1 / (7 - k)!. */
  function Divider(k: nat): real
    requires k <= 6
  {
    1.0 / Factorial(7 - k) as real
  }

  /** The Horner evaluation of exp_approx_taylor, step by step as the kernel does it. */
  function HornerSteps(xa: real): real {
    var r0 := Divider(0) * xa;
    var r1 := (r0 + Divider(1)) * xa;
    var r2 := (r1 + Divider(2)) * xa;
    var r3 := (r2 + Divider(3)) * xa;
    var r4 := (r3 + Divider(4)) * xa;
    var r5 := (r4 + Divider(5)) * xa;
    var r6 := (r5 + Divider(6)) * xa;
    r6 + 1.0
  }

  /** One of the kernel's steps extends the Horner form by the coefficient c[k]. */
  lemma HornerStepAt(c: seq<real>, x: real, k: nat, r: real)
    requires 0 < k < |c| && r == x * HornerTail(c, x, k + 1)
    ensures (r + c[k]) * x == x * HornerTail(c, x, k)
  {
    var h := HornerTail(c, x, k + 1);
    assert (r + c[k]) * x == x * (c[k] + x * h);
  }

  lemma HornerHead(c: seq<real>, x: real)
    requires |c| > 1
    ensures HornerTail(c, x, 0) == c[0] + x * HornerTail(c, x, 1)
  {
  }

  /** The kernel's seven steps are the Horner form of any polynomial of degree 7 whose
    * coefficients are the dividers and a constant term 1.
    */
  lemma HornerStepsTail(c: seq<real>, x: real)
    requires |c| == 8 && c[0] == 1.0
    requires c[7] == Divider(0) && c[6] == Divider(1) && c[5] == Divider(2) && c[4] == Divider(3)
    requires c[3] == Divider(4) && c[2] == Divider(5) && c[1] == Divider(6)
    ensures HornerSteps(x) == HornerTail(c, x, 0)
  {
    assert HornerTail(c, x, 8) == 0.0;
    var r0 := Divider(0) * x;
    assert r0 == x * HornerTail(c, x, 7);
    var r1 := (r0 + Divider(1)) * x;
    HornerStepAt(c, x, 6, r0);
    var r2 := (r1 + Divider(2)) * x;
    HornerStepAt(c, x, 5, r1);
    var r3 := (r2 + Divider(3)) * x;
    HornerStepAt(c, x, 4, r2);
    var r4 := (r3 + Divider(4)) * x;
    HornerStepAt(c, x, 3, r3);
    var r5 := (r4 + Divider(5)) * x;
    HornerStepAt(c, x, 2, r4);
    HornerStepAt(c, x, 1, r5);
    HornerHead(c, x);
  }

  /** The dividers are the Taylor coefficients of degrees 7 down to 1. */
  lemma TaylorDividers()
    ensures var c := TaylorCoefficients(7);
      c[0] == 1.0 && c[7] == Divider(0) && c[6] == Divider(1) && c[5] == Divider(2) && c[4] == Divider(3) &&
      c[3] == Divider(4) && c[2] == Divider(5) && c[1] == Divider(6)
  {
  }

  /** The kernel's Horner steps evaluate the Taylor polynomial of e^x of degree 7. */
  lemma HornerIsTaylor(xa: real)
    ensures HornerSteps(xa) == Taylor(xa, 7)
  {
    TaylorDividers();
    HornerStepsTail(TaylorCoefficients(7), xa);
    HornerTailSum(TaylorCoefficients(7), xa, 0);
  }

  /** max_ps and min_ps on one lane. */
  function MaxPs(x: real, y: real): real {
    if x > y then x else y
  }

  function MinPs(x: real, y: real): real {
    if x < y then x else y
  }

  /** The input clamped to [EXP_MIN, EXP_MAX]. */
  function ExpClamp(x: real): (c: real)
    ensures ExpMin as real <= c <= ExpMax as real
    ensures ExpMin as real <= x <= ExpMax as real ==> c == x
  {
    MinPs(MaxPs(x, ExpMin as real), ExpMax as real)
  }

  /** After the clamp, floor is exact and its conversion with cvtps_epi32 is the integer floor, so the
    * gather index EXP_MAX + floor(x) lies within the 41-entry table.
    */
  lemma ExpIndex(isa: Isa, x: real)
    ensures FloorLane(isa, ExpClamp(x)) == ExpClamp(x).Floor as real
    ensures CvtpsEpi32(FloorLane(isa, ExpClamp(x))) == ExpClamp(x).Floor
    ensures 0 <= ExpClamp(x).Floor + ExpMax <= ExpMax - ExpMin
  {
    var c := ExpClamp(x);
    FloorLaneIsFloor(isa, c);
  }

  /** exp_approx_taylor on one lane: the table entry for the integer part times the Taylor
    * polynomial of the fractional part. The table holds e^k for k = EXP_MIN .. EXP_MAX.
    */
  function ExpLane(isa: Isa, x: real, table: seq<real>): real
    requires isa != SSE2 && |table| == ExpMax - ExpMin + 1
  {
    var c := ExpClamp(x);
    var a := FloorLane(isa, c);
    var xa := c - a;
    var result := HornerSteps(xa);
    ExpIndex(isa, x);
    var ea := table[ExpMax + CvtpsEpi32(a)];
    ea * result
  }

  /** exp_approx_taylor: SSE2 is not supported (the kernel asserts), on AVX2 and AVX512BW every lane is ExpLane. */
  function ExpApproxTaylor(isa: Isa, x: seq<real>, table: seq<real>): (r: seq<real>)
    requires isa != SSE2 && |table| == ExpMax - ExpMin + 1 && |x| == FloatCount(isa)
    ensures |r| == |x|
  {
    seq(|x|, i requires 0 <= i < |x| => ExpLane(isa, x[i], table))
  }

  /** The reference the kernel approximates: e^x = e^k * e^t with k = floor(x) taken from the table and
    * e^t, for the fraction t = x - k, by its degree-7 Taylor polynomial (x clamped to [EXP_MIN, EXP_MAX]).
    */
  ghost function ExpReference(x: real, table: seq<real>): real
    requires |table| == ExpMax - ExpMin + 1
  {
    var c := ExpClamp(x);
    table[c.Floor + ExpMax] * Taylor(c - c.Floor as real, 7)
  }

  /** The Taylor polynomial is evaluated only on the fraction of the clamped input, which lies in [0, 1). */
  lemma ExpFraction(x: real)
    ensures 0.0 <= ExpClamp(x) - ExpClamp(x).Floor as real < 1.0
  {
  }

  /** What every lane computes: with c the clamped input, the table entry for floor(c) times the
    * degree-7 Taylor polynomial of e^t at the fraction t = c - floor(c).
    */
  lemma ExpLaneIsTaylor(isa: Isa, x: real, table: seq<real>)
    requires isa != SSE2 && |table| == ExpMax - ExpMin + 1
    ensures ExpLane(isa, x, table) == ExpReference(x, table)
  {
    ExpLaneForm(isa, x, table);
    ExpReferenceHorner(x, table);
  }

  /** The reference with the Taylor polynomial evaluated by the Horner steps. */
  lemma ExpReferenceHorner(x: real, table: seq<real>)
    requires |table| == ExpMax - ExpMin + 1
    ensures ExpReference(x, table) == table[ExpClamp(x).Floor + ExpMax] * HornerSteps(ExpClamp(x) - ExpClamp(x).Floor as real)
  {
    var c := ExpClamp(x);
    var t := c - c.Floor as real;
    HornerIsTaylor(t);
    ScaleEqual(ExpReference(x, table), table[c.Floor + ExpMax], Taylor(t, 7), HornerSteps(t),
      table[c.Floor + ExpMax] * HornerSteps(t));
  }

  /** The lane after the floor and the conversion are resolved: table entry times the Horner steps. */
  lemma ExpLaneForm(isa: Isa, x: real, table: seq<real>)
    requires isa != SSE2 && |table| == ExpMax - ExpMin + 1
    ensures ExpLane(isa, x, table) == table[ExpClamp(x).Floor + ExpMax] * HornerSteps(ExpClamp(x) - ExpClamp(x).Floor as real)
  {
    ExpIndex(isa, x);
  }

  lemma ScaleEqual(l: real, e: real, h: real, p: real, r: real)
    requires l == e * h && h == p && r == e * p
    ensures l == r
  {
  }

  /** Every lane of exp_approx_taylor is the table entry for its clamped integer part times the
    * Taylor polynomial of its fraction.
    */
  lemma {:induction false} ExpApproxTaylorLanes(isa: Isa, x: seq<real>, table: seq<real>)
    requires isa != SSE2 && |table| == ExpMax - ExpMin + 1 && |x| == FloatCount(isa)
    ensures forall i :: 0 <= i < |x| ==>
      ExpApproxTaylor(isa, x, table)[i] == ExpReference(x[i], table)
  {
    forall i | 0 <= i < |x|
      ensures ExpApproxTaylor(isa, x, table)[i] ==
        ExpReference(x[i], table)
    {
      ExpApproxTaylorAt(isa, x, table, i);
    }
  }

  lemma ExpApproxTaylorAt(isa: Isa, x: seq<real>, table: seq<real>, i: nat)
    requires isa != SSE2 && |table| == ExpMax - ExpMin + 1 && |x| == FloatCount(isa) && i < |x|
    ensures ExpApproxTaylor(isa, x, table)[i] ==
      ExpReference(x[i], table)
  {
    var y := x[i];
    assert ExpApproxTaylor(isa, x, table)[i] == ExpLane(isa, y, table);
    ExpLaneIsTaylor(isa, y, table);
  }

  /** At an integer k of [EXP_MIN, EXP_MAX] the result is the table entry for k. */
  lemma ExpAtInteger(isa: Isa, k: int, table: seq<real>)
    requires isa != SSE2 && |table| == ExpMax - ExpMin + 1 && ExpMin <= k <= ExpMax
    ensures ExpLane(isa, k as real, table) == table[k + ExpMax]
  {
    ExpIndex(isa, k as real);
    assert (k as real).Floor == k;
    assert HornerSteps(0.0) == 1.0;
  }

  /** Inputs above EXP_MAX give the entry for EXP_MAX, inputs below EXP_MIN the entry for EXP_MIN. */
  lemma ExpSaturates(isa: Isa, x: real, table: seq<real>)
    requires isa != SSE2 && |table| == ExpMax - ExpMin + 1
    ensures x >= ExpMax as real ==> ExpLane(isa, x, table) == table[ExpMax - ExpMin]
    ensures x <= ExpMin as real ==> ExpLane(isa, x, table) == table[0]
  {
    if x >= ExpMax as real {
      assert ExpClamp(x) == ExpMax as real;
      ExpAtInteger(isa, ExpMax, table);
    }
    if x <= ExpMin as real {
      assert ExpClamp(x) == ExpMin as real;
      ExpAtInteger(isa, ExpMin, table);
    }
  }
}
