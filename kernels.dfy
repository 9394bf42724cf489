/** The element-wise kernels of kernels/implementations.inl: write, add_bias, relu and multiply on
  * integer registers, quantize and unquantize on float lanes. A kernel is compiled once per target;
  * here the target is a parameter, and a register of that target has RegBytes(isa) bytes.
  */
module Kernels {
  import opened Arith
  import opened Lanes
  import opened Intrinsics

  /* ---------------- element views of a register ---------------- */

  /** The register as the int8_t, int16_t and int32_t elements it holds in memory. */
  function Int8Lanes(r: Reg): (v: seq<I8>)
    ensures |v| == |r|
  {
    seq(|r|, j requires 0 <= j < |r| => S8(r[j]))
  }

  function Int16Lanes(r: Reg): (v: seq<I16>)
    requires IsReg(r)
    ensures |v| == WordCount(|r|)
  {
    seq(WordCount(|r|), i requires 0 <= i < WordCount(|r|) => S16(Word(r, i)))
  }

  function Int32Lanes(r: Reg): (v: seq<I32>)
    requires IsReg(r)
    ensures |v| == DwordCount(|r|)
  {
    seq(DwordCount(|r|), i requires 0 <= i < DwordCount(|r|) => S32(Dword(r, i)))
  }

  /** The two's-complement bit patterns of int8_t, int16_t and int32_t values. */
  function Encode8(x: I8): (u: Byte)
    ensures S8(u) == x
  {
    SignedRoundTrip(x, 0x100);
    x as int % 0x100
  }

  function Encode16(x: I16): (u: U16)
    ensures S16(u) == x
  {
    SignedRoundTrip(x, 0x1_0000);
    x as int % 0x1_0000
  }

  function Encode32(x: I32): (u: U32)
    ensures S32(u) == x
  {
    SignedRoundTrip(x, 0x1_0000_0000);
    x as int % 0x1_0000_0000
  }

  /** The register loaded from consecutive int8_t, int16_t or int32_t elements. */
  function LoadInt8(s: seq<I8>): (r: Reg)
    ensures |r| == |s|
  {
    seq(|s|, j requires 0 <= j < |s| => Encode8(s[j]))
  }

  function LoadInt16(s: seq<I16>): (r: Reg)
    ensures |r| == 2 * |s|
  {
    FromWords(seq(|s|, i requires 0 <= i < |s| => Encode16(s[i])))
  }

  function LoadInt32(s: seq<I32>): (r: Reg)
    ensures |r| == 4 * |s|
  {
    FromDwords(seq(|s|, i requires 0 <= i < |s| => Encode32(s[i])))
  }

  /** Loading elements into a register and viewing the register again gives the same elements. */
  lemma {:induction false} LoadInt8Lanes(s: seq<I8>)
    ensures Int8Lanes(LoadInt8(s)) == s
  {
  }

  lemma {:induction false} LoadInt16Lanes(s: seq<I16>)
    requires IsWidth(2 * |s|)
    ensures Int16Lanes(LoadInt16(s)) == s
  {
  }

  lemma {:induction false} LoadInt32Lanes(s: seq<I32>)
    requires IsWidth(4 * |s|)
    ensures Int32Lanes(LoadInt32(s)) == s
  {
  }

  /** Viewing a register as elements and loading those elements again gives the same register. */
  lemma {:induction false} Int8LanesLoad(r: Reg)
    ensures LoadInt8(Int8Lanes(r)) == r
  {
    forall j | 0 <= j < |r|
      ensures LoadInt8(Int8Lanes(r))[j] == r[j]
    {
      assert LoadInt8(Int8Lanes(r))[j] == Encode8(S8(r[j]));
      UnsignedRoundTrip(r[j], 0x100);
    }
  }

  lemma {:induction false} Int16LanesLoad(r: Reg)
    requires IsReg(r)
    ensures LoadInt16(Int16Lanes(r)) == r
  {
    var v := Int16Lanes(r);
    var l := LoadInt16(v);
    forall i | 0 <= i < WordCount(|r|)
      ensures Word(l, i) == Word(r, i)
    {
      assert Word(l, i) == Encode16(v[i]);
      UnsignedRoundTrip(Word(r, i), 0x1_0000);
    }
    EqualByWords(l, r);
  }

  lemma {:induction false} Int32LanesLoad(r: Reg)
    requires IsReg(r)
    ensures LoadInt32(Int32Lanes(r)) == r
  {
    var v := Int32Lanes(r);
    var l := LoadInt32(v);
    forall i | 0 <= i < DwordCount(|r|)
      ensures Dword(l, i) == Dword(r, i)
    {
      assert Dword(l, i) == Encode32(v[i]);
      UnsignedRoundTrip(Dword(r, i), 0x1_0000_0000);
    }
    EqualByDwords(l, r);
  }

  /* ---------------- write ---------------- */

  /** s with the elements from offset on replaced by v. */
  function Overwrite<T>(s: seq<T>, offset: nat, v: seq<T>): (t: seq<T>)
    requires offset + |v| <= |s|
    ensures |t| == |s|
    ensures forall k :: 0 <= k < |v| ==> t[offset + k] == v[k]
    ensures forall k :: 0 <= k < |s| && !(offset <= k < offset + |v|) ==> t[k] == s[k]
  {
    s[..offset] + v + s[offset + |v|..]
  }

  /** Writing the same elements twice leaves what one write leaves. */
  lemma {:induction false} OverwriteIdempotent<T>(s: seq<T>, offset: nat, v: seq<T>)
    requires offset + |v| <= |s|
    ensures Overwrite(Overwrite(s, offset, v), offset, v) == Overwrite(s, offset, v)
  {
    var t := Overwrite(s, offset, v);
    var u := Overwrite(t, offset, v);
    forall k | 0 <= k < |s|
      ensures u[k] == t[k]
    {
      if offset <= k < offset + |v| {
        assert u[offset + (k - offset)] == v[k - offset];
      }
    }
  }

  /** The written range reads back as v. */
  lemma {:induction false} OverwriteReadBack<T>(s: seq<T>, offset: nat, v: seq<T>)
    requires offset + |v| <= |s|
    ensures Overwrite(s, offset, v)[offset..offset + |v|] == v
  {
    var t := Overwrite(s, offset, v);
    forall k | 0 <= k < |v|
      ensures t[offset..offset + |v|][k] == v[k]
    {
      assert t[offset + k] == v[k];
    }
  }

  /** Writes to disjoint ranges commute. */
  lemma {:induction false} OverwriteCommute<T>(s: seq<T>, o1: nat, v1: seq<T>, o2: nat, v2: seq<T>)
    requires o1 + |v1| <= |s| && o2 + |v2| <= |s|
    requires o1 + |v1| <= o2 || o2 + |v2| <= o1
    ensures Overwrite(Overwrite(s, o1, v1), o2, v2) == Overwrite(Overwrite(s, o2, v2), o1, v1)
  {
    var a := Overwrite(Overwrite(s, o1, v1), o2, v2);
    var b := Overwrite(Overwrite(s, o2, v2), o1, v1);
    forall k | 0 <= k < |s|
      ensures a[k] == b[k]
    {
      if o1 <= k < o1 + |v1| {
        assert Overwrite(s, o1, v1)[o1 + (k - o1)] == v1[k - o1];
        assert b[o1 + (k - o1)] == v1[k - o1];
      } else if o2 <= k < o2 + |v2| {
        assert a[o2 + (k - o2)] == v2[k - o2];
        assert Overwrite(s, o2, v2)[o2 + (k - o2)] == v2[k - o2];
      }
    }
  }

  /** A register-wide store: out[offset .. offset + |v|) becomes v, every other element is kept. */
  method Store<T>(v: seq<T>, out: array<T>, offset: nat)
    requires offset + |v| <= out.Length
    modifies out
    ensures out[..] == Overwrite(old(out[..]), offset, v)
  {
    forall k | offset <= k < offset + |v| {
      out[k] := v[k - offset];
    }
  }

  /** write(vi, int8_t*, offset): the register's bytes become the int8_t elements at offset. */
  method WriteInt8(input: Reg, out: array<I8>, offset: U32)
    requires IsReg(input) && offset + |input| <= out.Length
    modifies out
    ensures out[..] == Overwrite(old(out[..]), offset, Int8Lanes(input))
  {
    Store(Int8Lanes(input), out, offset);
  }

  /** write(vi, int16_t*, offset): the register's 16-bit lanes become the elements at offset. */
  method WriteInt16(input: Reg, out: array<I16>, offset: U32)
    requires IsReg(input) && offset + WordCount(|input|) <= out.Length
    modifies out
    ensures out[..] == Overwrite(old(out[..]), offset, Int16Lanes(input))
  {
    Store(Int16Lanes(input), out, offset);
  }

  /** write(vi, int*, offset): the register's 32-bit lanes become the elements at offset. */
  method WriteInt32(input: Reg, out: array<I32>, offset: U32)
    requires IsReg(input) && offset + DwordCount(|input|) <= out.Length
    modifies out
    ensures out[..] == Overwrite(old(out[..]), offset, Int32Lanes(input))
  {
    Store(Int32Lanes(input), out, offset);
  }

  /** write(vf, float*, offset) and write(vd, double*, offset): the lanes become the elements at offset. */
  method WriteFloats<F>(input: seq<F>, out: array<F>, offset: U32)
    requires offset + |input| <= out.Length
    modifies out
    ensures out[..] == Overwrite(old(out[..]), offset, input)
  {
    Store(input, out, offset);
  }

  /* ---------------- add_bias ---------------- */

  /** add_bias(vi, const int8_t*, offset): add_epi8 of the input and the register loaded from bias[offset..]. */
  function AddBiasInt8(input: Reg, bias: seq<I8>, offset: U32): (r: Reg)
    requires IsReg(input) && offset + |input| <= |bias|
    ensures |r| == |input|
  {
    AddEpi8(input, LoadInt8(bias[offset..offset + |input|]))
  }

  function AddBiasInt16(input: Reg, bias: seq<I16>, offset: U32): (r: Reg)
    requires IsReg(input) && offset + WordCount(|input|) <= |bias|
    ensures |r| == |input|
  {
    AddEpi16(input, LoadInt16(bias[offset..offset + WordCount(|input|)]))
  }

  function AddBiasInt32(input: Reg, bias: seq<I32>, offset: U32): (r: Reg)
    requires IsReg(input) && offset + DwordCount(|input|) <= |bias|
    ensures |r| == |input|
  {
    AddEpi32(input, LoadInt32(bias[offset..offset + DwordCount(|input|)]))
  }

  /** Element i of the result is input_i + bias[offset + i], wrapped to the element width. */
  lemma {:induction false} AddBiasInt8Lanes(input: Reg, bias: seq<I8>, offset: U32)
    requires IsReg(input) && offset + |input| <= |bias|
    ensures forall i :: 0 <= i < |input| ==>
      Int8Lanes(AddBiasInt8(input, bias, offset))[i] == Wrap8(Int8Lanes(input)[i] as int + bias[offset + i])
  {
    AddEpi8Lanes(input, LoadInt8(bias[offset..offset + |input|]));
  }

  lemma {:induction false} AddBiasInt16Lanes(input: Reg, bias: seq<I16>, offset: U32)
    requires IsReg(input) && offset + WordCount(|input|) <= |bias|
    ensures forall i :: 0 <= i < WordCount(|input|) ==>
      S16(Word(AddBiasInt16(input, bias, offset), i)) == Wrap16(S16(Word(input, i)) + bias[offset + i])
  {
    forall i | 0 <= i < WordCount(|input|)
      ensures S16(Word(AddBiasInt16(input, bias, offset), i)) == Wrap16(S16(Word(input, i)) + bias[offset + i])
    {
      AddBiasInt16At(input, bias, offset, i);
    }
  }

  lemma AddBiasInt16At(input: Reg, bias: seq<I16>, offset: U32, i: nat)
    requires IsReg(input) && offset + WordCount(|input|) <= |bias| && i < WordCount(|input|)
    ensures S16(Word(AddBiasInt16(input, bias, offset), i)) == Wrap16(S16(Word(input, i)) + bias[offset + i])
  {
    var b := bias[offset..offset + WordCount(|input|)];
    assert b[i] == bias[offset + i];
    AddLoadedInt16At(input, b, i);
  }

  lemma {:induction false} AddBiasInt32Lanes(input: Reg, bias: seq<I32>, offset: U32)
    requires IsReg(input) && offset + DwordCount(|input|) <= |bias|
    ensures forall i :: 0 <= i < DwordCount(|input|) ==>
      S32(Dword(AddBiasInt32(input, bias, offset), i)) == Wrap32(S32(Dword(input, i)) + bias[offset + i])
  {
    forall i | 0 <= i < DwordCount(|input|)
      ensures S32(Dword(AddBiasInt32(input, bias, offset), i)) == Wrap32(S32(Dword(input, i)) + bias[offset + i])
    {
      AddBiasInt32At(input, bias, offset, i);
    }
  }

  lemma AddBiasInt32At(input: Reg, bias: seq<I32>, offset: U32, i: nat)
    requires IsReg(input) && offset + DwordCount(|input|) <= |bias| && i < DwordCount(|input|)
    ensures S32(Dword(AddBiasInt32(input, bias, offset), i)) == Wrap32(S32(Dword(input, i)) + bias[offset + i])
  {
    var b := bias[offset..offset + DwordCount(|input|)];
    assert b[i] == bias[offset + i];
    AddLoadedInt32At(input, b, i);
  }

  /** Lane i of add_epi16 and add_epi32 with a register loaded from s: the wrapped sum of input_i and s[i]. */
  lemma AddLoadedInt16At(input: Reg, s: seq<I16>, i: nat)
    requires IsReg(input) && |s| == WordCount(|input|) && i < |s|
    ensures S16(Word(AddEpi16(input, LoadInt16(s)), i)) == Wrap16(S16(Word(input, i)) + s[i])
  {
    var l := LoadInt16(s);
    assert S16(Word(l, i)) == s[i] by {
      assert Word(l, i) == Encode16(s[i]);
    }
    AddEpi16At(input, l, i);
  }

  lemma AddLoadedInt32At(input: Reg, s: seq<I32>, i: nat)
    requires IsReg(input) && |s| == DwordCount(|input|) && i < |s|
    ensures S32(Dword(AddEpi32(input, LoadInt32(s)), i)) == Wrap32(S32(Dword(input, i)) + s[i])
  {
    var l := LoadInt32(s);
    assert S32(Dword(l, i)) == s[i] by {
      assert Dword(l, i) == Encode32(s[i]);
    }
    AddEpi32At(input, l, i);
  }

  /* ---------------- multiply ---------------- */

  /** multiply<int8_t>: there is no 8-bit multiply, so the even bytes are multiplied as 16-bit lanes
    * (keeping the low byte of each product) and the odd bytes are shifted down, multiplied and
    * shifted back up.
    */
  function MultiplyInt8(a: Reg, b: Reg): (r: Reg)
    requires IsReg(a) && |b| == |a|
    ensures |r| == |a|
  {
    var even := MulloEpi16(a, b);
    var odd := MulloEpi16(SrliEpi16(a, 8), SrliEpi16(b, 8));
    OrSi(SlliEpi16(odd, 8), SrliEpi16(SlliEpi16(even, 8), 8))
  }

  /** Byte 2i of mullo_epi16 is the low byte of the product of the bytes 2i. */
  lemma MulloLowByte(a: Reg, b: Reg, i: nat)
    requires IsReg(a) && |b| == |a| && i < WordCount(|a|)
    ensures MulloEpi16(a, b)[2 * i] == (a[2 * i] as int * b[2 * i]) % 0x100
  {
    var m := MulloEpi16(a, b);
    assert Word(m, i) == WordProduct(a, b, i);
    WordDef(a, i);
    WordDef(b, i);
    WordBytes(m, i);
    LowByteOfProduct(a[2 * i], a[2 * i + 1], b[2 * i], b[2 * i + 1]);
  }

  /** Byte 2i of mullo_epi16 of the inputs shifted right by 8 is the low byte of the product of the bytes 2i + 1. */
  lemma MulloHighByte(a: Reg, b: Reg, i: nat)
    requires IsReg(a) && |b| == |a| && i < WordCount(|a|)
    ensures MulloEpi16(SrliEpi16(a, 8), SrliEpi16(b, 8))[2 * i] == (a[2 * i + 1] as int * b[2 * i + 1]) % 0x100
  {
    var sa, sb := SrliEpi16(a, 8), SrliEpi16(b, 8);
    SrliBy8(a);
    SrliBy8(b);
    MulloLowByte(sa, sb, i);
  }

  /** The merge step of multiply<int8_t>: the low byte of each 16-bit lane of even stays in place,
    * the low byte of each 16-bit lane of odd moves up.
    */
  lemma MergeLowBytes(even: Reg, odd: Reg, i: nat)
    requires IsReg(even) && |odd| == |even| && i < WordCount(|even|)
    ensures OrSi(SlliEpi16(odd, 8), SrliEpi16(SlliEpi16(even, 8), 8))[2 * i] == even[2 * i]
    ensures OrSi(SlliEpi16(odd, 8), SrliEpi16(SlliEpi16(even, 8), 8))[2 * i + 1] == odd[2 * i]
  {
    var hi, lo := SlliEpi16(odd, 8), SrliEpi16(SlliEpi16(even, 8), 8);
    SlliBy8(odd);
    SlliBy8(even);
    SrliBy8(SlliEpi16(even, 8));
    OrZero(lo[2 * i]);
    OrZero(hi[2 * i + 1]);
  }

  /** Bytes 2i and 2i + 1 of MultiplyInt8 are the low bytes of the products of the corresponding input bytes. */
  lemma MultiplyInt8At(a: Reg, b: Reg, i: nat)
    requires IsReg(a) && |b| == |a| && i < WordCount(|a|)
    ensures MultiplyInt8(a, b)[2 * i] == (a[2 * i] as int * b[2 * i]) % 0x100
    ensures MultiplyInt8(a, b)[2 * i + 1] == (a[2 * i + 1] as int * b[2 * i + 1]) % 0x100
  {
    MulloLowByte(a, b, i);
    MulloHighByte(a, b, i);
    MergeLowBytes(MulloEpi16(a, b), MulloEpi16(SrliEpi16(a, 8), SrliEpi16(b, 8)), i);
  }

  /** Every byte of multiply<int8_t> is the product of the two input bytes modulo 256, whatever the
    * neighbouring bytes hold; read as int8_t, it is the wrapped product of the int8_t inputs.
    */
  lemma {:induction false} MultiplyInt8Lanes(a: Reg, b: Reg)
    requires IsReg(a) && |b| == |a|
    ensures forall j :: 0 <= j < |a| ==> MultiplyInt8(a, b)[j] == (a[j] as int * b[j]) % 0x100
    ensures forall j :: 0 <= j < |a| ==> S8(MultiplyInt8(a, b)[j]) == Wrap8(S8(a[j]) * S8(b[j]))
  {
    var r := MultiplyInt8(a, b);
    forall j | 0 <= j < |a|
      ensures r[j] == (a[j] as int * b[j]) % 0x100
      ensures S8(r[j]) == Wrap8(S8(a[j]) * S8(b[j]))
    {
      var i := j / 2;
      MultiplyInt8At(a, b, i);
      assert j == 2 * i || j == 2 * i + 1;
      SignedProduct(a[j], b[j], r[j], 0x100);
    }
  }

  /** multiply<int16_t> is mullo_epi16. */
  function MultiplyInt16(a: Reg, b: Reg): (r: Reg)
    requires IsReg(a) && |b| == |a|
    ensures |r| == |a|
  {
    MulloEpi16(a, b)
  }

  lemma {:induction false} MultiplyInt16Lanes(a: Reg, b: Reg)
    requires IsReg(a) && |b| == |a|
    ensures forall i :: 0 <= i < WordCount(|a|) ==>
      S16(Word(MultiplyInt16(a, b), i)) == Wrap16(S16(Word(a, i)) * S16(Word(b, i)))
  {
    MulloEpi16Lanes(a, b);
  }

  /** multiply<int> on SSE2, which lacks PMULLD: PMULUDQ multiplies dwords 0 and 2, and again after a
    * byte shift by 4 dwords 1 and 3; PSHUFD with 0x8 gathers the low halves of the products and
    * PUNPCKLDQ interleaves them.
    */
  function MultiplyInt32Sse2(a: Reg, b: Reg): (r: Reg)
    requires |a| == 16 && |b| == 16
    ensures |r| == 16
  {
    var even := MulEpu32(a, b);
    var odd := MulEpu32(SrliSi128(a, 4), SrliSi128(b, 4));
    UnpackloEpi32(ShuffleEpi32(even, 0x8), ShuffleEpi32(odd, 0x8))
  }

  /** multiply<int>: the emulation on SSE2, mullo_epi32 on AVX2 and AVX512BW. */
  function MultiplyInt32(isa: Isa, a: Reg, b: Reg): (r: Reg)
    requires |a| == RegBytes(isa) && |b| == |a|
    ensures |r| == |a|
  {
    if isa == SSE2 then MultiplyInt32Sse2(a, b) else MulloEpi32(a, b)
  }

  /** PMULUDQ followed by PSHUFD 0x8 leaves the low 32 bits of the products of dwords 0 and 2 in dwords 0 and 1. */
  lemma ShuffledProducts(a: Reg, b: Reg)
    requires |a| == 16 && |b| == 16
    ensures Dword(ShuffleEpi32(MulEpu32(a, b), 0x8), 0) == (Dword(a, 0) * Dword(b, 0)) % 0x1_0000_0000
    ensures Dword(ShuffleEpi32(MulEpu32(a, b), 0x8), 1) == (Dword(a, 2) * Dword(b, 2)) % 0x1_0000_0000
  {
    var p := MulEpu32(a, b);
    MulEpu32At(a, b, 0, 0);
    MulEpu32At(a, b, 1, 2);
    ShuffleEpi32At(p, 0x8, 0, 0, 0, 0);
    ShuffleEpi32At(p, 0x8, 0, 1, 1, 2);
  }

  /** The same after shifting both inputs down by one dword: the products of dwords 1 and 3. */
  lemma ShuffledOddProducts(a: Reg, b: Reg)
    requires |a| == 16 && |b| == 16
    ensures Dword(ShuffleEpi32(MulEpu32(SrliSi128(a, 4), SrliSi128(b, 4)), 0x8), 0) == (Dword(a, 1) * Dword(b, 1)) % 0x1_0000_0000
    ensures Dword(ShuffleEpi32(MulEpu32(SrliSi128(a, 4), SrliSi128(b, 4)), 0x8), 1) == (Dword(a, 3) * Dword(b, 3)) % 0x1_0000_0000
  {
    SrliSi128By4(a);
    SrliSi128By4(b);
    ShuffledProducts(SrliSi128(a, 4), SrliSi128(b, 4));
  }

  /** Every dword of the SSE2 emulation is the product of the input dwords modulo 2^32. */
  lemma {:induction false} MultiplyInt32Sse2Lanes(a: Reg, b: Reg)
    requires |a| == 16 && |b| == 16
    ensures Dword(MultiplyInt32Sse2(a, b), 0) == (Dword(a, 0) * Dword(b, 0)) % 0x1_0000_0000
    ensures Dword(MultiplyInt32Sse2(a, b), 1) == (Dword(a, 1) * Dword(b, 1)) % 0x1_0000_0000
    ensures Dword(MultiplyInt32Sse2(a, b), 2) == (Dword(a, 2) * Dword(b, 2)) % 0x1_0000_0000
    ensures Dword(MultiplyInt32Sse2(a, b), 3) == (Dword(a, 3) * Dword(b, 3)) % 0x1_0000_0000
  {
    var se := ShuffleEpi32(MulEpu32(a, b), 0x8);
    var so := ShuffleEpi32(MulEpu32(SrliSi128(a, 4), SrliSi128(b, 4)), 0x8);
    ShuffledProducts(a, b);
    ShuffledOddProducts(a, b);
    UnpackloEpi32At(se, so, 0, 0, 0, 0);
    UnpackloEpi32At(se, so, 0, 1, 1, 0);
    UnpackloEpi32At(se, so, 0, 2, 2, 1);
    UnpackloEpi32At(se, so, 0, 3, 3, 1);
  }

  /** The SSE2 emulation computes exactly what PMULLD computes. */
  lemma {:induction false} MultiplyInt32Sse2IsMullo(a: Reg, b: Reg)
    requires |a| == 16 && |b| == 16
    ensures MultiplyInt32Sse2(a, b) == MulloEpi32(a, b)
  {
    var r, m := MultiplyInt32Sse2(a, b), MulloEpi32(a, b);
    MultiplyInt32Sse2Lanes(a, b);
    MulloEpi32Lanes(a, b);
    forall i | 0 <= i < DwordCount(|a|)
      ensures Dword(r, i) == Dword(m, i)
    {
      assert i == 0 || i == 1 || i == 2 || i == 3;
    }
    EqualByDwords(r, m);
  }

  /** On every target, each 32-bit lane of multiply<int> is the product modulo 2^32, that is the
    * wrapped product of the int32_t lanes.
    */
  lemma {:induction false} MultiplyInt32Lanes(isa: Isa, a: Reg, b: Reg)
    requires |a| == RegBytes(isa) && |b| == |a|
    ensures MultiplyInt32(isa, a, b) == MulloEpi32(a, b)
    ensures forall i :: 0 <= i < DwordCount(|a|) ==>
      S32(Dword(MultiplyInt32(isa, a, b), i)) == Wrap32(S32(Dword(a, i)) * S32(Dword(b, i)))
  {
    if isa == SSE2 {
      MultiplyInt32Sse2IsMullo(a, b);
    }
    MulloEpi32Lanes(a, b);
  }

  /* ---------------- relu ---------------- */

  /** The SSE2 form of relu: keep the lanes that compare above zero, clear the others. */
  function MaskedReluInt8(isa: Isa, x: Reg): (r: Reg)
    requires |x| == RegBytes(isa)
    ensures |r| == |x|
  {
    AndSi(x, CmpltEpi8(Set1Epi8(isa, 0), x))
  }

  /** relu<int8_t>: the mask form on SSE2 (which has no PMAXSB), max_epi8 with zero on AVX2 and AVX512BW. */
  function ReluInt8(isa: Isa, x: Reg): (r: Reg)
    requires |x| == RegBytes(isa)
    ensures |r| == |x|
  {
    if isa == SSE2 then MaskedReluInt8(isa, x) else MaxEpi8(x, Set1Epi8(isa, 0))
  }

  /** The mask form and the max form of relu<int8_t> agree on registers of every width. */
  lemma {:induction false} MaskedReluInt8IsMax(isa: Isa, x: Reg)
    requires |x| == RegBytes(isa)
    ensures MaskedReluInt8(isa, x) == MaxEpi8(x, Set1Epi8(isa, 0))
  {
    var zero := Set1Epi8(isa, 0);
    var m, r := MaskedReluInt8(isa, x), MaxEpi8(x, zero);
    forall j | 0 <= j < |x|
      ensures m[j] == r[j]
    {
      assert zero[j] == 0;
      AndMask(x[j]);
    }
  }

  /** Every int8_t lane of relu<int8_t> is max(x, 0), on every target. */
  lemma {:induction false} ReluInt8Lanes(isa: Isa, x: Reg)
    requires |x| == RegBytes(isa)
    ensures forall j :: 0 <= j < |x| ==> S8(ReluInt8(isa, x)[j]) == Max(S8(x[j]), 0)
  {
    MaskedReluInt8IsMax(isa, x);
    Set1Epi8Lanes(isa, 0);
    MaxLanes(x, Set1Epi8(isa, 0));
  }

  /** relu<int16_t>: max_epi16 with zero on every target. */
  function ReluInt16(isa: Isa, x: Reg): (r: Reg)
    requires |x| == RegBytes(isa)
    ensures |r| == |x|
  {
    MaxEpi16(x, Set1Epi16(isa, 0))
  }

  lemma {:induction false} ReluInt16Lanes(isa: Isa, x: Reg)
    requires |x| == RegBytes(isa)
    ensures forall i :: 0 <= i < WordCount(|x|) ==> S16(Word(ReluInt16(isa, x), i)) == Max(S16(Word(x, i)), 0)
  {
    Set1Epi16Lanes(isa, 0);
    MaxLanes(x, Set1Epi16(isa, 0));
  }

  /** The SSE2 form of relu<int>: keep the 32-bit lanes that compare above zero, clear the others. */
  function MaskedReluInt32(isa: Isa, x: Reg): (r: Reg)
    requires |x| == RegBytes(isa)
    ensures |r| == |x|
  {
    AndSi(x, CmpltEpi32(Set1Epi32(isa, 0), x))
  }

  /** relu<int>: the mask form on SSE2 (which has no PMAXSD), max_epi32 with zero on AVX2 and AVX512BW. */
  function ReluInt32(isa: Isa, x: Reg): (r: Reg)
    requires |x| == RegBytes(isa)
    ensures |r| == |x|
  {
    if isa == SSE2 then MaskedReluInt32(isa, x) else MaxEpi32(x, Set1Epi32(isa, 0))
  }

  /** Dword i of the mask form is dword i of x when x's lane is above zero, and zero otherwise. */
  lemma MaskedReluInt32At(isa: Isa, x: Reg, i: nat)
    requires |x| == RegBytes(isa) && i < DwordCount(|x|)
    ensures Dword(MaskedReluInt32(isa, x), i) == if S32(Dword(x, i)) > 0 then Dword(x, i) else 0
  {
    var zero := Set1Epi32(isa, 0);
    var mask := CmpltEpi32(zero, x);
    Set1Epi32Lanes(isa, 0);
    assert Dword(mask, i) == LessMask(zero, x, i);
    AndSiDword(x, mask, i);
  }

  /** So is dword i of the max form. */
  lemma MaxReluInt32At(isa: Isa, x: Reg, i: nat)
    requires |x| == RegBytes(isa) && i < DwordCount(|x|)
    ensures Dword(MaxEpi32(x, Set1Epi32(isa, 0)), i) == if S32(Dword(x, i)) > 0 then Dword(x, i) else 0
  {
    var zero := Set1Epi32(isa, 0);
    Set1Epi32Lanes(isa, 0);
    assert Dword(MaxEpi32(x, zero), i) == MaxDword(x, zero, i);
  }

  /** The mask form and the max form of relu<int> agree on registers of every width. */
  lemma {:induction false} MaskedReluInt32IsMax(isa: Isa, x: Reg)
    requires |x| == RegBytes(isa)
    ensures MaskedReluInt32(isa, x) == MaxEpi32(x, Set1Epi32(isa, 0))
  {
    var m, r := MaskedReluInt32(isa, x), MaxEpi32(x, Set1Epi32(isa, 0));
    forall i | 0 <= i < DwordCount(|x|)
      ensures Dword(m, i) == Dword(r, i)
    {
      MaskedReluInt32At(isa, x, i);
      MaxReluInt32At(isa, x, i);
    }
    EqualByDwords(m, r);
  }

  /** Every int32_t lane of relu<int> is max(x, 0), on every target. */
  lemma {:induction false} ReluInt32Lanes(isa: Isa, x: Reg)
    requires |x| == RegBytes(isa)
    ensures forall i :: 0 <= i < DwordCount(|x|) ==> S32(Dword(ReluInt32(isa, x), i)) == Max(S32(Dword(x, i)), 0)
  {
    MaskedReluInt32IsMax(isa, x);
    Set1Epi32Lanes(isa, 0);
    MaxLanes(x, Set1Epi32(isa, 0));
  }
}
