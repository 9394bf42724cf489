/** The integer intrinsic wrappers (and the few intrinsics the kernels call directly) as pure
  * functions on byte registers. One definition serves the three register widths: an SSE2
  * register has 16 bytes, an AVX2 register 32 and an AVX512BW register 64. Each function is
  * defined on the unsigned bit patterns of its lanes, as the instruction is; the lemma beside
  * it states what the result means for the signed lanes a C++ caller sees.
  */
module Intrinsics {
  import opened Arith
  import opened Lanes

  /* ---------------- set1 / setzero ---------------- */

  /** set1_epi8: every byte is the two's-complement pattern of x. */
  function Set1Epi8(isa: Isa, x: I8): (r: Reg)
    ensures |r| == RegBytes(isa)
  {
    seq(RegBytes(isa), _ => x % 0x100)
  }

  /** set1_epi16: every 16-bit lane is the pattern of x. */
  function Set1Epi16(isa: Isa, x: I16): (r: Reg)
    ensures |r| == RegBytes(isa)
  {
    FromWords(seq(WordCount(RegBytes(isa)), _ => x % 0x1_0000))
  }

  /** set1_epi32: every 32-bit lane is the pattern of x. */
  function Set1Epi32(isa: Isa, x: I32): (r: Reg)
    ensures |r| == RegBytes(isa)
  {
    FromDwords(seq(DwordCount(RegBytes(isa)), _ => x % 0x1_0000_0000))
  }

  /** setzero_si: the all-zero register. */
  function SetzeroSi(isa: Isa): (r: Reg)
    ensures |r| == RegBytes(isa)
  {
    seq(RegBytes(isa), _ => 0)
  }

  lemma {:induction false} Set1Epi8Lanes(isa: Isa, x: I8)
    ensures forall i :: 0 <= i < RegBytes(isa) ==> S8(Set1Epi8(isa, x)[i]) == x
  {
    SignedRoundTrip(x, 0x100);
  }

  lemma {:induction false} Set1Epi16Lanes(isa: Isa, x: I16)
    ensures forall i :: 0 <= i < WordCount(RegBytes(isa)) ==> S16(Word(Set1Epi16(isa, x), i)) == x
  {
    SignedRoundTrip(x, 0x1_0000);
  }

  lemma {:induction false} Set1Epi32Lanes(isa: Isa, x: I32)
    ensures forall i :: 0 <= i < DwordCount(RegBytes(isa)) ==> S32(Dword(Set1Epi32(isa, x), i)) == x
  {
    SignedRoundTrip(x, 0x1_0000_0000);
  }

  /** The zero register reads as zero at the 16- and 32-bit lane widths. */
  lemma {:induction false} SetzeroLanes(isa: Isa)
    ensures forall i :: 0 <= i < WordCount(RegBytes(isa)) ==> Word(SetzeroSi(isa), i) == 0
    ensures forall i :: 0 <= i < DwordCount(RegBytes(isa)) ==> Dword(SetzeroSi(isa), i) == 0
  {
    var z := SetzeroSi(isa);
    forall i | 0 <= i < WordCount(RegBytes(isa))
      ensures Word(z, i) == 0
    {
      WordDef(z, i);
    }
    forall i | 0 <= i < DwordCount(RegBytes(isa))
      ensures Dword(z, i) == 0
    {
      DwordDef(z, i);
      WordDef(z, 2 * i);
      WordDef(z, 2 * i + 1);
    }
  }

  /** Broadcasting 0 at any lane width yields the zero register. */
  lemma {:induction false} Set1Zero(isa: Isa)
    ensures Set1Epi8(isa, 0) == SetzeroSi(isa)
    ensures Set1Epi16(isa, 0) == SetzeroSi(isa)
    ensures Set1Epi32(isa, 0) == SetzeroSi(isa)
  {
    var n := RegBytes(isa);
    var z16, z32 := Set1Epi16(isa, 0), Set1Epi32(isa, 0);
    forall j | 0 <= j < n
      ensures z16[j] == 0
    {
      var i := j / 2;
      assert Word(z16, i) == 0;
      WordBytes(z16, i);
      assert j == 2 * i || j == 2 * i + 1;
    }
    forall j | 0 <= j < n
      ensures z32[j] == 0
    {
      var i := j / 4;
      assert Dword(z32, i) == 0;
      DwordBytes(z32, i);
      assert 4 * i <= j < 4 * i + 4;
    }
  }

  /* ---------------- addition ---------------- */

  /** add_epi8 (PADDB). */
  function AddEpi8(a: Reg, b: Reg): (r: Reg)
    requires IsReg(a) && |b| == |a|
    ensures |r| == |a|
  {
    seq(|a|, i requires 0 <= i < |a| => (a[i] as int + b[i] as int) % 0x100)
  }

  /** Lane i of PADDW: the sum of the two 16-bit lanes, modulo 2^16. */
  function WordSum(a: Reg, b: Reg, i: nat): (z: U16)
    requires IsReg(a) && |b| == |a| && i < WordCount(|a|)
    ensures S16(z) == Wrap16(S16(Word(a, i)) + S16(Word(b, i)))
  {
    var z := (Word(a, i) + Word(b, i)) % 0x1_0000;
    SignedSum(Word(a, i), Word(b, i), z, 0x1_0000);
    z
  }

  /** add_epi16 (PADDW). */
  function AddEpi16(a: Reg, b: Reg): (r: Reg)
    requires IsReg(a) && |b| == |a|
    ensures |r| == |a|
  {
    FromWords(seq(WordCount(|a|), i requires 0 <= i < WordCount(|a|) => WordSum(a, b, i)))
  }

  /** Lane i of PADDD: the sum of the two 32-bit lanes, modulo 2^32. */
  function DwordSum(a: Reg, b: Reg, i: nat): (z: U32)
    requires IsReg(a) && |b| == |a| && i < DwordCount(|a|)
    ensures S32(z) == Wrap32(S32(Dword(a, i)) + S32(Dword(b, i)))
  {
    var z := (Dword(a, i) + Dword(b, i)) % 0x1_0000_0000;
    SignedSum(Dword(a, i), Dword(b, i), z, 0x1_0000_0000);
    z
  }

  /** add_epi32 (PADDD). */
  function AddEpi32(a: Reg, b: Reg): (r: Reg)
    requires IsReg(a) && |b| == |a|
    ensures |r| == |a|
  {
    FromDwords(seq(DwordCount(|a|), i requires 0 <= i < DwordCount(|a|) => DwordSum(a, b, i)))
  }

  lemma {:induction false} AddEpi8Lanes(a: Reg, b: Reg)
    requires IsReg(a) && |b| == |a|
    ensures forall i :: 0 <= i < |a| ==> S8(AddEpi8(a, b)[i]) == Wrap8(S8(a[i]) + S8(b[i]))
  {
    forall i | 0 <= i < |a| {
      SignedSum(a[i], b[i], AddEpi8(a, b)[i], 0x100);
    }
  }

  /** Every 16-bit lane of the result is the sum of the input lanes modulo 2^16; read as
    * int16_t, it is the wrapped sum of the int16_t input lanes.
    */
  lemma {:induction false} AddEpi16Lanes(a: Reg, b: Reg)
    requires IsReg(a) && |b| == |a|
    ensures forall i :: 0 <= i < WordCount(|a|) ==> Word(AddEpi16(a, b), i) == (Word(a, i) + Word(b, i)) % 0x1_0000
    ensures forall i :: 0 <= i < WordCount(|a|) ==>
      S16(Word(AddEpi16(a, b), i)) == Wrap16(S16(Word(a, i)) + S16(Word(b, i)))
  {
  }

  /** AddEpi16Lanes at one lane, for callers that need only lane i. */
  lemma AddEpi16At(a: Reg, b: Reg, i: nat)
    requires IsReg(a) && |b| == |a| && i < WordCount(|a|)
    ensures S16(Word(AddEpi16(a, b), i)) == Wrap16(S16(Word(a, i)) + S16(Word(b, i)))
  {
    AddEpi16Lanes(a, b);
  }

  /** Every 32-bit lane of the result is the sum of the input lanes modulo 2^32; read as
    * int32_t, it is the wrapped sum of the int32_t input lanes.
    */
  lemma {:induction false} AddEpi32Lanes(a: Reg, b: Reg)
    requires IsReg(a) && |b| == |a|
    ensures forall i :: 0 <= i < DwordCount(|a|) ==> Dword(AddEpi32(a, b), i) == (Dword(a, i) + Dword(b, i)) % 0x1_0000_0000
    ensures forall i :: 0 <= i < DwordCount(|a|) ==>
      S32(Dword(AddEpi32(a, b), i)) == Wrap32(S32(Dword(a, i)) + S32(Dword(b, i)))
  {
  }

  /** AddEpi32Lanes at one lane, for callers that need only lane i. */
  lemma AddEpi32At(a: Reg, b: Reg, i: nat)
    requires IsReg(a) && |b| == |a| && i < DwordCount(|a|)
    ensures S32(Dword(AddEpi32(a, b), i)) == Wrap32(S32(Dword(a, i)) + S32(Dword(b, i)))
  {
    AddEpi32Lanes(a, b);
  }

  /** Lane i of PADDSW: the signed sum saturated to the int16_t range, as a bit pattern. */
  function SaturatedSum(a: Reg, b: Reg, i: nat): (z: U16)
    requires IsReg(a) && |b| == |a| && i < WordCount(|a|)
    ensures S16(z) == Saturate(S16(Word(a, i)) + S16(Word(b, i)), 0x1_0000)
  {
    var s := Saturate(S16(Word(a, i)) + S16(Word(b, i)), 0x1_0000);
    SignedRoundTrip(s, 0x1_0000);
    s % 0x1_0000
  }

  /** adds_epi16 (PADDSW): the signed sum, saturated to the int16_t range. */
  function AddsEpi16(a: Reg, b: Reg): (r: Reg)
    requires IsReg(a) && |b| == |a|
    ensures |r| == |a|
  {
    FromWords(seq(WordCount(|a|), i requires 0 <= i < WordCount(|a|) => SaturatedSum(a, b, i)))
  }

  /** Read as int16_t, every lane of the result is the exact sum clamped to [-32768, 32767]. */
  lemma {:induction false} AddsEpi16Lanes(a: Reg, b: Reg)
    requires IsReg(a) && |b| == |a|
    ensures forall i :: 0 <= i < WordCount(|a|) ==>
      S16(Word(AddsEpi16(a, b), i)) == Saturate(S16(Word(a, i)) + S16(Word(b, i)), 0x1_0000)
  {
  }

  /* ---------------- multiplication ---------------- */

  /** Lane i of PMULLW: the low 16 bits of the product of the two lanes. */
  function WordProduct(a: Reg, b: Reg, i: nat): (z: U16)
    requires IsReg(a) && |b| == |a| && i < WordCount(|a|)
    ensures S16(z) == Wrap16(S16(Word(a, i)) * S16(Word(b, i)))
  {
    var z := (Word(a, i) * Word(b, i)) % 0x1_0000;
    SignedProduct(Word(a, i), Word(b, i), z, 0x1_0000);
    z
  }

  /** mullo_epi16 (PMULLW): the low 16 bits of each lane product. */
  function MulloEpi16(a: Reg, b: Reg): (r: Reg)
    requires IsReg(a) && |b| == |a|
    ensures |r| == |a|
  {
    FromWords(seq(WordCount(|a|), i requires 0 <= i < WordCount(|a|) => WordProduct(a, b, i)))
  }

  /** Every 16-bit lane of the result is the product of the input lanes modulo 2^16; read as
    * int16_t, it is the wrapped product of the int16_t input lanes.
    */
  lemma {:induction false} MulloEpi16Lanes(a: Reg, b: Reg)
    requires IsReg(a) && |b| == |a|
    ensures forall i :: 0 <= i < WordCount(|a|) ==> Word(MulloEpi16(a, b), i) == (Word(a, i) * Word(b, i)) % 0x1_0000
    ensures forall i :: 0 <= i < WordCount(|a|) ==>
      S16(Word(MulloEpi16(a, b), i)) == Wrap16(S16(Word(a, i)) * S16(Word(b, i)))
  {
  }

  /** Lane i of PMULLD: the low 32 bits of the product of the two lanes. */
  function DwordProduct(a: Reg, b: Reg, i: nat): (z: U32)
    requires IsReg(a) && |b| == |a| && i < DwordCount(|a|)
    ensures S32(z) == Wrap32(S32(Dword(a, i)) * S32(Dword(b, i)))
  {
    var z := (Dword(a, i) * Dword(b, i)) % 0x1_0000_0000;
    SignedProduct(Dword(a, i), Dword(b, i), z, 0x1_0000_0000);
    z
  }

  /** mullo_epi32 (PMULLD, used directly by the AVX2 and AVX512BW kernels). */
  function MulloEpi32(a: Reg, b: Reg): (r: Reg)
    requires IsReg(a) && |b| == |a|
    ensures |r| == |a|
  {
    FromDwords(seq(DwordCount(|a|), i requires 0 <= i < DwordCount(|a|) => DwordProduct(a, b, i)))
  }

  /** Every 32-bit lane of the result is the product of the input lanes modulo 2^32; read as
    * int32_t, it is the wrapped product of the int32_t input lanes.
    */
  lemma {:induction false} MulloEpi32Lanes(a: Reg, b: Reg)
    requires IsReg(a) && |b| == |a|
    ensures forall i :: 0 <= i < DwordCount(|a|) ==> Dword(MulloEpi32(a, b), i) == (Dword(a, i) * Dword(b, i)) % 0x1_0000_0000
    ensures forall i :: 0 <= i < DwordCount(|a|) ==>
      S32(Dword(MulloEpi32(a, b), i)) == Wrap32(S32(Dword(a, i)) * S32(Dword(b, i)))
  {
  }

  /** The full 64-bit product of two unsigned 32-bit values. */
  function WideMul(x: U32, y: U32): (p: U64)
  {
    MulBelow(x, y, 0x1_0000_0000);
    x * y
  }

  /** Lane k of PMULUDQ: the full product of the low dwords of 64-bit lane k. */
  function LowDwordProduct(a: Reg, b: Reg, k: nat): U64
    requires IsReg(a) && |b| == |a| && k < QwordCount(|a|)
  {
    WideMul(Dword(a, 2 * k), Dword(b, 2 * k))
  }

  /** mul_epu32 (PMULUDQ): each 64-bit lane gets the product of the low dwords of that lane. */
  function MulEpu32(a: Reg, b: Reg): (r: Reg)
    requires IsReg(a) && |b| == |a|
    ensures |r| == |a|
  {
    FromQwords(seq(QwordCount(|a|), k requires 0 <= k < QwordCount(|a|) => LowDwordProduct(a, b, k)))
  }

  /** The product is exact (no bits dropped), and its low dword is the product modulo 2^32. */
  lemma {:induction false} MulEpu32Lanes(a: Reg, b: Reg)
    requires IsReg(a) && |b| == |a|
    ensures forall k :: 0 <= k < QwordCount(|a|) ==> Qword(MulEpu32(a, b), k) == Dword(a, 2 * k) * Dword(b, 2 * k)
    ensures forall k :: 0 <= k < QwordCount(|a|) ==>
      Dword(MulEpu32(a, b), 2 * k) == (Dword(a, 2 * k) * Dword(b, 2 * k)) % 0x1_0000_0000
  {
  }

  /** MulEpu32Lanes at 64-bit lane k, whose low dword is dword j = 2k. */
  lemma MulEpu32At(a: Reg, b: Reg, k: nat, j: nat)
    requires IsReg(a) && |b| == |a| && k < QwordCount(|a|) && j == 2 * k
    ensures Dword(MulEpu32(a, b), j) == (Dword(a, j) * Dword(b, j)) % 0x1_0000_0000
  {
    MulEpu32Lanes(a, b);
  }

  /** The high dwords of both inputs play no part in the result. */
  lemma {:induction false} MulEpu32IgnoresHigh(a: Reg, b: Reg, a': Reg, b': Reg)
    requires IsReg(a) && |b| == |a| && |a'| == |a| && |b'| == |a|
    requires forall k :: 0 <= k < QwordCount(|a|) ==> Dword(a, 2 * k) == Dword(a', 2 * k) && Dword(b, 2 * k) == Dword(b', 2 * k)
    ensures MulEpu32(a, b) == MulEpu32(a', b')
  {
    var p := seq(QwordCount(|a|), k requires 0 <= k < QwordCount(|a|) => LowDwordProduct(a, b, k));
    var p' := seq(QwordCount(|a|), k requires 0 <= k < QwordCount(|a|) => LowDwordProduct(a', b', k));
    assert p == p';
  }

  /* ---------------- shuffles ---------------- */

  /** The source dword that imm8 selects for position p (0..3) of a 128-bit block. */
  function DwordSelector(imm: int, p: int): (s: int)
    requires 0 <= imm < 0x100 && 0 <= p < 4
    ensures 0 <= s < 4
  {
    (imm / (if p == 0 then 1 else if p == 1 then 4 else if p == 2 then 16 else 64)) % 4
  }

  /** Position 4 * blk + p of a register's dwords is position p of its 128-bit block blk. */
  lemma BlockIndex(blk: nat, p: nat)
    requires p < 4
    ensures (4 * blk + p) / 4 == blk && (4 * blk + p) % 4 == p
  {
    ModUnique(4 * blk + p, blk, p, 4);
  }

  /** The dword PSHUFD puts at position i: the dword of i's block that imm selects for i's position. */
  function ShuffledDword(a: Reg, imm: int, i: nat): U32
    requires IsReg(a) && 0 <= imm < 0x100 && i < DwordCount(|a|)
  {
    Dword(a, 4 * (i / 4) + DwordSelector(imm, i % 4))
  }

  /** shuffle_epi32 (PSHUFD): within each 128-bit block, dword p is the block's dword DwordSelector(imm, p). */
  function ShuffleEpi32(a: Reg, imm: int): (r: Reg)
    requires IsReg(a) && 0 <= imm < 0x100
    ensures |r| == |a|
  {
    FromDwords(seq(DwordCount(|a|), i requires 0 <= i < DwordCount(|a|) => ShuffledDword(a, imm, i)))
  }

  /** Dword i = 4 * blk + p of the shuffled register is dword j = 4 * blk + DwordSelector(imm, p) of a. */
  lemma ShuffleEpi32At(a: Reg, imm: int, blk: nat, p: nat, i: nat, j: nat)
    requires IsReg(a) && 0 <= imm < 0x100 && blk < BlockCount(|a|) && p < 4
    requires i == 4 * blk + p && j == 4 * blk + DwordSelector(imm, p)
    ensures Dword(ShuffleEpi32(a, imm), i) == Dword(a, j)
  {
    BlockIndex(blk, p);
    assert Dword(ShuffleEpi32(a, imm), i) == ShuffledDword(a, imm, i);
  }

  /** The dword PUNPCKLDQ puts at position i: even positions of a block take the block's low dwords of a,
    * odd positions those of b.
    */
  function InterleavedDword(a: Reg, b: Reg, i: nat): U32
    requires IsReg(a) && |b| == |a| && i < DwordCount(|a|)
  {
    if i % 2 == 0 then Dword(a, 4 * (i / 4) + (i % 4) / 2) else Dword(b, 4 * (i / 4) + (i % 4) / 2)
  }

  /** unpacklo_epi32 (PUNPCKLDQ): each 128-bit block becomes [a0, b0, a1, b1] of that block. */
  function UnpackloEpi32(a: Reg, b: Reg): (r: Reg)
    requires IsReg(a) && |b| == |a|
    ensures |r| == |a|
  {
    FromDwords(seq(DwordCount(|a|), i requires 0 <= i < DwordCount(|a|) => InterleavedDword(a, b, i)))
  }

  /** Dword i = 4 * blk + p of the interleaved register is dword j = 4 * blk + p / 2 of a (p even) or of b (p odd). */
  lemma UnpackloEpi32At(a: Reg, b: Reg, blk: nat, p: nat, i: nat, j: nat)
    requires IsReg(a) && |b| == |a| && blk < BlockCount(|a|) && p < 4
    requires i == 4 * blk + p && j == 4 * blk + p / 2
    ensures Dword(UnpackloEpi32(a, b), i) == if p % 2 == 0 then Dword(a, j) else Dword(b, j)
  {
    BlockIndex(blk, p);
    assert i % 2 == p % 2 by {
      ModUnique(i, 2 * blk + p / 2, p % 2, 2);
    }
    assert Dword(UnpackloEpi32(a, b), i) == InterleavedDword(a, b, i);
  }

  /** imm8 0x8 (fields 0, 2, 0, 0) puts dwords 0 and 2 of each block in positions 0 and 1. */
  lemma {:induction false} ShuffleEpi32Imm8(a: Reg)
    requires IsReg(a)
    ensures forall blk :: 0 <= blk < BlockCount(|a|) ==>
      Dword(ShuffleEpi32(a, 0x8), 4 * blk) == Dword(a, 4 * blk) &&
      Dword(ShuffleEpi32(a, 0x8), 4 * blk + 1) == Dword(a, 4 * blk + 2) &&
      Dword(ShuffleEpi32(a, 0x8), 4 * blk + 2) == Dword(a, 4 * blk) &&
      Dword(ShuffleEpi32(a, 0x8), 4 * blk + 3) == Dword(a, 4 * blk)
  {
    forall blk | 0 <= blk < BlockCount(|a|)
      ensures Dword(ShuffleEpi32(a, 0x8), 4 * blk) == Dword(a, 4 * blk)
      ensures Dword(ShuffleEpi32(a, 0x8), 4 * blk + 1) == Dword(a, 4 * blk + 2)
      ensures Dword(ShuffleEpi32(a, 0x8), 4 * blk + 2) == Dword(a, 4 * blk)
      ensures Dword(ShuffleEpi32(a, 0x8), 4 * blk + 3) == Dword(a, 4 * blk)
    {
      ShuffleEpi32At(a, 0x8, blk, 0, 4 * blk, 4 * blk);
      ShuffleEpi32At(a, 0x8, blk, 1, 4 * blk + 1, 4 * blk + 2);
      ShuffleEpi32At(a, 0x8, blk, 2, 4 * blk + 2, 4 * blk);
      ShuffleEpi32At(a, 0x8, blk, 3, 4 * blk + 3, 4 * blk);
    }
  }

  lemma {:induction false} UnpackloEpi32Lanes(a: Reg, b: Reg)
    requires IsReg(a) && |b| == |a|
    ensures forall blk :: 0 <= blk < BlockCount(|a|) ==>
      Dword(UnpackloEpi32(a, b), 4 * blk) == Dword(a, 4 * blk) &&
      Dword(UnpackloEpi32(a, b), 4 * blk + 1) == Dword(b, 4 * blk) &&
      Dword(UnpackloEpi32(a, b), 4 * blk + 2) == Dword(a, 4 * blk + 1) &&
      Dword(UnpackloEpi32(a, b), 4 * blk + 3) == Dword(b, 4 * blk + 1)
  {
    forall blk | 0 <= blk < BlockCount(|a|)
      ensures Dword(UnpackloEpi32(a, b), 4 * blk) == Dword(a, 4 * blk)
      ensures Dword(UnpackloEpi32(a, b), 4 * blk + 1) == Dword(b, 4 * blk)
      ensures Dword(UnpackloEpi32(a, b), 4 * blk + 2) == Dword(a, 4 * blk + 1)
      ensures Dword(UnpackloEpi32(a, b), 4 * blk + 3) == Dword(b, 4 * blk + 1)
    {
      UnpackloEpi32At(a, b, blk, 0, 4 * blk, 4 * blk);
      UnpackloEpi32At(a, b, blk, 1, 4 * blk + 1, 4 * blk);
      UnpackloEpi32At(a, b, blk, 2, 4 * blk + 2, 4 * blk + 1);
      UnpackloEpi32At(a, b, blk, 3, 4 * blk + 3, 4 * blk + 1);
    }
  }

  /** _mm_srli_si128 (PSRLDQ, SSE2 only): the 16 bytes shifted down by imm bytes, zero filled. */
  function SrliSi128(a: Reg, imm: int): (r: Reg)
    requires |a| == 16 && 0 <= imm < 0x100
    ensures |r| == 16
  {
    seq(16, j requires 0 <= j < 16 => if j + imm < 16 then a[j + imm] else 0)
  }

  /** A byte shift by 4 moves every dword one position down and clears the top one. */
  lemma {:induction false} SrliSi128By4(a: Reg)
    requires |a| == 16
    ensures Dword(SrliSi128(a, 4), 0) == Dword(a, 1)
    ensures Dword(SrliSi128(a, 4), 1) == Dword(a, 2)
    ensures Dword(SrliSi128(a, 4), 2) == Dword(a, 3)
    ensures Dword(SrliSi128(a, 4), 3) == 0
  {
  }

  /* ---------------- shifts of 16-bit lanes ---------------- */

  /** A logical shift of one 16-bit value: the bits shifted out are lost, the bits shifted in are zero. */
  function ShiftLeft(w: U16, n: nat): U16 {
    (w * Pow2(n)) % 0x1_0000
  }

  function ShiftRight(w: U16, n: nat): U16 {
    var d := Pow2(n);
    DivAtMost(w, d);
    w / d
  }

  /** slli_epi16 (PSLLW): shift each 16-bit lane left, zero fill; counts outside 0..15 clear the lane. */
  function SlliEpi16(a: Reg, n: I8): (r: Reg)
    requires IsReg(a)
    ensures |r| == |a|
  {
    FromWords(seq(WordCount(|a|), i requires 0 <= i < WordCount(|a|) =>
      if n < 0 || n > 15 then 0 else ShiftLeft(Word(a, i), n)))
  }

  /** srli_epi16 (PSRLW): shift each 16-bit lane right, zero fill; counts outside 0..15 clear the lane. */
  function SrliEpi16(a: Reg, n: I8): (r: Reg)
    requires IsReg(a)
    ensures |r| == |a|
  {
    FromWords(seq(WordCount(|a|), i requires 0 <= i < WordCount(|a|) =>
      if n < 0 || n > 15 then 0 else ShiftRight(Word(a, i), n)))
  }

  /** A 16-bit value shifted by 8 either way: its low byte moves up, or its high byte moves down. */
  lemma ShiftWordBy8(w: U16, lo: Byte, hi: Byte)
    requires w == lo + 0x100 * hi
    ensures ShiftLeft(w, 8) == 0x100 * lo && (0x100 * lo) % 0x100 == 0 && (0x100 * lo) / 0x100 == lo
    ensures ShiftRight(w, 8) == hi && hi % 0x100 == hi && hi / 0x100 == 0
  {
    assert Pow2(8) == 0x100;
    ModUnique(w as int * 0x100, hi as int, 0x100 * (lo as int), 0x1_0000);
    ModUnique(0x100 * (lo as int), lo as int, 0, 0x100);
    ModUnique(w as int, hi as int, lo as int, 0x100);
    ModUnique(hi as int, 0, hi as int, 0x100);
  }

  /** Shifting 16-bit lanes left by 8 moves the low byte of every lane to the high byte and clears the low byte. */
  lemma {:induction false} SlliBy8(a: Reg)
    requires IsReg(a)
    ensures forall i :: 0 <= i < WordCount(|a|) ==> SlliEpi16(a, 8)[2 * i] == 0 && SlliEpi16(a, 8)[2 * i + 1] == a[2 * i]
  {
    var l := SlliEpi16(a, 8);
    forall i | 0 <= i < WordCount(|a|)
      ensures l[2 * i] == 0 && l[2 * i + 1] == a[2 * i]
    {
      WordDef(a, i);
      ShiftWordBy8(Word(a, i), a[2 * i], a[2 * i + 1]);
      WordBytes(l, i);
    }
  }

  /** Shifting 16-bit lanes right by 8 moves the high byte of every lane to the low byte and clears the high byte. */
  lemma {:induction false} SrliBy8(a: Reg)
    requires IsReg(a)
    ensures forall i :: 0 <= i < WordCount(|a|) ==> SrliEpi16(a, 8)[2 * i] == a[2 * i + 1] && SrliEpi16(a, 8)[2 * i + 1] == 0
  {
    var r := SrliEpi16(a, 8);
    forall i | 0 <= i < WordCount(|a|)
      ensures r[2 * i] == a[2 * i + 1] && r[2 * i + 1] == 0
    {
      WordDef(a, i);
      ShiftWordBy8(Word(a, i), a[2 * i], a[2 * i + 1]);
      WordBytes(r, i);
    }
  }

  /* ---------------- bitwise ---------------- */

  /** and_si (PAND). */
  function AndSi(a: Reg, b: Reg): (r: Reg)
    requires IsReg(a) && |b| == |a|
    ensures |r| == |a|
  {
    seq(|a|, j requires 0 <= j < |a| => And(a[j], b[j]))
  }

  /** or_si (POR). */
  function OrSi(a: Reg, b: Reg): (r: Reg)
    requires IsReg(a) && |b| == |a|
    ensures |r| == |a|
  {
    seq(|a|, j requires 0 <= j < |a| => Or(a[j], b[j]))
  }

  /** AND with a byte mask of all-ones and all-zero bytes keeps exactly the bytes the mask selects. */
  lemma {:induction false} AndSiMask(a: Reg, m: Reg)
    requires IsReg(a) && |m| == |a|
    requires forall j :: 0 <= j < |m| ==> m[j] == 0 || m[j] == 0xFF
    ensures forall j :: 0 <= j < |a| ==> AndSi(a, m)[j] == if m[j] == 0xFF then a[j] else 0
  {
    forall j | 0 <= j < |a|
      ensures AndSi(a, m)[j] == if m[j] == 0xFF then a[j] else 0
    {
      AndMask(a[j]);
    }
  }

  /** AND with a 32-bit lane that is all ones keeps a's lane; with one that is zero it clears it. */
  lemma AndSiDword(a: Reg, m: Reg, i: nat)
    requires IsReg(a) && |m| == |a| && i < DwordCount(|a|)
    requires Dword(m, i) == 0xFFFF_FFFF || Dword(m, i) == 0
    ensures Dword(AndSi(a, m), i) == if Dword(m, i) == 0 then 0 else Dword(a, i)
  {
    var r := AndSi(a, m);
    var v: Byte := if Dword(m, i) == 0 then 0 else 0xFF;
    DwordBytes(m, i);
    assert m[4 * i] == v && m[4 * i + 1] == v && m[4 * i + 2] == v && m[4 * i + 3] == v;
    AndMask(a[4 * i]);
    AndMask(a[4 * i + 1]);
    AndMask(a[4 * i + 2]);
    AndMask(a[4 * i + 3]);
    if v == 0 {
      DwordBytes(r, i);
      forall j | 4 * i <= j < 4 * i + 4
        ensures r[j] == 0
      {
        assert j == 4 * i || j == 4 * i + 1 || j == 4 * i + 2 || j == 4 * i + 3;
      }
    } else {
      SameDword(r, a, i);
    }
  }

  /** OR of two registers that never both have a nonzero byte in the same place is their byte-wise sum. */
  lemma {:induction false} OrSiDisjoint(a: Reg, b: Reg)
    requires IsReg(a) && |b| == |a|
    requires forall j :: 0 <= j < |a| ==> a[j] == 0 || b[j] == 0
    ensures forall j :: 0 <= j < |a| ==> OrSi(a, b)[j] == a[j] + b[j]
  {
    forall j | 0 <= j < |a|
      ensures OrSi(a, b)[j] == a[j] + b[j]
    {
      OrZero(a[j]);
      OrZero(b[j]);
    }
  }

  /* ---------------- max and compare ---------------- */

  /** max_epi8 (PMAXSB; AVX2 and AVX512BW only, SSE2 lacks it). */
  function MaxEpi8(a: Reg, b: Reg): (r: Reg)
    requires IsReg(a) && |b| == |a|
    ensures |r| == |a|
  {
    seq(|a|, j requires 0 <= j < |a| => if S8(a[j]) >= S8(b[j]) then a[j] else b[j])
  }

  /** Lane i of PMAXSW: the input lane that is larger as int16_t. */
  function MaxWord(a: Reg, b: Reg, i: nat): U16
    requires IsReg(a) && |b| == |a| && i < WordCount(|a|)
  {
    if S16(Word(a, i)) >= S16(Word(b, i)) then Word(a, i) else Word(b, i)
  }

  /** max_epi16 (PMAXSW). */
  function MaxEpi16(a: Reg, b: Reg): (r: Reg)
    requires IsReg(a) && |b| == |a|
    ensures |r| == |a|
  {
    FromWords(seq(WordCount(|a|), i requires 0 <= i < WordCount(|a|) => MaxWord(a, b, i)))
  }

  /** Lane i of PMAXSD: the input lane that is larger as int32_t. */
  function MaxDword(a: Reg, b: Reg, i: nat): U32
    requires IsReg(a) && |b| == |a| && i < DwordCount(|a|)
  {
    if S32(Dword(a, i)) >= S32(Dword(b, i)) then Dword(a, i) else Dword(b, i)
  }

  /** max_epi32 (PMAXSD, used directly by the AVX2 and AVX512BW kernels). */
  function MaxEpi32(a: Reg, b: Reg): (r: Reg)
    requires IsReg(a) && |b| == |a|
    ensures |r| == |a|
  {
    FromDwords(seq(DwordCount(|a|), i requires 0 <= i < DwordCount(|a|) => MaxDword(a, b, i)))
  }

  function Max(x: int, y: int): int {
    if x >= y then x else y
  }

  lemma {:induction false} MaxLanes(a: Reg, b: Reg)
    requires IsReg(a) && |b| == |a|
    ensures forall j :: 0 <= j < |a| ==> S8(MaxEpi8(a, b)[j]) == Max(S8(a[j]), S8(b[j]))
    ensures forall i :: 0 <= i < WordCount(|a|) ==> S16(Word(MaxEpi16(a, b), i)) == Max(S16(Word(a, i)), S16(Word(b, i)))
    ensures forall i :: 0 <= i < DwordCount(|a|) ==> S32(Dword(MaxEpi32(a, b), i)) == Max(S32(Dword(a, i)), S32(Dword(b, i)))
  {
  }

  /** _mm_cmplt_epi8 (PCMPGTB with swapped operands): 0xFF where a < b as int8_t, else 0. */
  function CmpltEpi8(a: Reg, b: Reg): (r: Reg)
    requires IsReg(a) && |b| == |a|
    ensures |r| == |a|
  {
    seq(|a|, j requires 0 <= j < |a| => if S8(a[j]) < S8(b[j]) then 0xFF else 0)
  }

  /** Lane i of PCMPGTD with swapped operands: all ones where a's lane is below b's as int32_t. */
  function LessMask(a: Reg, b: Reg, i: nat): U32
    requires IsReg(a) && |b| == |a| && i < DwordCount(|a|)
  {
    if S32(Dword(a, i)) < S32(Dword(b, i)) then 0xFFFF_FFFF else 0
  }

  /** _mm_cmplt_epi32 (PCMPGTD with swapped operands): all-ones where a < b as int32_t, else zero. */
  function CmpltEpi32(a: Reg, b: Reg): (r: Reg)
    requires IsReg(a) && |b| == |a|
    ensures |r| == |a|
  {
    FromDwords(seq(DwordCount(|a|), i requires 0 <= i < DwordCount(|a|) => LessMask(a, b, i)))
  }

  /** Every byte of a 32-bit compare mask is 0xFF when the lanes compare less, and 0 when they do not. */
  lemma {:induction false} CmpltEpi32Bytes(a: Reg, b: Reg)
    requires IsReg(a) && |b| == |a|
    ensures forall j :: 0 <= j < |a| ==>
      CmpltEpi32(a, b)[j] == if S32(Dword(a, j / 4)) < S32(Dword(b, j / 4)) then 0xFF else 0
  {
    var m := CmpltEpi32(a, b);
    forall j | 0 <= j < |a|
      ensures m[j] == if S32(Dword(a, j / 4)) < S32(Dword(b, j / 4)) then 0xFF else 0
    {
      var i := j / 4;
      DwordBytes(m, i);
      assert 4 * i <= j < 4 * i + 4;
    }
  }

  /* ---------------- the GEMM helpers ---------------- */

  /** abs_epi8 (PABSB): the magnitude of each int8_t lane, as an unsigned byte (so |-128| is 128). */
  function AbsEpi8(a: Reg): (r: Reg)
    requires IsReg(a)
    ensures |r| == |a|
    ensures forall j :: 0 <= j < |a| ==> r[j] == S8(a[j]) || r[j] == -S8(a[j])
    ensures forall j :: 0 <= j < |a| ==> r[j] <= 0x80
  {
    seq(|a|, j requires 0 <= j < |a| => if S8(a[j]) < 0 then -S8(a[j]) else S8(a[j]))
  }

  /** sign_epi8 (PSIGNB): a negated where b is negative, zeroed where b is zero, kept where b is positive. */
  function SignEpi8(a: Reg, b: Reg): (r: Reg)
    requires IsReg(a) && |b| == |a|
    ensures |r| == |a|
  {
    seq(|a|, j requires 0 <= j < |a| =>
      (if S8(b[j]) < 0 then -S8(a[j]) else if S8(b[j]) == 0 then 0 else S8(a[j])) % 0x100)
  }

  /** |a| times sign(b, a) is a * b, lane by lane, except where a is negative and b is -128 (whose negation wraps). */
  lemma {:induction false} AbsSignProduct(a: Reg, b: Reg)
    requires IsReg(a) && |b| == |a|
    ensures forall j :: 0 <= j < |a| && !(S8(a[j]) < 0 && S8(b[j]) == -0x80) ==>
      AbsEpi8(a)[j] * S8(SignEpi8(b, a)[j]) == S8(a[j]) * S8(b[j])
  {
    var s := SignEpi8(b, a);
    forall j | 0 <= j < |a| && !(S8(a[j]) < 0 && S8(b[j]) == -0x80)
      ensures AbsEpi8(a)[j] * S8(s[j]) == S8(a[j]) * S8(b[j])
    {
      var x, y := S8(a[j]), S8(b[j]);
      var v := if x < 0 then -y else if x == 0 then 0 else y;
      SignedRoundTrip(v, 0x100);
      assert S8(s[j]) == v;
    }
  }

  /** x0 * y0 + x1 * y1, the pairwise multiply-add PMADDWD and PMADDUBSW perform. */
  function PairProducts(x0: int, y0: int, x1: int, y1: int): int {
    x0 * y0 + x1 * y1
  }

  /** Dword i of PMADDWD's result: the two products of the 16-bit halves, summed modulo 2^32. */
  function MaddLane(a: Reg, b: Reg, i: nat): U32
    requires IsReg(a) && |b| == |a| && i < DwordCount(|a|)
  {
    PairProducts(S16(Word(a, 2 * i)), S16(Word(b, 2 * i)), S16(Word(a, 2 * i + 1)), S16(Word(b, 2 * i + 1))) % 0x1_0000_0000
  }

  /** madd_epi16 (PMADDWD): each 32-bit lane is the sum of the two signed products of its 16-bit halves,
    * kept modulo 2^32.
    */
  function MaddEpi16(a: Reg, b: Reg): (r: Reg)
    requires IsReg(a) && |b| == |a|
    ensures |r| == |a|
  {
    FromDwords(seq(DwordCount(|a|), i requires 0 <= i < DwordCount(|a|) => MaddLane(a, b, i)))
  }

  /** 0 <= x <= c and y >= 0 give x * y <= c * y. */
  lemma MulMono(x: int, c: int, y: int)
    requires 0 <= x <= c && 0 <= y
    ensures x * y <= c * y
  {
    assert c * y == x * y + (c - x) * y;
  }

  /** A product of two int16_t values never exceeds 2^30, and reaches it only for -32768 * -32768. */
  lemma ProductOf16(x: int, y: int)
    requires -0x8000 <= x < 0x8000 && -0x8000 <= y < 0x8000
    ensures -0x4000_0000 < x * y <= 0x4000_0000
    ensures x * y == 0x4000_0000 ==> x == -0x8000 && y == -0x8000
  {
    if x >= 0 && y >= 0 {
      MulMono(x, 0x7FFF, y);
      MulMono(y, 0x7FFF, 0x7FFF);
    } else if x < 0 && y < 0 {
      var xm, ym := -x, -y;
      assert x * y == xm * ym;
      if xm < 0x8000 {
        MulMono(xm, 0x7FFF, ym);
        MulMono(ym, 0x8000, 0x7FFF);
      } else if ym < 0x8000 {
        assert xm * ym == 0x8000 * ym;
      } else {
        assert xm * ym == 0x4000_0000;
      }
    } else if x < 0 {
      var xm := -x;
      assert x * y == -(xm * y);
      MulMono(xm, 0x8000, y);
    } else {
      var ym := -y;
      assert x * y == -(x * ym);
      MulMono(ym, 0x8000, x);
      assert ym * x == x * ym;
    }
  }

  /** One lane of PMADDWD: the sum of the two products is exact unless all four factors are -32768. */
  lemma PairProductsLane(a0: int, b0: int, a1: int, b1: int)
    requires -0x8000 <= a0 < 0x8000 && -0x8000 <= b0 < 0x8000
    requires -0x8000 <= a1 < 0x8000 && -0x8000 <= b1 < 0x8000
    ensures S32(PairProducts(a0, b0, a1, b1) % 0x1_0000_0000) ==
      if a0 == a1 == b0 == b1 == -0x8000 then -0x8000_0000 else PairProducts(a0, b0, a1, b1)
  {
    var sum := PairProducts(a0, b0, a1, b1);
    ProductOf16(a0, b0);
    ProductOf16(a1, b1);
    if a0 == a1 == b0 == b1 == -0x8000 {
      assert sum == 0x8000_0000;
      WrapShift(-0x8000_0000, 1, 0x1_0000_0000);
      SignedRoundTrip(-0x8000_0000, 0x1_0000_0000);
    } else {
      assert -0x8000_0000 <= sum < 0x8000_0000;
      SignedRoundTrip(sum, 0x1_0000_0000);
    }
  }

  /** The 32-bit sum is exact, except in the one case where all four words are -32768 and it wraps to -2^31. */
  lemma {:induction false} MaddEpi16Lanes(a: Reg, b: Reg)
    requires IsReg(a) && |b| == |a|
    ensures forall i :: 0 <= i < DwordCount(|a|) ==>
      var a0, a1, b0, b1 := S16(Word(a, 2 * i)), S16(Word(a, 2 * i + 1)), S16(Word(b, 2 * i)), S16(Word(b, 2 * i + 1));
      S32(Dword(MaddEpi16(a, b), i)) ==
        if a0 == a1 == b0 == b1 == -0x8000 then -0x8000_0000 else a0 * b0 + a1 * b1
  {
    forall i | 0 <= i < DwordCount(|a|)
      ensures var a0, a1, b0, b1 := S16(Word(a, 2 * i)), S16(Word(a, 2 * i + 1)), S16(Word(b, 2 * i)), S16(Word(b, 2 * i + 1));
        S32(Dword(MaddEpi16(a, b), i)) ==
          if a0 == a1 == b0 == b1 == -0x8000 then -0x8000_0000 else a0 * b0 + a1 * b1
    {
      assert Dword(MaddEpi16(a, b), i) == MaddLane(a, b, i);
      PairProductsLane(S16(Word(a, 2 * i)), S16(Word(b, 2 * i)), S16(Word(a, 2 * i + 1)), S16(Word(b, 2 * i + 1)));
    }
  }

  /** Word i of PMADDUBSW's result, before saturation: unsigned bytes of a times signed bytes of b, pairs summed. */
  function MaddubsSum(a: Reg, b: Reg, i: nat): int
    requires IsReg(a) && |b| == |a| && i < WordCount(|a|)
  {
    PairProducts(a[2 * i], S8(b[2 * i]), a[2 * i + 1], S8(b[2 * i + 1]))
  }

  /** maddubs_epi16 (PMADDUBSW): unsigned bytes of a times signed bytes of b, adjacent pairs summed
    * and saturated to int16_t.
    */
  function MaddubsEpi16(a: Reg, b: Reg): (r: Reg)
    requires IsReg(a) && |b| == |a|
    ensures |r| == |a|
  {
    FromWords(seq(WordCount(|a|), i requires 0 <= i < WordCount(|a|) => Saturate(MaddubsSum(a, b, i), 0x1_0000) % 0x1_0000))
  }

  lemma {:induction false} MaddubsEpi16Lanes(a: Reg, b: Reg)
    requires IsReg(a) && |b| == |a|
    ensures forall i :: 0 <= i < WordCount(|a|) ==>
      S16(Word(MaddubsEpi16(a, b), i)) == Saturate(a[2 * i] * S8(b[2 * i]) + a[2 * i + 1] * S8(b[2 * i + 1]), 0x1_0000)
  {
    forall i | 0 <= i < WordCount(|a|)
      ensures S16(Word(MaddubsEpi16(a, b), i)) == Saturate(a[2 * i] * S8(b[2 * i]) + a[2 * i + 1] * S8(b[2 * i + 1]), 0x1_0000)
    {
      var x := MaddubsSum(a, b, i);
      assert Word(MaddubsEpi16(a, b), i) == Saturate(x, 0x1_0000) % 0x1_0000;
      SignedRoundTrip(Saturate(x, 0x1_0000), 0x1_0000);
    }
  }

  /* ---------------- float registers ---------------- */

  /** set1_ps: a float register (RegBytes / 4 lanes) with every lane x; lanes are of an abstract type F. */
  function Set1Ps<F>(isa: Isa, x: F): (r: seq<F>)
    ensures |r| == DwordCount(RegBytes(isa))
    ensures forall i :: 0 <= i < |r| ==> r[i] == x
  {
    seq(DwordCount(RegBytes(isa)), _ => x)
  }
}
