/** A SIMD register as a fixed-width sequence of bytes, with little-endian views of it
  * as 8-, 16-, 32- and 64-bit lanes.
  */
module Lanes {
  import opened Arith

  /** One byte of a register, unsigned. */
  type Byte = x: int | 0 <= x < 0x100
  type U16 = x: int | 0 <= x < 0x1_0000
  type U32 = x: int | 0 <= x < 0x1_0000_0000
  type U64 = x: int | 0 <= x < 0x1_0000_0000_0000_0000

  /** The element types the kernels read and write: int8_t, int16_t and int. */
  type I8 = x: int | -0x80 <= x < 0x80
  type I16 = x: int | -0x8000 <= x < 0x8000
  type I32 = x: int | -0x8000_0000 <= x < 0x8000_0000

  /** A register's bytes in memory order: byte 0 is the least significant. */
  type Reg = seq<Byte>

  /** The instruction-set targets the library is compiled for. */
  datatype Isa = SSE2 | AVX2 | AVX512BW

  /** Width of an integer register (__m128i, __m256i, __m512i) in bytes. */
  function RegBytes(isa: Isa): (n: nat)
    ensures IsWidth(n)
  {
    match isa
    case SSE2 => 16
    case AVX2 => 32
    case AVX512BW => 64
  }

  /** The register widths in bytes: 128, 256 and 512 bits. */
  predicate IsWidth(n: nat) {
    n == 16 || n == 32 || n == 64
  }

  /** A register of one of the supported widths. */
  predicate IsReg(r: Reg) {
    IsWidth(|r|)
  }

  /** The number of 16-, 32- and 64-bit lanes and of 128-bit blocks in a register of n bytes. */
  function WordCount(n: nat): (k: nat)
    requires IsWidth(n)
    ensures 2 * k == n
  {
    if n == 16 then 8 else if n == 32 then 16 else 32
  }

  function DwordCount(n: nat): (k: nat)
    requires IsWidth(n)
    ensures 4 * k == n
  {
    if n == 16 then 4 else if n == 32 then 8 else 16
  }

  function QwordCount(n: nat): (k: nat)
    requires IsWidth(n)
    ensures 8 * k == n
  {
    if n == 16 then 2 else if n == 32 then 4 else 8
  }

  function BlockCount(n: nat): (k: nat)
    requires IsWidth(n)
    ensures 16 * k == n
  {
    if n == 16 then 1 else if n == 32 then 2 else 4
  }

  /** The n bytes of r from lo on, read as a little-endian unsigned integer. */
  function LittleEndian(r: Reg, lo: nat, n: nat): nat
    requires lo + n <= |r|
    decreases n
  {
    if n == 0 then 0 else r[lo] + 0x100 * LittleEndian(r, lo + 1, n - 1)
  }

  /** Two bytes, then the rest: the low two bytes plus 2^16 times the higher m bytes. */
  lemma Split2(r: Reg, lo: nat, m: nat)
    requires lo + 2 + m <= |r|
    ensures LittleEndian(r, lo, 2 + m) == r[lo] as int + 0x100 * (r[lo + 1] as int) + 0x1_0000 * LittleEndian(r, lo + 2, m)
    ensures LittleEndian(r, lo, 2) == r[lo] as int + 0x100 * (r[lo + 1] as int)
  {
    assert LittleEndian(r, lo, 2 + m) == r[lo] + 0x100 * LittleEndian(r, lo + 1, 1 + m);
    assert LittleEndian(r, lo + 1, 1 + m) == r[lo + 1] + 0x100 * LittleEndian(r, lo + 2, m);
    assert LittleEndian(r, lo + 1, 1) == r[lo + 1] + 0x100 * LittleEndian(r, lo + 2, 0);
  }

  /** Four bytes, then the rest: the low four bytes plus 2^32 times the higher m bytes. */
  lemma Split4(r: Reg, lo: nat, m: nat)
    requires lo + 4 + m <= |r|
    ensures LittleEndian(r, lo, 4 + m) == LittleEndian(r, lo, 2) + 0x1_0000 * LittleEndian(r, lo + 2, 2) + 0x1_0000_0000 * LittleEndian(r, lo + 4, m)
    ensures LittleEndian(r, lo, 4) == LittleEndian(r, lo, 2) + 0x1_0000 * LittleEndian(r, lo + 2, 2)
  {
    Split2(r, lo, 2 + m);
    Split2(r, lo, 2);
    Split2(r, lo + 2, m);
    Split2(r, lo + 2, 0);
  }

  /** The i-th 16-bit lane, unsigned. */
  function Word(r: Reg, i: nat): (w: U16)
    requires 2 * i + 1 < |r|
  {
    Split2(r, 2 * i, 0);
    LittleEndian(r, 2 * i, 2)
  }

  /** The i-th 32-bit lane, unsigned. */
  function Dword(r: Reg, i: nat): (d: U32)
    requires 4 * i + 3 < |r|
  {
    Split2(r, 4 * i, 0);
    Split2(r, 4 * i + 2, 0);
    Split4(r, 4 * i, 0);
    LittleEndian(r, 4 * i, 4)
  }

  /** The i-th 64-bit lane, unsigned. */
  function Qword(r: Reg, i: nat): (q: U64)
    requires 8 * i + 7 < |r|
  {
    Dword(r, 2 * i) as int + 0x1_0000_0000 * (Dword(r, 2 * i + 1) as int)
  }

  /** A 16-bit lane is its low byte plus 256 times its high byte. */
  lemma WordDef(r: Reg, i: nat)
    requires 2 * i + 1 < |r|
    ensures Word(r, i) == r[2 * i] as int + 0x100 * (r[2 * i + 1] as int)
  {
    Split2(r, 2 * i, 0);
  }

  /** A 32-bit lane is its low 16-bit lane plus 2^16 times its high one. */
  lemma DwordDef(r: Reg, i: nat)
    requires 4 * i + 3 < |r|
    ensures Dword(r, i) == Word(r, 2 * i) as int + 0x1_0000 * (Word(r, 2 * i + 1) as int)
  {
    Split4(r, 4 * i, 0);
  }

  /** Signed readings of lane values (int8_t, int16_t, int32_t). */
  function S8(u: int): int { Signed(u, 0x100) }
  function S16(u: int): int { Signed(u, 0x1_0000) }
  function S32(u: int): int { Signed(u, 0x1_0000_0000) }

  /** Conversion to int8_t, int16_t and int32_t. */
  function Wrap8(x: int): int { Wrap(x, 0x100) }
  function Wrap16(x: int): int { Wrap(x, 0x1_0000) }
  function Wrap32(x: int): int { Wrap(x, 0x1_0000_0000) }

  /** The register whose 16-bit lanes are w. */
  function FromWords(w: seq<U16>): (r: Reg)
    ensures |r| == 2 * |w|
    ensures forall i :: 0 <= i < |w| ==> Word(r, i) == w[i]
  {
    if w == [] then []
    else
      var rest := FromWords(w[1..]);
      var r := [w[0] % 0x100, w[0] / 0x100] + rest;
      forall i | 0 <= i < |w|
        ensures Word(r, i) == w[i]
      {
        WordDef(r, i);
        if i > 0 {
          WordDef(rest, i - 1);
        }
      }
      r
  }

  /** The 16-bit halves of 32-bit lanes, low half first. */
  function SplitDwords(d: seq<U32>): (w: seq<U16>)
    ensures |w| == 2 * |d|
    ensures forall i :: 0 <= i < |d| ==> w[2 * i] == d[i] % 0x1_0000 && w[2 * i + 1] == d[i] / 0x1_0000
  {
    if d == [] then []
    else
      var rest := SplitDwords(d[1..]);
      var w := [d[0] % 0x1_0000, d[0] / 0x1_0000] + rest;
      forall i | 1 <= i < |d|
        ensures w[2 * i] == rest[2 * i - 2] && w[2 * i + 1] == rest[2 * i - 1]
      {
      }
      w
  }

  /** The register whose 32-bit lanes are d. */
  function FromDwords(d: seq<U32>): (r: Reg)
    ensures |r| == 4 * |d|
    ensures forall i :: 0 <= i < |d| ==> Dword(r, i) == d[i]
  {
    var w := SplitDwords(d);
    var r := FromWords(w);
    forall i | 0 <= i < |d|
      ensures Dword(r, i) == d[i]
    {
      DwordDef(r, i);
    }
    r
  }

  /** The 32-bit halves of 64-bit lanes, low half first. */
  function SplitQwords(q: seq<U64>): (d: seq<U32>)
    ensures |d| == 2 * |q|
    ensures forall i :: 0 <= i < |q| ==> d[2 * i] == q[i] % 0x1_0000_0000 && d[2 * i + 1] == q[i] / 0x1_0000_0000
  {
    if q == [] then []
    else
      var rest := SplitQwords(q[1..]);
      var d := [q[0] % 0x1_0000_0000, q[0] / 0x1_0000_0000] + rest;
      forall i | 1 <= i < |q|
        ensures d[2 * i] == rest[2 * i - 2] && d[2 * i + 1] == rest[2 * i - 1]
      {
      }
      d
  }

  /** The register whose 64-bit lanes are q. */
  function FromQwords(q: seq<U64>): (r: Reg)
    ensures |r| == 8 * |q|
    ensures forall i :: 0 <= i < |q| ==> Qword(r, i) == q[i]
    ensures forall i :: 0 <= i < |q| ==>
      Dword(r, 2 * i) == q[i] % 0x1_0000_0000 && Dword(r, 2 * i + 1) == q[i] / 0x1_0000_0000
  {
    var d := SplitQwords(q);
    var r := FromDwords(d);
    r
  }

  /** Bitwise OR and AND of two bytes. */
  function Or(x: Byte, y: Byte): Byte {
    ((x as bv8) | (y as bv8)) as int
  }

  function And(x: Byte, y: Byte): Byte {
    ((x as bv8) & (y as bv8)) as int
  }

  lemma OrZero(x: Byte)
    ensures Or(x, 0) == x && Or(0, x) == x
  {
  }

  lemma AndMask(x: Byte)
    ensures And(x, 0xFF) == x && And(x, 0) == 0
  {
  }

  /** A 16-bit lane is its low byte plus 256 times its high byte, both determined by the lane. */
  lemma WordBytes(r: Reg, i: nat)
    requires 2 * i + 1 < |r|
    ensures r[2 * i] == Word(r, i) % 0x100 && r[2 * i + 1] == Word(r, i) / 0x100
  {
    WordDef(r, i);
  }

  /** The bytes lo .. hi - 1 of r all equal v. */
  predicate BytesAre(r: Reg, lo: nat, hi: nat, v: Byte)
    requires lo <= hi <= |r|
  {
    forall j :: lo <= j < hi ==> r[j] == v
  }

  /** A 32-bit lane is all ones exactly when its four bytes are, and zero exactly when they are. */
  lemma DwordBytes(r: Reg, i: nat)
    requires 4 * i + 3 < |r|
    ensures Dword(r, i) == 0xFFFF_FFFF <==> BytesAre(r, 4 * i, 4 * i + 4, 0xFF)
    ensures Dword(r, i) == 0 <==> BytesAre(r, 4 * i, 4 * i + 4, 0)
  {
    var b0, b1, b2, b3 := r[4 * i] as int, r[4 * i + 1] as int, r[4 * i + 2] as int, r[4 * i + 3] as int;
    DwordDef(r, i);
    WordDef(r, 2 * i);
    WordDef(r, 2 * i + 1);
    assert Dword(r, i) == b0 + 0x100 * b1 + 0x1_0000 * b2 + 0x100_0000 * b3;
    assert BytesAre(r, 4 * i, 4 * i + 4, 0xFF) <==> b0 == 0xFF && b1 == 0xFF && b2 == 0xFF && b3 == 0xFF by {
      if b0 == 0xFF && b1 == 0xFF && b2 == 0xFF && b3 == 0xFF {
        forall j | 4 * i <= j < 4 * i + 4 ensures r[j] == 0xFF {
          assert j == 4 * i || j == 4 * i + 1 || j == 4 * i + 2 || j == 4 * i + 3;
        }
      }
    }
    assert BytesAre(r, 4 * i, 4 * i + 4, 0) <==> b0 == 0 && b1 == 0 && b2 == 0 && b3 == 0 by {
      if b0 == 0 && b1 == 0 && b2 == 0 && b3 == 0 {
        forall j | 4 * i <= j < 4 * i + 4 ensures r[j] == 0 {
          assert j == 4 * i || j == 4 * i + 1 || j == 4 * i + 2 || j == 4 * i + 3;
        }
      }
    }
  }

  /** The two 16-bit halves of a 32-bit lane are its remainder and quotient by 2^16. */
  lemma DwordWords(r: Reg, i: nat)
    requires 4 * i + 3 < |r|
    ensures Word(r, 2 * i) == Dword(r, i) % 0x1_0000 && Word(r, 2 * i + 1) == Dword(r, i) / 0x1_0000
  {
    DwordDef(r, i);
    ModUnique(Dword(r, i), Word(r, 2 * i + 1), Word(r, 2 * i), 0x1_0000);
  }

  /** Registers with the same four bytes at dword i have the same dword i. */
  lemma SameDword(r: Reg, s: Reg, i: nat)
    requires 4 * i + 3 < |r| && 4 * i + 3 < |s|
    requires r[4 * i] == s[4 * i] && r[4 * i + 1] == s[4 * i + 1]
    requires r[4 * i + 2] == s[4 * i + 2] && r[4 * i + 3] == s[4 * i + 3]
    ensures Dword(r, i) == Dword(s, i)
  {
    DwordDef(r, i);
    DwordDef(s, i);
    WordDef(r, 2 * i);
    WordDef(r, 2 * i + 1);
    WordDef(s, 2 * i);
    WordDef(s, 2 * i + 1);
  }

  /** Two registers of one width that agree on every 32-bit lane are equal. */
  lemma {:induction false} EqualByDwords(r: Reg, s: Reg)
    requires IsReg(r) && |s| == |r|
    requires forall i :: 0 <= i < DwordCount(|r|) ==> Dword(r, i) == Dword(s, i)
    ensures r == s
  {
    forall j | 0 <= j < |r|
      ensures r[j] == s[j]
    {
      var i := j / 4;
      DwordWords(r, i);
      DwordWords(s, i);
      WordBytes(r, 2 * i);
      WordBytes(r, 2 * i + 1);
      WordBytes(s, 2 * i);
      WordBytes(s, 2 * i + 1);
      assert 4 * i <= j < 4 * i + 4;
    }
  }

  /** Two registers of one width that agree on every 16-bit lane are equal. */
  lemma {:induction false} EqualByWords(r: Reg, s: Reg)
    requires IsReg(r) && |s| == |r|
    requires forall i :: 0 <= i < WordCount(|r|) ==> Word(r, i) == Word(s, i)
    ensures r == s
  {
    forall j | 0 <= j < |r|
      ensures r[j] == s[j]
    {
      var i := j / 2;
      WordBytes(r, i);
      WordBytes(s, i);
      assert j == 2 * i || j == 2 * i + 1;
    }
  }
}
