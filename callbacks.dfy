/** The callbacks a multiply calls on each finished tile of 32-bit results: Dummy, UnquantizeAndWrite
  * and UnquantizeAndAddBiasAndWrite, built from the kernels.
  */
module Callbacks {
  import opened Lanes
  import opened Intrinsics
  import opened Kernels
  import opened FloatKernels

  /** Where the tile lies in the output matrix (an Index is an unsigned 32-bit integer). */
  datatype OutputBufferInfo = OutputBufferInfo(rowIdx: U32, colIdx: U32, rows: U32, cols: U32)

  /** Configurations: the scalar multiplier and the float arrays of the output and of the bias. */
  datatype UnquantizeAndWrite = UnquantizeAndWrite(unquantMult: real, addr: array<real>)
  datatype UnquantizeAndAddBiasAndWrite =
    UnquantizeAndAddBiasAndWrite(unquantMult: real, biasAddr: array<real>, outputAddr: array<real>)

  /** The callbacks use SSE2 registers on SSE2 and AVX2 registers on AVX2 and AVX512BW. */
  function CallbackIsa(isa: Isa): (c: Isa)
    ensures c != AVX512BW
    ensures isa == SSE2 <==> c == SSE2
    ensures FloatCount(c) == if isa == SSE2 then 4 else 8
  {
    if isa == SSE2 then SSE2 else AVX2
  }

  /** The element the tile starts at, row_idx * cols + col_idx, computed in unsigned 32-bit arithmetic. */
  function OutputOffset(info: OutputBufferInfo): U32 {
    WrapIndex(info.rowIdx * info.cols + info.colIdx)
  }

  /** Unsigned 32-bit wrap-around of a non-negative result: below 2^32 it is kept, above it is reduced. */
  function WrapIndex(x: nat): (r: U32)
    ensures x < 0x1_0000_0000 ==> r == x
    ensures x >= 0x1_0000_0000 ==> r == WrapIndex(x - 0x1_0000_0000)
  {
    x % 0x1_0000_0000
  }

  /** A tile of width columns inside a rows x cols matrix whose element count fits an Index starts
    * at its row-major position, and its elements lie inside the matrix.
    */
  lemma {:induction false} OutputOffsetRowMajor(info: OutputBufferInfo, width: nat)
    requires width > 0 && info.rowIdx < info.rows && info.colIdx + width <= info.cols
    requires info.rows * info.cols <= 0x1_0000_0000
    ensures OutputOffset(info) == info.rowIdx * info.cols + info.colIdx
    ensures OutputOffset(info) + width <= info.rows * info.cols
  {
    RowMajorBound(info.rowIdx, info.colIdx + width, info.rows, info.cols);
  }

  lemma RowMajorBound(r: nat, c: nat, rows: nat, cols: nat)
    requires r < rows && c <= cols
    ensures r * cols + c <= rows * cols
  {
    assert r * cols + cols == (r + 1) * cols;
    assert (r + 1) * cols <= rows * cols;
  }

  /** Two different tiles of the same matrix, each width columns wide on a grid of width columns,
    * cover disjoint element ranges.
    */
  lemma {:induction false} TilesDisjoint(a: OutputBufferInfo, b: OutputBufferInfo, width: nat)
    requires width > 0
    requires a.rows == b.rows && a.cols == b.cols && a.rows * a.cols <= 0x1_0000_0000
    requires a.rowIdx < a.rows && a.colIdx + width <= a.cols
    requires b.rowIdx < b.rows && b.colIdx + width <= b.cols
    requires a.rowIdx != b.rowIdx || a.colIdx + width <= b.colIdx || b.colIdx + width <= a.colIdx
    ensures OutputOffset(a) + width <= OutputOffset(b) || OutputOffset(b) + width <= OutputOffset(a)
  {
    OutputOffsetRowMajor(a, width);
    OutputOffsetRowMajor(b, width);
    if a.rowIdx < b.rowIdx {
      RowMajorBound(a.rowIdx, a.colIdx + width, b.rowIdx, a.cols);
    } else if b.rowIdx < a.rowIdx {
      RowMajorBound(b.rowIdx, b.colIdx + width, a.rowIdx, a.cols);
    }
  }

  /* ---------------- what the callbacks leave in the output ---------------- */

  /** The output after UnquantizeAndWrite: the unquantized lanes written at the tile's offset. */
  function UnquantizeAndWriteResult(out: seq<real>, isa: Isa, unquantMult: real, input: Reg, info: OutputBufferInfo): (t: seq<real>)
    requires |input| == RegBytes(CallbackIsa(isa))
    requires OutputOffset(info) + FloatCount(CallbackIsa(isa)) <= |out|
  {
    Overwrite(out, OutputOffset(info), Unquantize(input, Set1Ps(CallbackIsa(isa), unquantMult)))
  }

  /** The output after UnquantizeAndAddBiasAndWrite: the unquantized lanes plus the bias elements at
    * col_idx, written at the tile's offset.
    */
  function UnquantizeAndAddBiasAndWriteResult(out: seq<real>, bias: seq<real>, isa: Isa, unquantMult: real,
                                              input: Reg, info: OutputBufferInfo): (t: seq<real>)
    requires |input| == RegBytes(CallbackIsa(isa))
    requires info.colIdx + FloatCount(CallbackIsa(isa)) <= |bias|
    requires OutputOffset(info) + FloatCount(CallbackIsa(isa)) <= |out|
  {
    Overwrite(out, OutputOffset(info),
      AddBiasFloat(Unquantize(input, Set1Ps(CallbackIsa(isa), unquantMult)), bias, info.colIdx))
  }

  /** UnquantizeAndWrite sets element row_idx * cols + col_idx + k to the k-th 32-bit lane times
    * unquant_mult, for each of the 4 (SSE2) or 8 lanes, and keeps every other element.
    */
  lemma {:induction false} UnquantizeAndWriteElements(out: seq<real>, isa: Isa, unquantMult: real, input: Reg, info: OutputBufferInfo)
    requires |input| == RegBytes(CallbackIsa(isa))
    requires OutputOffset(info) + FloatCount(CallbackIsa(isa)) <= |out|
    ensures |UnquantizeAndWriteResult(out, isa, unquantMult, input, info)| == |out|
    ensures forall k :: 0 <= k < FloatCount(CallbackIsa(isa)) ==>
      UnquantizeAndWriteResult(out, isa, unquantMult, input, info)[OutputOffset(info) + k] ==
        Cvtepi32Ps(Int32Lanes(input)[k]) * unquantMult
    ensures forall k :: 0 <= k < |out| && !(OutputOffset(info) <= k < OutputOffset(info) + FloatCount(CallbackIsa(isa))) ==>
      UnquantizeAndWriteResult(out, isa, unquantMult, input, info)[k] == out[k]
  {
    var t := UnquantizeAndWriteResult(out, isa, unquantMult, input, info);
    var u := Unquantize(input, Set1Ps(CallbackIsa(isa), unquantMult));
    forall k | 0 <= k < FloatCount(CallbackIsa(isa))
      ensures t[OutputOffset(info) + k] == Cvtepi32Ps(Int32Lanes(input)[k]) * unquantMult
    {
      assert t[OutputOffset(info) + k] == u[k];
      BroadcastLane(input, isa, unquantMult, k);
    }
  }

  /** Lane k of unquantize with the broadcast multiplier. */
  lemma BroadcastLane(input: Reg, isa: Isa, unquantMult: real, k: nat)
    requires |input| == RegBytes(CallbackIsa(isa)) && k < FloatCount(CallbackIsa(isa))
    ensures Unquantize(input, Set1Ps(CallbackIsa(isa), unquantMult))[k] == Cvtepi32Ps(Int32Lanes(input)[k]) * unquantMult
  {
    var m := Set1Ps(CallbackIsa(isa), unquantMult);
    UnquantizeLanes(input, m);
    ScaledLane(Unquantize(input, m)[k], Cvtepi32Ps(Int32Lanes(input)[k]), m[k], unquantMult);
  }

  lemma ScaledLane(r: real, f: real, mk: real, x: real)
    requires r == f * mk && mk == x
    ensures r == f * x
  {
  }

  /** UnquantizeAndAddBiasAndWrite sets element row_idx * cols + col_idx + k to the k-th lane times
    * unquant_mult plus bias[col_idx + k], and keeps every other element.
    */
  lemma {:induction false} UnquantizeAndAddBiasAndWriteElements(out: seq<real>, bias: seq<real>, isa: Isa, unquantMult: real,
                                                                 input: Reg, info: OutputBufferInfo)
    requires |input| == RegBytes(CallbackIsa(isa))
    requires info.colIdx + FloatCount(CallbackIsa(isa)) <= |bias|
    requires OutputOffset(info) + FloatCount(CallbackIsa(isa)) <= |out|
    ensures |UnquantizeAndAddBiasAndWriteResult(out, bias, isa, unquantMult, input, info)| == |out|
    ensures forall k :: 0 <= k < FloatCount(CallbackIsa(isa)) ==>
      UnquantizeAndAddBiasAndWriteResult(out, bias, isa, unquantMult, input, info)[OutputOffset(info) + k] ==
        Cvtepi32Ps(Int32Lanes(input)[k]) * unquantMult + bias[info.colIdx + k]
    ensures forall k :: 0 <= k < |out| && !(OutputOffset(info) <= k < OutputOffset(info) + FloatCount(CallbackIsa(isa))) ==>
      UnquantizeAndAddBiasAndWriteResult(out, bias, isa, unquantMult, input, info)[k] == out[k]
  {
    var t := UnquantizeAndAddBiasAndWriteResult(out, bias, isa, unquantMult, input, info);
    var u := Unquantize(input, Set1Ps(CallbackIsa(isa), unquantMult));
    var v := AddBiasFloat(u, bias, info.colIdx);
    AddBiasFloatLanes(u, bias, info.colIdx);
    forall k | 0 <= k < FloatCount(CallbackIsa(isa))
      ensures t[OutputOffset(info) + k] == Cvtepi32Ps(Int32Lanes(input)[k]) * unquantMult + bias[info.colIdx + k]
    {
      assert t[OutputOffset(info) + k] == v[k] == u[k] + bias[info.colIdx + k];
      BroadcastLane(input, isa, unquantMult, k);
    }
  }

  /** Calling UnquantizeAndWrite again on the same tile leaves the output as one call does. */
  lemma {:induction false} UnquantizeAndWriteIdempotent(out: seq<real>, isa: Isa, unquantMult: real, input: Reg, info: OutputBufferInfo)
    requires |input| == RegBytes(CallbackIsa(isa))
    requires OutputOffset(info) + FloatCount(CallbackIsa(isa)) <= |out|
    ensures UnquantizeAndWriteResult(UnquantizeAndWriteResult(out, isa, unquantMult, input, info), isa, unquantMult, input, info) ==
      UnquantizeAndWriteResult(out, isa, unquantMult, input, info)
  {
    OverwriteIdempotent(out, OutputOffset(info), Unquantize(input, Set1Ps(CallbackIsa(isa), unquantMult)));
  }

  /** With the bias array distinct from the output, a repeated call on the same tile changes nothing more. */
  lemma {:induction false} UnquantizeAndAddBiasAndWriteIdempotent(out: seq<real>, bias: seq<real>, isa: Isa, unquantMult: real,
                                                                   input: Reg, info: OutputBufferInfo)
    requires |input| == RegBytes(CallbackIsa(isa))
    requires info.colIdx + FloatCount(CallbackIsa(isa)) <= |bias|
    requires OutputOffset(info) + FloatCount(CallbackIsa(isa)) <= |out|
    ensures UnquantizeAndAddBiasAndWriteResult(UnquantizeAndAddBiasAndWriteResult(out, bias, isa, unquantMult, input, info),
                                               bias, isa, unquantMult, input, info) ==
      UnquantizeAndAddBiasAndWriteResult(out, bias, isa, unquantMult, input, info)
  {
    OverwriteIdempotent(out, OutputOffset(info),
      AddBiasFloat(Unquantize(input, Set1Ps(CallbackIsa(isa), unquantMult)), bias, info.colIdx));
  }

  /** Callbacks on two different tiles of the matrix may run in either order. */
  lemma {:induction false} UnquantizeAndWriteTilesCommute(out: seq<real>, isa: Isa, unquantMult: real,
                                                          inputA: Reg, a: OutputBufferInfo, inputB: Reg, b: OutputBufferInfo)
    requires |inputA| == RegBytes(CallbackIsa(isa)) && |inputB| == RegBytes(CallbackIsa(isa))
    requires a.rows == b.rows && a.cols == b.cols && a.rows * a.cols <= 0x1_0000_0000
    requires OutputOffset(a) + FloatCount(CallbackIsa(isa)) <= |out| && OutputOffset(b) + FloatCount(CallbackIsa(isa)) <= |out|
    requires a.rowIdx < a.rows && a.colIdx + FloatCount(CallbackIsa(isa)) <= a.cols
    requires b.rowIdx < b.rows && b.colIdx + FloatCount(CallbackIsa(isa)) <= b.cols
    requires a.rowIdx != b.rowIdx || a.colIdx + FloatCount(CallbackIsa(isa)) <= b.colIdx ||
             b.colIdx + FloatCount(CallbackIsa(isa)) <= a.colIdx
    ensures UnquantizeAndWriteResult(UnquantizeAndWriteResult(out, isa, unquantMult, inputA, a), isa, unquantMult, inputB, b) ==
      UnquantizeAndWriteResult(UnquantizeAndWriteResult(out, isa, unquantMult, inputB, b), isa, unquantMult, inputA, a)
  {
    var n := FloatCount(CallbackIsa(isa));
    OutputOffsetRowMajor(a, n);
    OutputOffsetRowMajor(b, n);
    TilesDisjoint(a, b, n);
    var m := Set1Ps(CallbackIsa(isa), unquantMult);
    OverwriteCommute(out, OutputOffset(a), Unquantize(inputA, m), OutputOffset(b), Unquantize(inputB, m));
  }

  /* ---------------- the callback objects ---------------- */

  /** Dummy: does nothing with the tile (its empty frame says no memory changes). */
  class DummyCallback {
    const isa: Isa

    constructor (isa: Isa)
      ensures this.isa == isa
    {
      this.isa := isa;
    }

    method Apply(input: Reg, info: OutputBufferInfo)
      requires |input| == RegBytes(CallbackIsa(isa))
    {
    }
  }

  /** UnquantizeAndWrite: unquantizes the tile and writes it to the output array. The configuration
    * and the broadcast multiplier are set once, by the constructor.
    */
  class UnquantizeAndWriteCallback {
    const isa: Isa
    const config: UnquantizeAndWrite
    const unquantMult: seq<real>

    ghost predicate Valid() {
      unquantMult == Set1Ps(CallbackIsa(isa), config.unquantMult)
    }

    /** Stores the configuration and broadcasts unquant_mult to every float lane. */
    constructor (isa: Isa, config: UnquantizeAndWrite)
      ensures this.isa == isa && this.config == config
      ensures Valid() && |unquantMult| == FloatCount(CallbackIsa(isa))
      ensures forall k :: 0 <= k < |unquantMult| ==> unquantMult[k] == config.unquantMult
    {
      this.isa := isa;
      this.config := config;
      this.unquantMult := Set1Ps(CallbackIsa(isa), config.unquantMult);
    }

    /** operator(): writes the unquantized lanes at row_idx * cols + col_idx and nothing else. */
    method Apply(input: Reg, info: OutputBufferInfo)
      requires Valid() && |input| == RegBytes(CallbackIsa(isa))
      requires OutputOffset(info) + FloatCount(CallbackIsa(isa)) <= config.addr.Length
      modifies config.addr
      ensures config.addr[..] == UnquantizeAndWriteResult(old(config.addr[..]), isa, config.unquantMult, input, info)
    {
      var result := Unquantize(input, unquantMult);
      WriteFloats(result, config.addr, OutputOffset(info));
    }
  }

  /** UnquantizeAndAddBiasAndWrite: unquantizes the tile, adds the bias for its columns and writes it. */
  class UnquantizeAndAddBiasAndWriteCallback {
    const isa: Isa
    const config: UnquantizeAndAddBiasAndWrite
    const unquantMult: seq<real>

    ghost predicate Valid() {
      unquantMult == Set1Ps(CallbackIsa(isa), config.unquantMult)
    }

    /** Stores the configuration and broadcasts unquant_mult to every float lane. */
    constructor (isa: Isa, config: UnquantizeAndAddBiasAndWrite)
      ensures this.isa == isa && this.config == config
      ensures Valid() && |unquantMult| == FloatCount(CallbackIsa(isa))
      ensures forall k :: 0 <= k < |unquantMult| ==> unquantMult[k] == config.unquantMult
    {
      this.isa := isa;
      this.config := config;
      this.unquantMult := Set1Ps(CallbackIsa(isa), config.unquantMult);
    }

    /** operator(): reads bias[col_idx ..] before it writes, so the result holds even when the bias
      * and the output are the same array.
      */
    method Apply(input: Reg, info: OutputBufferInfo)
      requires Valid() && |input| == RegBytes(CallbackIsa(isa))
      requires info.colIdx + FloatCount(CallbackIsa(isa)) <= config.biasAddr.Length
      requires OutputOffset(info) + FloatCount(CallbackIsa(isa)) <= config.outputAddr.Length
      modifies config.outputAddr
      ensures config.outputAddr[..] ==
        UnquantizeAndAddBiasAndWriteResult(old(config.outputAddr[..]), old(config.biasAddr[..]), isa, config.unquantMult, input, info)
    {
      var result := Unquantize(input, unquantMult);
      result := AddBiasFloat(result, config.biasAddr[..], info.colIdx);
      WriteFloats(result, config.outputAddr, OutputOffset(info));
    }
  }
}
