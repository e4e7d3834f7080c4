/** Vocabulary shared by all five host drivers: the compile-time build
    switches, the benchmark variants, the device buffers, and the typed
    argument slots that `clSetKernelArg` fills one index after another. */
module Kernels {

  /** `-DSWI` (one work-item, launched with `clEnqueueTask`) or `-DNDR`
      (an NDRange launched with `clEnqueueNDRangeKernel`). */
  datatype LaunchModel = SingleWorkItem | NDRange

  /** One kernel per variant (STD, BLK2D), or a read kernel and a write
      kernel joined by an on-chip channel, each on its own command queue
      (CHSTD, CHBLK2D, and the channel stream drivers). */
  datatype Topology = Standard | Channelized

  /** The compile-time configuration of a driver: the topology and launch
      model switches, `INTEL_FPGA`, and the `BLOCK_X`, `VEC` and `WGS`
      macros. */
  datatype Build = Build(topology: Topology, model: LaunchModel, intelFpga: bool,
                         blockX: int, vec: int, wgs: int)

  /** The macros are positive constants in every build. */
  predicate ValidBuild(b: Build)
  {
    b.blockX > 0 && b.vec > 0 && b.wgs > 0
  }

  /** The variants: memory benchmark RxWy (x arrays read, y written) and
      the two kernels of the plain stream benchmark. */
  datatype Variant = R1W0 | R1W1 | R2W1 | R3W1 | R2W2 | Copy | Mac

  predicate MemBenchVariant(v: Variant)
  {
    v != Copy && v != Mac
  }

  /** Arrays a variant reads, and arrays it writes. */
  function Reads(v: Variant): nat
  {
    match v
    case R1W0 => 1 case R1W1 => 1 case R2W1 => 2 case R3W1 => 3 case R2W2 => 2
    case Copy => 1 case Mac => 2
  }

  function Writes(v: Variant): nat
  {
    match v
    case R1W0 => 0 case R1W1 => 1 case R2W1 => 1 case R3W1 => 1 case R2W2 => 2
    case Copy => 1 case Mac => 1
  }

  /** The factor in front of `totalSize_B` (or `size*sizeof(float)`) in each
      bandwidth line of the report. */
  function Streams(v: Variant): nat
  {
    match v
    case R1W0 => 1 case R1W1 => 2 case R2W1 => 3 case R3W1 => 4 case R2W2 => 4
    case Copy => 2 case Mac => 3
  }

  /** Every report counts each streamed array once: the factor is the
      number of arrays the variant reads plus the number it writes.  This
      compares two tables; what ties the factor to the code is that every
      kernel binds exactly Streams(v) buffers, which each driver's
      `ArgsShape` lemma proves from its argument lists (`R1W0`, which also
      binds the unwritten D, is the one exception). */
  lemma StreamsAreReadsPlusWrites(v: Variant)
    ensures Streams(v) == Reads(v) + Writes(v)
  {
  }

  datatype Buffer = A | B | C | D

  /** Inputs of a variant: the first Reads(v) of A, B, C. */
  function Inputs(v: Variant): (r: seq<Buffer>)
    ensures |r| == Reads(v)
  {
    [A, B, C][..Reads(v)]
  }

  /** Scalar kernel parameters, by the host variable bound to them. */
  datatype Param = Pad | PadX | DimX | DimY | ArraySize | LoopExit | Halo | ConstValue | Size

  /** One argument slot: a buffer, or a scalar passed as `cl_int`,
      `cl_long` or `cl_float`. */
  datatype Slot = Mem(buf: Buffer) | Int32(p: Param) | Int64(p: Param) | Float32(p: Param)

  /** A whole kernel of a standard build, or one side of a channel pair. */
  datatype Side = Whole | ReadSide | WriteSide

  function Mems(bs: seq<Buffer>): (r: seq<Slot>)
    ensures |r| == |bs| && forall i :: 0 <= i < |bs| ==> r[i] == Mem(bs[i])
  {
    if bs == [] then [] else [Mem(bs[0])] + Mems(bs[1..])
  }

  /** The buffers an argument list binds, in slot order. */
  function BufferSlots(t: seq<Slot>): seq<Buffer>
  {
    if t == [] then []
    else (if t[0].Mem? then [t[0].buf] else []) + BufferSlots(t[1..])
  }

  /** The list with every scalar slot bound to one of `drop` removed. */
  function Without(t: seq<Slot>, drop: set<Param>): seq<Slot>
  {
    if t == [] then []
    else (if !t[0].Mem? && t[0].p in drop then [] else [t[0]]) + Without(t[1..], drop)
  }

  /** Buffers occupy the leading slots, scalars the rest. */
  predicate BuffersFirst(t: seq<Slot>)
  {
    forall i, j :: 0 <= i < j < |t| && t[j].Mem? ==> t[i].Mem?
  }

  predicate Binds(t: seq<Slot>, p: Param)
  {
    exists i :: 0 <= i < |t| && !t[i].Mem? && t[i].p == p
  }

  /** The scalars of the 1D blocked kernels: `pad`, `array_size`, the
      single-work-item `loop_exit`, and `halo`, in that order. */
  function Scalars1D(m: LaunchModel): seq<Slot>
  {
    [Int32(Pad), Int64(ArraySize)] + (if m == SingleWorkItem then [Int64(LoopExit)] else []) + [Int32(Halo)]
  }

  /** Only the single-work-item kernels take the loop bound. */
  lemma Scalars1DByModel()
    ensures Without(Scalars1D(SingleWorkItem), {LoopExit}) == Scalars1D(NDRange)
    ensures Binds(Scalars1D(SingleWorkItem), LoopExit) && !Binds(Scalars1D(NDRange), LoopExit)
    ensures forall m, i :: 0 <= i < |Scalars1D(m)| ==> !Scalars1D(m)[i].Mem?
  {
    var swi, ndr := Scalars1D(SingleWorkItem), Scalars1D(NDRange);
    assert swi[2] == Int64(LoopExit);
    assert ndr == [Int32(Pad), Int64(ArraySize), Int32(Halo)];
    forall i | 0 <= i < |ndr| ensures ndr[i].p != LoopExit {
    }
    assert swi[1..][1..][1..][1..] == [];
  }

  /** Buffers, then scalars: the shape of every argument list. */
  lemma {:induction false} BuffersThenScalars(bs: seq<Buffer>, s: seq<Slot>)
    requires forall i :: 0 <= i < |s| ==> !s[i].Mem?
    ensures BufferSlots(Mems(bs) + s) == bs
    ensures BuffersFirst(Mems(bs) + s)
  {
    if bs == [] {
      assert Mems(bs) + s == s;
      NoBuffers(s);
    } else {
      assert Mems(bs) + s == [Mem(bs[0])] + (Mems(bs[1..]) + s);
      BuffersThenScalars(bs[1..], s);
    }
  }

  lemma {:induction false} NoBuffers(s: seq<Slot>)
    requires forall i :: 0 <= i < |s| ==> !s[i].Mem?
    ensures BufferSlots(s) == []
  {
    if s != [] {
      NoBuffers(s[1..]);
    }
  }

  /** Removing scalars keeps the buffer prefix and concatenates. */
  lemma {:induction false} WithoutAppend(t: seq<Slot>, u: seq<Slot>, drop: set<Param>)
    ensures Without(t + u, drop) == Without(t, drop) + Without(u, drop)
  {
    if t == [] {
      assert t + u == u;
    } else {
      assert (t + u)[0] == t[0] && (t + u)[1..] == t[1..] + u;
      WithoutAppend(t[1..], u, drop);
    }
  }

  lemma {:induction false} WithoutMems(bs: seq<Buffer>, drop: set<Param>)
    ensures Without(Mems(bs), drop) == Mems(bs)
  {
    if bs != [] {
      WithoutMems(bs[1..], drop);
    }
  }
}
