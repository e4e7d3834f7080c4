/** fpga-mem-bench-host-std.c: the 1D memory benchmark.

    From the parsed options it guards the halo width, sizes the padded
    buffers, lays out the blocks over `array_size`, binds the arguments of
    the five kernels (R1W0, R1W1, R2W1, R3W1, R2W2), runs one warm-up pass
    and `iter` timed passes of each, checks the results it can check, and
    reports bandwidth from `totalSize_B`. */
module MemBenchStd {
  import opened CInt
  import opened Layout
  import opened Kernels
  import opened Geometry
  import opened Schedule
  import Cli
  import Host1D

  /** The variants in the order the driver runs them; R1W0 also warms the
      device up. */
  const Variants: seq<Variant> := [R1W0, R1W1, R2W1, R3W1, R2W2]

  /** Buffers a kernel writes: D, or C and D for R2W2.  R1W0 writes
      nothing, but its standard kernel still takes D. */
  function Outputs(v: Variant): seq<Buffer>
  {
    if v == R2W2 then [C, D] else [D]
  }

  function Buffers(v: Variant, s: Side): seq<Buffer>
  {
    match s
    case Whole => Inputs(v) + Outputs(v)
    case ReadSide => Inputs(v)
    case WriteSide => Outputs(v)
  }

  /** The `clSetKernelArg` calls of one kernel, in index order.  The write
      side of the R1W0 channel pair takes only D. */
  function Args(m: LaunchModel, v: Variant, s: Side): seq<Slot>
  {
    if s == WriteSide && v == R1W0 then [Mem(D)] else Mems(Buffers(v, s)) + Scalars1D(m)
  }

  /** Every kernel binds its buffers first; a standard kernel binds its
      inputs then its outputs, the read side only inputs, the write side
      only outputs; the loop bound is bound exactly in single-work-item
      builds, except by the bare R1W0 write side. */
  lemma ArgsShape(m: LaunchModel, v: Variant, s: Side)
    ensures BufferSlots(Args(m, v, s)) == Buffers(v, s)
    ensures BuffersFirst(Args(m, v, s))
    ensures Binds(Args(m, v, s), LoopExit) <==> m == SingleWorkItem && !(s == WriteSide && v == R1W0)
  {
    Scalars1DByModel();
    var t := Args(m, v, s);
    if s == WriteSide && v == R1W0 {
      assert t == Mems([D]) + [];
      BuffersThenScalars([D], []);
    } else {
      BuffersThenScalars(Buffers(v, s), Scalars1D(m));
      if m == SingleWorkItem {
        assert t[|Buffers(v, s)| + 2] == Int64(LoopExit);
      }
    }
  }

  /** An NDRange kernel takes the single-work-item arguments minus the loop
      bound. */
  lemma NDRangeDropsLoopExit(v: Variant, s: Side)
    ensures Args(NDRange, v, s) == Without(Args(SingleWorkItem, v, s), {LoopExit})
  {
    Scalars1DByModel();
    if s == WriteSide && v == R1W0 {
      assert Without([Mem(D)], {LoopExit}) == [Mem(D)] + Without([], {LoopExit});
    } else {
      WithoutAppend(Mems(Buffers(v, s)), Scalars1D(SingleWorkItem), {LoopExit});
      WithoutMems(Buffers(v, s), {LoopExit});
    }
  }

  /** The channel read side binds only arrays the variant reads, the write
      side only D (and C for R2W2); a standard kernel binds one buffer per
      reported stream, except R1W0, which streams A but also takes D. */
  lemma SidesSplitBuffers(m: LaunchModel, v: Variant)
    ensures forall x :: x in BufferSlots(Args(m, v, ReadSide)) ==> x in {A, B, C}
    ensures forall x :: x in BufferSlots(Args(m, v, WriteSide)) ==> x in {C, D}
    ensures BufferSlots(Args(m, v, Whole))
            == BufferSlots(Args(m, v, ReadSide)) + BufferSlots(Args(m, v, WriteSide))
    ensures MemBenchVariant(v) && v != R1W0 ==> |BufferSlots(Args(m, v, Whole))| == Streams(v)
    ensures |BufferSlots(Args(m, R1W0, Whole))| == Streams(R1W0) + 1
  {
    ArgsShape(m, v, ReadSide);
    ArgsShape(m, v, WriteSide);
    ArgsShape(m, v, Whole);
    ArgsShape(m, R1W0, Whole);
  }

  // ---------------------------------------------------------------------
  // Setup.

  datatype Plan = Plan(sizes: Sizes, blocks: Blocks)

  /** The halo guard, then the sizes and the block layout over
      `array_size`; the guard is the driver's only way to exit here. */
  function Setup(b: Build, o: Cli.Options): (r: Checked<Plan>)
    requires ValidBuild(b)
    ensures r.Exits? <==> o.halo >= Div(b.blockX, 2)
    ensures r.Exits? ==> r.code == -1
    ensures r.Ready? ==> r.value.sizes == Sizes1D(o.sizeMiB, o.pad)
    ensures r.Ready? ==> r.value.blocks == BlocksOf(r.value.sizes.arraySize, b.blockX, o.halo)
    ensures r.Ready? && IsInt(o.sizeMiB) && o.sizeMiB >= 0 ==>
              r.value.blocks == BlocksOf(o.sizeMiB * 262144, b.blockX, o.halo)
    ensures r.Ready? ==> r.value.blocks.valid >= 2
    ensures !r.DividesByZero?
  {
    Sizes1DFacts(o.sizeMiB, o.pad);
    var sizes := Sizes1D(o.sizeMiB, o.pad);
    match GuardedBlocks(sizes.arraySize, b.blockX, o.halo)
    case Ready(blocks) => Ready(Plan(sizes, blocks))
    case Exits(code) => Exits(code)
    case DividesByZero => DividesByZero
  }

  /** `totalSize_B`: the streamed floats of one array pass, in bytes. */
  function TotalBytes(b: Build, o: Cli.Options): int
    requires ValidBlock(b.blockX, o.halo) != 0
  {
    ToLong(ToSizeT(EffectiveAsWritten(Sizes1D(o.sizeMiB, o.pad).arraySize, b.blockX, o.halo) * 4))
  }

  /** `redundancy_B`. */
  function Redundancy(b: Build, o: Cli.Options): int
    requires ValidBlock(b.blockX, o.halo) != 0
  {
    TotalBytes(b, o) - Sizes1D(o.sizeMiB, o.pad).sizeB
  }

  /** The bytes a variant's bandwidth line divides by its average time. */
  function ReportedBytes(b: Build, o: Cli.Options, v: Variant): int
    requires ValidBlock(b.blockX, o.halo) != 0
  {
    Streams(v) * TotalBytes(b, o)
  }

  /** Without a halo nothing is streamed twice: the report counts exactly
      size_B per array pass. */
  lemma NoHaloNoRedundancy(b: Build, o: Cli.Options)
    requires ValidBuild(b) && o.halo == 0 && IsInt(o.sizeMiB) && o.sizeMiB >= 0
    ensures Redundancy(b, o) == 0
  {
    Sizes1DFacts(o.sizeMiB, o.pad);
    AsWrittenNoHalo(o.sizeMiB * 262144, b.blockX);
    LongRoundTrip(o.sizeMiB * 1048576);
  }

  /** With two blocks or more the reported bytes are the blocks' coverage
      of the array, overlaps counted again, four bytes a position. */
  lemma TotalIsCoverage(b: Build, o: Cli.Options)
    requires ValidBuild(b) && 0 <= o.halo && 3 * o.halo <= b.blockX
    requires ValidBlock(b.blockX, o.halo) > 0
    requires NumBlocks(Sizes1D(o.sizeMiB, o.pad).arraySize, ValidBlock(b.blockX, o.halo)) >= 2
    ensures var v := ValidBlock(b.blockX, o.halo);
            var n := Sizes1D(o.sizeMiB, o.pad).arraySize;
            TotalBytes(b, o) == ToLong(ToSizeT(Covered(n, v, o.halo, NumBlocks(n, v)) * 4))
  {
    Sizes1DFacts(o.sizeMiB, o.pad);
    AsWrittenIsCoverage(Sizes1D(o.sizeMiB, o.pad).arraySize, b.blockX, o.halo);
  }

  /** One warm-up pass of R1W0, then iter passes of every variant. */
  function Trace(b: Build, o: Cli.Options): seq<Event>
  {
    Session(b.topology, R1W0, Variants, o.iter)
  }

  lemma TraceLaunches(b: Build, o: Cli.Options)
    ensures Launches(Trace(b, o)) == KernelsPerPass(b.topology) * (1 + 5 * (if o.iter > 0 then o.iter else 0))
  {
    SessionLaunches(b.topology, R1W0, Variants, o.iter);
  }

  // ---------------------------------------------------------------------
  // Verification.

  /** The `--verify` step of one variant: R1W0 has none; R1W1 compares D
      with A, R2W1 and R3W1 compare D with the sum of their inputs (with
      the float tolerance as `close`), R2W2 compares C with A and D with B. */
  method Verify<T(==)>(v: Variant, a: array<T>, b: array<T>, c: array<T>, d: array<T>,
                       pad: int, n: int, add: (T, T) -> T, close: (T, T) -> bool)
    returns (r: Cli.Option<bool>)
    requires MemBenchVariant(v) && 0 <= pad && 0 <= n
    requires pad + n <= a.Length && pad + n <= b.Length && pad + n <= c.Length && pad + n <= d.Length
    ensures r.None? <==> v == R1W0
    ensures v == R1W1 ==> r == Cli.Some(Host1D.Agree1D(a[..], d[..], pad, n))
    ensures v == R2W1 ==> r == Cli.Some(Host1D.Sum2Close(a[..], b[..], d[..], pad, n, add, close))
    ensures v == R3W1 ==> r == Cli.Some(Host1D.Sum3Close(a[..], b[..], c[..], d[..], pad, n, add, close))
    ensures v == R2W2 ==>
              r == Cli.Some(Host1D.Agree1D(a[..], c[..], pad, n) && Host1D.Agree1D(b[..], d[..], pad, n))
  {
    match v
    case R1W0 =>
      r := Cli.None;
    case R1W1 =>
      var ok := Host1D.CheckCopy(a, d, pad, n);
      r := Cli.Some(ok);
    case R2W1 =>
      var ok := Host1D.CheckSum2(a, b, d, pad, n, add, close);
      r := Cli.Some(ok);
    case R3W1 =>
      var ok := Host1D.CheckSum3(a, b, c, d, pad, n, add, close);
      r := Cli.Some(ok);
    case R2W2 =>
      var ok := Host1D.CheckSwap(a, b, c, d, pad, n);
      r := Cli.Some(ok);
  }
}
