/** fpga-stream-host-std.c: the 1D streaming benchmark with the r1w1
    (copy) and r2w1 (sum) kernels, in the standard and the channelized
    build.  Unlike the memory benchmark it never checks the halo width. */
module StreamStd {
  import opened CInt
  import opened Layout
  import opened Kernels
  import opened Geometry
  import opened Schedule
  import Cli
  import Host1D

  /** r1w1 is modelled by R1W1, r2w1 by R2W1. */
  const Variants: seq<Variant> := [R1W1, R2W1]

  function Buffers(v: Variant, s: Side): seq<Buffer>
  {
    match s
    case Whole => Inputs(v) + [C]
    case ReadSide => Inputs(v)
    case WriteSide => [C]
  }

  /** The `clSetKernelArg` calls of one kernel, in index order: both
      channel sides repeat the scalars. */
  function Args(m: LaunchModel, v: Variant, s: Side): seq<Slot>
  {
    Mems(Buffers(v, s)) + Scalars1D(m)
  }

  /** A standard kernel binds the inputs and C, one buffer per reported
      stream; the read side binds the inputs, the write side C; the NDRange
      arguments are the single-work-item ones without the loop bound. */
  lemma ArgsShape(m: LaunchModel, v: Variant, s: Side)
    requires v in Variants
    ensures BufferSlots(Args(m, v, s)) == Buffers(v, s)
    ensures BuffersFirst(Args(m, v, s))
    ensures |BufferSlots(Args(m, v, Whole))| == Streams(v)
    ensures Args(NDRange, v, s) == Without(Args(SingleWorkItem, v, s), {LoopExit})
  {
    Scalars1DByModel();
    BuffersThenScalars(Buffers(v, s), Scalars1D(m));
    BuffersThenScalars(Buffers(v, Whole), Scalars1D(m));
    WithoutAppend(Mems(Buffers(v, s)), Scalars1D(SingleWorkItem), {LoopExit});
    WithoutMems(Buffers(v, s), {LoopExit});
  }

  /** The block layout as the driver computes it: with no halo guard in
      front, `valid_blk_x` can be zero and the `%` then divides by zero. */
  function SetupAsWritten(b: Build, o: Cli.Options): (r: Checked<Blocks>)
    ensures r.DividesByZero? <==> ValidBlock(b.blockX, o.halo) == 0
    ensures r.Ready? ==> r.value == BlocksOf(Sizes1D(o.sizeMiB, o.pad).arraySize, b.blockX, o.halo)
    ensures r.Ready? && IsInt(o.sizeMiB) && o.sizeMiB >= 0 ==>
              r.value == BlocksOf(o.sizeMiB * 262144, b.blockX, o.halo)
  {
    Sizes1DFacts(o.sizeMiB, o.pad);
    UnguardedBlocks(Sizes1D(o.sizeMiB, o.pad).arraySize, b.blockX, o.halo)
  }

  /** The evidently intended setup: the same guard as the memory
      benchmark, which rules the division by zero out. */
  function Setup(b: Build, o: Cli.Options): (r: Checked<Blocks>)
    requires ValidBuild(b)
    ensures r.Exits? <==> o.halo >= Div(b.blockX, 2)
    ensures !r.DividesByZero?
    ensures r.Ready? ==> r.value == BlocksOf(Sizes1D(o.sizeMiB, o.pad).arraySize, b.blockX, o.halo)
    ensures r.Ready? && IsInt(o.sizeMiB) && o.sizeMiB >= 0 ==>
              r.value == BlocksOf(o.sizeMiB * 262144, b.blockX, o.halo)
    ensures r.Ready? ==> r.value.valid >= 2
  {
    Sizes1DFacts(o.sizeMiB, o.pad);
    GuardedBlocks(Sizes1D(o.sizeMiB, o.pad).arraySize, b.blockX, o.halo)
  }

  /** The command line accepts any halo width. */
  lemma HaloFlagAccepted(prog: string, w: string, atoi: string -> int)
    ensures Cli.Parse(Cli.StreamStdHost, [prog, "-hw", w], atoi)
            == Cli.Run(Cli.Defaults(Cli.StreamStdHost).(halo := atoi(w)))
  {
    var tb, toks, dflt := Cli.Flags(Cli.StreamStdHost), ["-hw", w], Cli.Defaults(Cli.StreamStdHost);
    assert [prog, "-hw", w][1..] == toks;
    assert toks[2..] == [] && toks[1] == w;
    assert Cli.Lookup(tb, toks[0]) == Cli.Some(Cli.Halo);
    assert Cli.ParseFrom(tb, toks, atoi, dflt) == Cli.ParseFrom(tb, [], atoi, Cli.SetValue(dflt, Cli.Halo, atoi(w)));
  }

  /** The input that shows it: with the default BLOCK_X of 1024, `-hw 512`
      passes the command line and divides by zero in the layout, where the
      guarded setup exits with -1. */
  lemma HalfBlockHaloDividesByZero(prog: string, w: string, atoi: string -> int, b: Build)
    requires atoi(w) == 512 && ValidBuild(b) && b.blockX == 1024
    ensures var r := Cli.Parse(Cli.StreamStdHost, [prog, "-hw", w], atoi);
            r.Run? && SetupAsWritten(b, r.opts).DividesByZero? && Setup(b, r.opts) == Exits(-1)
  {
    HaloFlagAccepted(prog, w, atoi);
  }

  /** `totalSize_B`, with the memory benchmark's formula. */
  function TotalBytes(b: Build, o: Cli.Options): int
    requires ValidBlock(b.blockX, o.halo) != 0
  {
    ToLong(ToSizeT(EffectiveAsWritten(Sizes1D(o.sizeMiB, o.pad).arraySize, b.blockX, o.halo) * 4))
  }

  /** r1w1 reports two streams, r2w1 three; without a halo each is a whole
      array of size_B bytes. */
  lemma ReportedStreams(b: Build, o: Cli.Options)
    requires ValidBuild(b) && o.halo == 0 && IsInt(o.sizeMiB) && o.sizeMiB >= 0
    ensures Streams(R1W1) * TotalBytes(b, o) == 2 * Sizes1D(o.sizeMiB, o.pad).sizeB
    ensures Streams(R2W1) * TotalBytes(b, o) == 3 * Sizes1D(o.sizeMiB, o.pad).sizeB
  {
    Sizes1DFacts(o.sizeMiB, o.pad);
    AsWrittenNoHalo(o.sizeMiB * 262144, b.blockX);
    LongRoundTrip(o.sizeMiB * 1048576);
  }

  /** One warm-up pass of r1w1, then iter passes of each kernel. */
  function Trace(b: Build, o: Cli.Options): seq<Event>
  {
    Session(b.topology, R1W1, Variants, o.iter)
  }

  lemma TraceLaunches(b: Build, o: Cli.Options)
    ensures Launches(Trace(b, o)) == KernelsPerPass(b.topology) * (1 + 2 * (if o.iter > 0 then o.iter else 0))
  {
    SessionLaunches(b.topology, R1W1, Variants, o.iter);
  }

  /** The `--verify` step: C must equal A after r1w1 and be close to A + B
      after r2w1. */
  method Verify<T(==)>(v: Variant, a: array<T>, b: array<T>, c: array<T>,
                       pad: int, n: int, add: (T, T) -> T, close: (T, T) -> bool)
    returns (success: bool)
    requires v in Variants && 0 <= pad && 0 <= n
    requires pad + n <= a.Length && pad + n <= b.Length && pad + n <= c.Length
    ensures v == R1W1 ==> (success <==> Host1D.Agree1D(a[..], c[..], pad, n))
    ensures v == R2W1 ==> (success <==> Host1D.Sum2Close(a[..], b[..], c[..], pad, n, add, close))
  {
    if v == R1W1 {
      success := Host1D.CheckCopy(a, c, pad, n);
    } else {
      success := Host1D.CheckSum2(a, b, c, pad, n, add, close);
    }
  }
}
