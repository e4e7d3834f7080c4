/** fpga-stream-host-sch.c: the serial channel benchmark.  A read kernel
    streams A into a channel and a write kernel drains it into C; there
    is no blocking and no halo, and the build is always channelized. */
module StreamSch {
  import opened CInt
  import opened Kernels
  import opened Geometry
  import opened Schedule
  import Cli

  /** The work-group size fixed in the driver. */
  const WorkGroupSize: int := 64

  /** Only A goes to the device: B is filled and allocated but never
      written to it, and no kernel takes it. */
  const Uploads: seq<Buffer> := [A]

  /** The `clSetKernelArg` calls of the read and the write kernel. */
  function Args(m: LaunchModel, s: Side): seq<Slot>
  {
    [Mem(if s == WriteSide then C else A), Int32(Pad)]
    + (if m == SingleWorkItem then [Int64(ArraySize)] else [])
  }

  /** The read side binds A, the write side C, each followed by `pad`,
      and the single-work-item kernels also take `array_size`; B is bound
      nowhere. */
  lemma ArgsShape(m: LaunchModel)
    ensures BufferSlots(Args(m, ReadSide)) == [A] && BufferSlots(Args(m, WriteSide)) == [C]
    ensures BuffersFirst(Args(m, ReadSide)) && BuffersFirst(Args(m, WriteSide))
    ensures Args(NDRange, ReadSide) == Without(Args(SingleWorkItem, ReadSide), {ArraySize})
    ensures Args(NDRange, WriteSide) == Without(Args(SingleWorkItem, WriteSide), {ArraySize})
    ensures forall s :: B !in BufferSlots(Args(m, s)) && B !in Uploads
  {
    var tail := [Int32(Pad)] + (if m == SingleWorkItem then [Int64(ArraySize)] else []);
    forall s ensures BufferSlots(Args(m, s)) == [if s == WriteSide then C else A] && BuffersFirst(Args(m, s)) {
      assert Args(m, s) == Mems([if s == WriteSide then C else A]) + tail;
      BuffersThenScalars([if s == WriteSide then C else A], tail);
    }
    assert Without([Int64(ArraySize)], {ArraySize}) == [];
    forall s ensures Args(NDRange, s) == Without(Args(SingleWorkItem, s), {ArraySize}) {
      var x := Mem(if s == WriteSide then C else A);
      assert Args(SingleWorkItem, s) == [x] + [Int32(Pad)] + [Int64(ArraySize)];
      WithoutAppend([x] + [Int32(Pad)], [Int64(ArraySize)], {ArraySize});
      WithoutAppend([x], [Int32(Pad)], {ArraySize});
      assert Without([x], {ArraySize}) == [x];
      assert Without([Int32(Pad)], {ArraySize}) == [Int32(Pad)];
    }
  }

  /** The NDRange launch: work-groups of 64 and array_size / VEC
      work-items, one per vector of VEC floats. */
  function SchRange(b: Build, arraySize: int): Range
    requires ValidBuild(b)
  {
    Range(Dim3(WorkGroupSize, 1, 1), Dim3(Div(arraySize, b.vec), 1, 1))
  }

  /** The work-items cover the whole vectors of the array and miss only
      the remainder of array_size modulo VEC. */
  lemma RangeCoversArray(b: Build, arraySize: int)
    requires ValidBuild(b) && arraySize >= 0
    ensures var g := SchRange(b, arraySize).global.x;
            g * b.vec <= arraySize < (g + 1) * b.vec
            && arraySize - g * b.vec == Mod(arraySize, b.vec)
  {
    Truncation(arraySize, b.vec);
    var g := Div(arraySize, b.vec);
    assert g >= 0;
    assert Abs(g) == g && Abs(b.vec) == b.vec && Abs(arraySize) == arraySize;
  }

  /** The channel carries each float once; memory sees it read and
      written. */
  function ChannelBytes(o: Cli.Options): int
  {
    Sizes1D(o.sizeMiB, o.pad).sizeB
  }

  function MemoryBytes(o: Cli.Options): int
  {
    2 * Sizes1D(o.sizeMiB, o.pad).sizeB
  }

  /** The two report lines count one and two streams of size_MiB MiB. */
  lemma ReportedStreams(o: Cli.Options)
    ensures ChannelBytes(o) == o.sizeMiB * 1048576
    ensures MemoryBytes(o) == Streams(R1W1) * ChannelBytes(o)
  {
    Sizes1DFacts(o.sizeMiB, o.pad);
  }

  /** One warm-up pass, then iter timed passes of the kernel pair. */
  function Trace(o: Cli.Options): seq<Event>
  {
    Session(Channelized, R1W1, [R1W1], o.iter)
  }

  lemma TraceLaunches(o: Cli.Options)
    ensures Launches(Trace(o)) == 2 * (1 + (if o.iter > 0 then o.iter else 0))
  {
    SessionLaunches(Channelized, R1W1, [R1W1], o.iter);
  }
}
