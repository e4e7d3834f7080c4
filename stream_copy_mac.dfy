/** fpga-stream.c: the legacy STREAM-style benchmark.  Its copy kernel
    moves A to C and its multiply-accumulate kernel combines A, B and a
    random constant into C; each runs exactly once, on unpadded buffers
    of `size` floats, and nothing is checked. */
module StreamCopyMac {
  import opened Kernels
  import opened Geometry
  import opened Schedule
  import Cli

  const Variants: seq<Variant> := [Copy, Mac]

  function Buffers(v: Variant): seq<Buffer>
  {
    if v == Copy then [A, C] else [A, B, C]
  }

  /** The multiply-accumulate constant, then in single-work-item builds
      the element count. */
  function Scalars(m: LaunchModel, v: Variant): seq<Slot>
  {
    (if v == Copy then [] else [Float32(ConstValue)]) + (if m == SingleWorkItem then [Int32(Size)] else [])
  }

  /** The `clSetKernelArg` calls, in index order. */
  function Args(m: LaunchModel, v: Variant): seq<Slot>
    requires v in Variants
  {
    Mems(Buffers(v)) + Scalars(m, v)
  }

  lemma ScalarsByModel(v: Variant)
    ensures forall m, i :: 0 <= i < |Scalars(m, v)| ==> !Scalars(m, v)[i].Mem?
    ensures Without(Scalars(SingleWorkItem, v), {Size}) == Scalars(NDRange, v)
    ensures Binds(Scalars(SingleWorkItem, v), Size) && !Binds(Scalars(NDRange, v), Size)
  {
    var swi, ndr := Scalars(SingleWorkItem, v), Scalars(NDRange, v);
    assert swi[|swi| - 1] == Int32(Size);
    if v == Copy {
      assert ndr == [] && swi == [Int32(Size)];
      assert Without(swi, {Size}) == [] + Without([], {Size});
    } else {
      assert ndr == [Float32(ConstValue)] && swi == [Float32(ConstValue), Int32(Size)];
      assert swi[1..][1..] == [];
      assert Without(swi[1..], {Size}) == [] + Without([], {Size});
      assert ndr[0].p != Size;
    }
  }

  /** Copy binds A then C, the multiply-accumulate kernel A, B, C and then
      the constant: one buffer per reported stream, and the NDRange
      arguments are the single-work-item ones without the count. */
  lemma ArgsShape(m: LaunchModel, v: Variant)
    requires v in Variants
    ensures BufferSlots(Args(m, v)) == Buffers(v)
    ensures |BufferSlots(Args(m, v))| == Streams(v)
    ensures BuffersFirst(Args(m, v))
    ensures Args(NDRange, v) == Without(Args(SingleWorkItem, v), {Size})
    ensures Binds(Args(m, v), Size) <==> m == SingleWorkItem
  {
    ScalarsByModel(v);
    BuffersThenScalars(Buffers(v), Scalars(m, v));
    WithoutAppend(Mems(Buffers(v)), Scalars(SingleWorkItem, v), {Size});
    WithoutMems(Buffers(v), {Size});
    var t := Args(m, v);
    if m == SingleWorkItem {
      assert t[|t| - 1] == Int32(Size);
    }
  }

  /** The NDRange launch: work-groups of WGS and one work-item per float. */
  function StreamRange(b: Build, size: int): Range
  {
    Range(Dim3(b.wgs, 1, 1), Dim3(size, 1, 1))
  }

  /** Each kernel runs once, in the order copy then multiply-accumulate,
      whatever `-n` says: there is no warm-up and no repetition. */
  const Trace: seq<Event> := Pass(Standard, Copy) + Pass(Standard, Mac)

  lemma TraceShape()
    ensures Launches(Trace) == 2
    ensures Trace[0] == Launch(Copy, Whole, MainQueue) && Trace[2] == Launch(Mac, Whole, MainQueue)
    ensures Trace[1] == Finish(MainQueue) && Trace[3] == Finish(MainQueue) && |Trace| == 4
  {
    PassLaunches(Standard, Copy);
    PassLaunches(Standard, Mac);
    LaunchesAppend(Pass(Standard, Copy), Pass(Standard, Mac));
  }

  /** The bytes each report line divides by its time: two streams of
      `size` floats for copy, three for multiply-accumulate. */
  function ReportedBytes(o: Cli.Options, v: Variant): int
    requires v in Variants
  {
    (if v == Copy then 2 else 3) * o.elems * 4
  }

  /** The reported factor is the kernel's stream count, and with `-s m`
      every stream is m MiB. */
  lemma ReportedStreams(prog: string, m: string, atoi: string -> int, v: Variant)
    requires v in Variants
    ensures var r := Cli.Parse(Cli.StreamHost, [prog, "-s", m], atoi);
            r.Run? && ReportedBytes(r.opts, v) == Streams(v) * atoi(m) * 1048576
  {
    Cli.StreamSizeIsMiB(prog, m, atoi);
    var x := atoi(m);
    assert x * 1048576 / 4 * 4 == x * 1048576 by {
      assert x * 1048576 == (x * 262144) * 4;
    }
  }
}
