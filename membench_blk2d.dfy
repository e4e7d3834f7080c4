/** fpga-mem-bench-host-blk2d.c: the 2D blocked memory benchmark.

    A dim_x by dim_y grid of floats, with `pad` leading floats and `pad_x`
    floats in front of every row, is split into blocks of BLOCK_X columns
    that overlap by the halo; every block walks all dim_y rows.  The
    variants are those of the 1D benchmark without R1W0. */
module MemBenchBlk2D {
  import opened CInt
  import opened Layout
  import opened Padding
  import opened Kernels
  import opened Geometry
  import opened Schedule
  import Cli
  import Host2D
  import MemBenchStd

  const Variants: seq<Variant> := [R1W1, R2W1, R3W1, R2W2]

  function GridOf(o: Cli.Options): Grid
  {
    Grid(o.pad, o.padX, o.dimX, o.dimY)
  }

  // ---------------------------------------------------------------------
  // Sizes.

  /** The sizes the driver derives from the grid; `size_MiB` is
      recomputed from the grid and replaces the command-line value.  The
      product `(long)dim_x * (long)dim_y` meets `sizeof(float)`, so the
      byte count and the division back to floats are unsigned. */
  function SizeMiB2D(o: Cli.Options): int
  {
    ToSizeT(o.dimX * o.dimY * 4) / 1048576
  }

  function Sizes2D(o: Cli.Options): Sizes
  {
    var sizeB := ToLong(ToSizeT(o.dimX * o.dimY * 4));
    var padded := PaddedSize2D(GridOf(o));
    var bytes := ToLong(ToSizeT(padded * 4));
    Sizes(sizeB, ToSizeT(sizeB) / 4, padded, bytes, Div(bytes, 1048576))
  }

  /** The grid holds dim_x * dim_y floats when that product is
      non-negative (a negative one wraps around through `size_t`);
      `size_B` is four bytes a float whenever that fits in a `long`; the host
      buffers hold the lead padding and dim_y + 1 padded rows, the whole
      grid inside them. */
  lemma Sizes2DFacts(o: Cli.Options)
    ensures 0 <= Sizes2D(o).arraySize < Word / 4
    ensures 0 <= o.dimX * o.dimY < Word / 4 ==> Sizes2D(o).arraySize == o.dimX * o.dimY
    ensures -Word / 4 <= o.dimX * o.dimY < 0 ==> Sizes2D(o).arraySize == Word / 4 + o.dimX * o.dimY
    ensures IsLong(4 * (o.dimX * o.dimY)) ==> Sizes2D(o).sizeB == 4 * (o.dimX * o.dimY)
    ensures Sizes2D(o).paddedArraySize == o.pad + (o.dimY + 1) * (o.padX + o.dimX)
    ensures WellFormed(GridOf(o)) ==>
              o.dimX * o.dimY + o.pad + (o.dimY + 1) * o.padX <= Sizes2D(o).paddedArraySize
  {
    var n := o.dimX * o.dimY;
    assert o.dimX * o.dimY * 4 == 4 * n;
    var u := ToSizeT(4 * n);
    assert ToSizeT(ToLong(u)) == u;
    if -Word / 4 <= n < Word / 4 {
      QuarterOfSizeT(n);
    }
    if IsLong(4 * n) {
      LongRoundTrip(4 * n);
    }
    var p := o.padX + o.dimX;
    assert o.dimY * p + p == (o.dimY + 1) * p;
    assert (o.dimY + 1) * p == n + o.dimX + (o.dimY + 1) * o.padX;
  }

  // ---------------------------------------------------------------------
  // Setup and launch.

  datatype Plan = Plan(grid: Grid, sizes: Sizes, blocks: Blocks)

  /** The halo guard, then the block layout over the columns. */
  function Setup(b: Build, o: Cli.Options): (r: Checked<Plan>)
    requires ValidBuild(b)
    ensures r.Exits? <==> o.halo >= Div(b.blockX, 2)
    ensures r.Exits? ==> r.code == -1
    ensures !r.DividesByZero?
    ensures r.Ready? ==>
              r.value.grid == GridOf(o) && r.value.sizes == Sizes2D(o)
              && r.value.blocks == BlocksOf(o.dimX, b.blockX, o.halo) && r.value.blocks.valid >= 2
  {
    match GuardedBlocks(o.dimX, b.blockX, o.halo)
    case Ready(blocks) => Ready(Plan(GridOf(o), Sizes2D(o), blocks))
    case Exits(code) => Exits(code)
    case DividesByZero => DividesByZero
  }

  /** `-hw w` on its own is refused, with exit code -1, exactly when w is
      at least half a block. */
  lemma HaloFlagGuarded(prog: string, w: string, atoi: string -> int, b: Build)
    requires ValidBuild(b)
    ensures var r := Cli.Parse(Cli.Blk2DHost, [prog, "-hw", w], atoi);
            r.Run? && r.opts.halo == atoi(w)
            && (Setup(b, r.opts) == Exits(-1) <==> atoi(w) >= Div(b.blockX, 2))
  {
    var tb, toks, dflt := Cli.Flags(Cli.Blk2DHost), ["-hw", w], Cli.Defaults(Cli.Blk2DHost);
    assert [prog, "-hw", w][1..] == toks;
    assert toks[2..] == [] && toks[1] == w;
    assert Cli.Lookup(tb, toks[0]) == Cli.Some(Cli.Halo);
    assert Cli.ParseFrom(tb, toks, atoi, dflt) == Cli.ParseFrom(tb, [], atoi, Cli.SetValue(dflt, Cli.Halo, atoi(w)));
  }

  /** The scalars of the 2D kernels: `pad`, `pad_x`, `dim_x`, then in
      single-work-item builds `dim_y` and `loop_exit`, and `halo`. */
  function Scalars2D(m: LaunchModel): seq<Slot>
  {
    [Int32(Pad), Int32(PadX), Int32(DimX)]
    + (if m == SingleWorkItem then [Int32(DimY), Int64(LoopExit)] else [])
    + [Int32(Halo)]
  }

  /** The `clSetKernelArg` calls of one kernel; the buffers are those of
      the 1D benchmark, and both channel sides repeat the scalars. */
  function Args(m: LaunchModel, v: Variant, s: Side): seq<Slot>
  {
    Mems(MemBenchStd.Buffers(v, s)) + Scalars2D(m)
  }

  /** The single-work-item kernels walk the rows themselves and take
      dim_y and the loop bound; NDRange kernels get the rows from the
      second work dimension and take neither. */
  lemma Scalars2DByModel()
    ensures Without(Scalars2D(SingleWorkItem), {DimY, LoopExit}) == Scalars2D(NDRange)
    ensures Binds(Scalars2D(SingleWorkItem), DimY) && Binds(Scalars2D(SingleWorkItem), LoopExit)
    ensures !Binds(Scalars2D(NDRange), DimY) && !Binds(Scalars2D(NDRange), LoopExit)
    ensures forall m, i :: 0 <= i < |Scalars2D(m)| ==> !Scalars2D(m)[i].Mem?
    ensures forall m :: Scalars2D(m)[|Scalars2D(m)| - 1] == Int32(Halo)
  {
    var swi, ndr := Scalars2D(SingleWorkItem), Scalars2D(NDRange);
    assert swi[3] == Int32(DimY) && swi[4] == Int64(LoopExit);
    assert ndr == [Int32(Pad), Int32(PadX), Int32(DimX), Int32(Halo)];
    forall i | 0 <= i < |ndr| ensures ndr[i].p != LoopExit && ndr[i].p != DimY {
    }
    assert swi[1..][1..][1..][1..][1..][1..] == [];
  }

  lemma ArgsShape(m: LaunchModel, v: Variant, s: Side)
    requires v in Variants
    ensures BufferSlots(Args(m, v, s)) == MemBenchStd.Buffers(v, s)
    ensures BuffersFirst(Args(m, v, s))
    ensures |BufferSlots(Args(m, v, Whole))| == Streams(v)
    ensures Args(NDRange, v, s) == Without(Args(SingleWorkItem, v, s), {DimY, LoopExit})
    ensures Args(m, v, s)[|Args(m, v, s)| - 1] == Int32(Halo)
  {
    ArgsBuffers(m, v, s);
    ArgsBuffers(m, v, Whole);
    ArgsScalars(m, v, s);
  }

  /** The buffer half of an argument list. */
  lemma ArgsBuffers(m: LaunchModel, v: Variant, s: Side)
    requires v in Variants
    ensures BufferSlots(Args(m, v, s)) == MemBenchStd.Buffers(v, s)
    ensures BuffersFirst(Args(m, v, s))
    ensures s == Whole ==> |MemBenchStd.Buffers(v, s)| == Streams(v)
  {
    ScalarsAreNoBuffers(m);
    BuffersThenScalars(MemBenchStd.Buffers(v, s), Scalars2D(m));
    if s == Whole {
      WholeIsStreams(v);
    }
  }

  lemma ScalarsAreNoBuffers(m: LaunchModel)
    ensures forall i :: 0 <= i < |Scalars2D(m)| ==> !Scalars2D(m)[i].Mem?
  {
    Scalars2DByModel();
  }

  /** A standard 2D kernel binds one buffer per reported stream. */
  lemma WholeIsStreams(v: Variant)
    requires v in Variants
    ensures |MemBenchStd.Buffers(v, Whole)| == Streams(v)
  {
    assert v == R1W1 || v == R2W1 || v == R3W1 || v == R2W2;
  }

  /** The scalar half: NDRange drops dim_y and loop_exit, halo is last. */
  lemma ArgsScalars(m: LaunchModel, v: Variant, s: Side)
    ensures Args(NDRange, v, s) == Without(Args(SingleWorkItem, v, s), {DimY, LoopExit})
    ensures Args(m, v, s)[|Args(m, v, s)| - 1] == Int32(Halo)
  {
    Scalars2DByModel();
    WithoutAppend(Mems(MemBenchStd.Buffers(v, s)), Scalars2D(SingleWorkItem), {DimY, LoopExit});
    WithoutMems(MemBenchStd.Buffers(v, s), {DimY, LoopExit});
  }

  /** The launch: BLOCK_X / VEC work-items per block and one work-item row
      per grid row; the single-work-item loop bound is the NDRange global
      size, so both walk the same index space. */
  lemma LaunchAgrees(b: Build, p: Plan)
    requires ValidBuild(b)
    ensures LoopExit2D(b, p.blocks, p.grid.dimY)
            == Range2D(b, p.blocks, p.grid.dimY).global.x * Range2D(b, p.blocks, p.grid.dimY).global.y
    ensures Range2D(b, p.blocks, p.grid.dimY).global.y == p.grid.dimY
  {
    LoopExitIsGlobalSize2D(b, p.blocks, p.grid.dimY);
  }

  // ---------------------------------------------------------------------
  // Report.

  /** `totalSize_B`: the formula of the 1D benchmark applied to the
      columns, times dim_y rows, times `sizeof(float)` and stored in a
      `long`. */
  function TotalBytes(b: Build, o: Cli.Options): int
    requires ValidBlock(b.blockX, o.halo) != 0
  {
    ToLong(ToSizeT(EffectiveAsWritten(o.dimX, b.blockX, o.halo) * o.dimY * 4))
  }

  function Redundancy(b: Build, o: Cli.Options): int
    requires ValidBlock(b.blockX, o.halo) != 0
  {
    TotalBytes(b, o) - Sizes2D(o).sizeB
  }

  lemma NoHaloNoRedundancy(b: Build, o: Cli.Options)
    requires ValidBuild(b) && o.halo == 0 && o.dimX >= 0
    ensures Redundancy(b, o) == 0
  {
    AsWrittenNoHalo(o.dimX, b.blockX);
  }

  /** The row count times `dim_y` is an `int` product in C, while `size_B`
      multiplies as `long`: with halo 0 and a 46341 x 46341 grid the first
      leaves the `int` range and the second does not, so C's
      `redundancy_B` is then not the 0 that NoHaloNoRedundancy gives the
      unbounded product. */
  lemma RowProductLeavesInt(b: Build, o: Cli.Options)
    requires ValidBuild(b) && o.halo == 0 && o.dimX == 46341 && o.dimY == 46341
    ensures !IsInt(EffectiveAsWritten(o.dimX, b.blockX, o.halo) * o.dimY)
    ensures IsLong(o.dimX * o.dimY * 4)
  {
    AsWrittenNoHalo(o.dimX, b.blockX);
  }

  /** With two column blocks or more, the reported bytes are every row's
      block coverage, overlaps counted again. */
  lemma TotalIsCoverage(b: Build, o: Cli.Options)
    requires ValidBuild(b) && o.dimX >= 0 && 0 <= o.halo && 3 * o.halo <= b.blockX
    requires ValidBlock(b.blockX, o.halo) > 0
    requires NumBlocks(o.dimX, ValidBlock(b.blockX, o.halo)) >= 2
    ensures var v := ValidBlock(b.blockX, o.halo);
            TotalBytes(b, o) == ToLong(ToSizeT(Covered(o.dimX, v, o.halo, NumBlocks(o.dimX, v)) * o.dimY * 4))
  {
    AsWrittenIsCoverage(o.dimX, b.blockX, o.halo);
  }

  /** One warm-up pass of R1W1, then iter passes of every variant. */
  function Trace(b: Build, o: Cli.Options): seq<Event>
  {
    Session(b.topology, R1W1, Variants, o.iter)
  }

  lemma TraceLaunches(b: Build, o: Cli.Options)
    ensures Launches(Trace(b, o)) == KernelsPerPass(b.topology) * (1 + 4 * (if o.iter > 0 then o.iter else 0))
  {
    SessionLaunches(b.topology, R1W1, Variants, o.iter);
  }

  // ---------------------------------------------------------------------
  // Verification.

  /** The `--verify` step of one variant, over every grid position. */
  method Verify<T(==)>(v: Variant, a: array<T>, b: array<T>, c: array<T>, d: array<T>,
                       g: Grid, add: (T, T) -> T, close: (T, T) -> bool)
    returns (success: bool)
    requires v in Variants && WellFormed(g)
    requires a.Length == PaddedSize2D(g) && b.Length == PaddedSize2D(g)
    requires c.Length == PaddedSize2D(g) && d.Length == PaddedSize2D(g)
    ensures v == R1W1 ==> (success <==> Host2D.All(g, Host2D.SameAt(a[..], d[..])))
    ensures v == R2W1 ==> (success <==> Host2D.All(g, Host2D.Sum2At(a[..], b[..], d[..], add, close)))
    ensures v == R3W1 ==> (success <==> Host2D.All(g, Host2D.Sum3At(a[..], b[..], c[..], d[..], add, close)))
    ensures v == R2W2 ==>
              (success <==> Host2D.All(g, Host2D.SameAt(a[..], c[..])) && Host2D.All(g, Host2D.SameAt(b[..], d[..])))
  {
    if v == R1W1 {
      success := Host2D.CheckCopy(a, d, g);
    } else if v == R2W1 {
      success := Host2D.CheckSum2(a, b, d, g, add, close);
    } else if v == R3W1 {
      success := Host2D.CheckSum3(a, b, c, d, g, add, close);
    } else {
      success := Host2D.CheckSwap(a, b, c, d, g);
    }
  }
}
