# FPGAMemBench host drivers in Dafny

FPGAMemBench measures the memory bandwidth of FPGAs (and of CPUs and GPUs)
through OpenCL. It has five host drivers:

- `fpga-mem-bench-host-std.c` is the 1D blocked benchmark with the R1W0, R1W1, R2W1, R3W1 and R2W2 kernels.
- `fpga-mem-bench-host-blk2d.c` is its 2D counterpart.
- `fpga-stream-host-std.c` is a 1D blocked stream benchmark with r1w1 and r2w1.
- `fpga-stream-host-sch.c` is a serial channel benchmark.
- `fpga-stream.c` is the legacy copy / multiply-accumulate benchmark.

Inside each driver's `main` sits a block of integer bookkeeping. It fixes
what the drivers launch and what their reports claim. This project models
that block:

- the command-line parser;
- the halo guard;
- the buffer sizes and the padded index maps;
- the block layout (`valid_blk_x`, `last_x`, `num_blk_x`, `loop_exit`, the NDRange sizes);
- the kernel argument lists;
- the host fill and verify loops;
- the launch sequence;
- the byte counts behind each bandwidth line (`totalSize_B` with its `extra_halo_x` correction, and the stream multipliers).

The compile-time switches are parameters rather than separate models. The
`Kernels.Build` datatype carries:

- `STD`/`CHSTD` and `BLK2D`/`CHBLK2D`, as `Topology`;
- `NDR`, as `LaunchModel`;
- `INTEL_FPGA`;
- `BLOCK_X`, `VEC` and `WGS`.

Modules, one per file:

| module | models |
|---|---|
| `CInt` | C's truncating `/` and `%` |
| `Layout` | `valid_blk_x`, `last_x`, `num_blk_x`, `extra_halo_x`, the effective element count, and a block-coverage reference it is checked against |
| `Padding` | the 1D (`pad + i`) and 2D (`pad + i*(pad_x+dim_x) + (pad_x+j)`) index maps, their inverses, and the contents after a fill |
| `Kernels` | the build switches, the kernel variants, the typed argument slots and the stream counts |
| `Cli` | the `while (arg < argc)` parser, generic over a per-driver flag table |
| `Geometry` | the guarded and unguarded block layout, the launch ranges and the 1D sizes |
| `Host1D`, `Host2D` | the fill and verify loops over arrays |
| `Schedule` | the launch trace: warm-up, then `iter` timed passes of each variant |
| `MemBenchStd`, `MemBenchBlk2D`, `StreamStd`, `StreamSch`, `StreamCopyMac` | one module per driver |

Modelling choices for values the drivers get from outside:

- `atoi` is a parameter `string -> int`.
- The random fill values are arbitrary functions of the element's position.
- The float tolerance test of R2W1, R3W1 and r2w1 is a parameter `close`.
- Float addition is a parameter `add`.
- The OpenMP loops are sequential; their iterations are independent apart from clearing one shared `success` flag.

## Model

| member | source | states |
|---|---|---|
| CInt.Truncation | fpga-mem-bench-host-std.c:455-456 | C division: `a == (a/b)*b + a%b`; the quotient rounds toward zero; the remainder is smaller than the divisor and takes the dividend's sign |
| CInt.NonNegativeAgree | fpga-mem-bench-host-std.c:455-456 | for a non-negative dividend and a positive divisor, C's `/` and `%` agree with Euclidean division |
| CInt.DivExact | fpga-mem-bench-host-std.c:193 | C's signed division of an exact multiple: `(k*b)/b == k` and `(k*b)%b == 0` for every k, negative k included, as when `padded_size_Byte` is negative |
| CInt.ToSizeT | fpga-mem-bench-host-std.c:190 | a `long` converted to `size_t` (where `size_B` meets `sizeof(float)`) lies in `[0, 2^64)`, is unchanged when non-negative, and is itself plus 2^64 when negative |
| CInt.ToLong | fpga-mem-bench-host-std.c:192 | an unsigned 64-bit result stored in a `long` lies in the `long` range, differs from the unsigned value by 0 or 2^64, and is negative exactly when the value is at least 2^63 |
| CInt.LongRoundTrip | fpga-mem-bench-host-blk2d.c:202 | a `long` sent through `size_t` and back is unchanged |
| CInt.QuarterOfSizeT | fpga-mem-bench-host-std.c:190 | `(size_t)(4*m) / 4` is m for a non-negative m and `2^62 + m` for a negative one |
| Layout.HaloGuardExact | fpga-mem-bench-host-blk2d.c:194-198 | for a positive BLOCK_X, `halo < BLOCK_X/2` holds iff `valid_blk_x = BLOCK_X - 2*halo >= 2`; with a non-negative halo, `valid_blk_x <= BLOCK_X` |
| Layout.RoundUp | fpga-mem-bench-host-blk2d.c:450-452 | `last_x` is the least multiple of `valid_blk_x` that is at least n, and is below `n + valid_blk_x`; `num_blk_x * valid_blk_x == last_x`; `num_blk_x` is the ceiling of `n / valid_blk_x`; `(num_blk_x-1)*valid_blk_x < n <= num_blk_x*valid_blk_x` |
| Layout.ExtraHaloBounds | fpga-mem-bench-host-blk2d.c:982 | `extra_halo_x` is 0 or lies strictly between 0 and halo |
| Layout.ExtraIsShortfall | fpga-mem-bench-host-blk2d.c:982 | `extra_halo_x` is the part of the halo that the last block's columns, 1 to `valid_blk_x` of them, fall short of |
| Layout.EffectiveClosedForm | fpga-mem-bench-host-blk2d.c:982-983 | for every number of blocks, none and one included, the per-row count in `totalSize_B` equals `n + 2*halo*(num_blk_x-1) - extra_halo_x`; with two blocks or more it also equals the corrected count |
| Layout.CoveredForm | fpga-mem-bench-host-blk2d.c:983 | the positions read by k ≥ 2 blocks clipped to [0, n) number `n + (2k-3)*halo + min(halo, t)`, where t is the last block's share |
| Layout.AsWrittenIsCoverage | fpga-mem-bench-host-std.c:994-995 | with at least two blocks and `3*halo <= BLOCK_X`, the drivers' count equals the positions the blocks read, each overlap counted again |
| Layout.EffectiveIsCoverage | fpga-mem-bench-host-std.c:994-995 | when `3*halo <= BLOCK_X`, the corrected count equals the coverage for any number of blocks, zero and one included |
| Layout.WideHaloExceedsCoverage | fpga-mem-bench-host-std.c:994-995 | the guard (std.c:182-186) admits halo 400 with BLOCK_X = 1024; a 300-position row then has two blocks that read 600 positions, while the drivers' count and the corrected count both give 776 |
| Layout.EffectiveBounds | fpga-mem-bench-host-std.c:994-996 | the corrected count is at least n, and exactly n without a halo: redundancy is never negative |
| Layout.AsWrittenNoHalo | fpga-mem-bench-host-std.c:994-996 | with halo 0 the drivers' count is exactly n, so `redundancy_B` is 0 |
| Layout.SingleBlockUndercount | fpga-mem-bench-host-blk2d.c:982-983 | dim_x = 3, halo = 16, BLOCK_X = 1024: the formula gives -10 positions per row; the single block reads 3, and the corrected count is 3 |
| Layout.EmptyExtentUndercount | fpga-mem-bench-host-std.c:994-995 | an empty extent (n = 0) with halo 16 gives -32; there are no blocks, and the corrected count is 0 |
| Padding.Index1DBijective | fpga-mem-bench-host-std.c:406-417 | `i -> pad + i` maps `[0, n)` onto the mapped indices `[pad, pad + n)` of the padded buffer and back |
| Padding.Filled1DContents | fpga-mem-bench-host-std.c:406-417 | after a 1D fill, `x[pad+i]` holds element i's value; the leading `pad` floats are unchanged |
| Padding.Index2D | fpga-mem-bench-host-blk2d.c:204 | every grid position maps into `[pad + pad_x, pad + dim_y*(pad_x+dim_x))`, inside `padded_array_size` with one padded row to spare |
| Padding.Index2DInjective | fpga-mem-bench-host-blk2d.c:406 | two grid positions with the same host index are the same position |
| Padding.DecodeIndex | fpga-mem-bench-host-blk2d.c:406 | the row and column recovered from a position's host index are that position |
| Padding.EncodeMapped | fpga-mem-bench-host-blk2d.c:406 | every mapped host index is the image of its decoded position |
| Padding.Filled2DContents | fpga-mem-bench-host-blk2d.c:398-413 | after a 2D fill, every grid position holds its value; every unmapped index is unchanged |
| Kernels.StreamsAreReadsPlusWrites | fpga-mem-bench-host-std.c:998-1003 | each report's multiplier (1, 2, 3, 4, 4; copy 2, mac 3) is the number of arrays the kernel reads plus the number it writes |
| Kernels.BuffersThenScalars | fpga-mem-bench-host-std.c:465-540 | an argument list made of buffers followed by scalars binds exactly those buffers, and they occupy the leading slots |
| Kernels.Scalars1DByModel | fpga-mem-bench-host-std.c:465-510 | the 1D scalars are `pad`, `cl_long array_size`, `halo`, and the single-work-item list alone also binds `cl_long loop_exit`, ahead of `halo`; no scalar slot is a buffer |
| Cli.SetValue | fpga-mem-bench-host-blk2d.c:141-170 | a value flag sets its own option (`-s` of fpga-stream.c stores `m*256*1024`) and leaves every other option and switch alone |
| Cli.ParseArgs | fpga-mem-bench-host-std.c:137-180 | the token loop returns the outcome of the left-to-right parse |
| Cli.ParseRendered | fpga-mem-bench-host-std.c:137-180 | a line of accepted flags parses by applying them in order: values take two tokens, switches one |
| Cli.WellFormedLineRuns | fpga-mem-bench-host-blk2d.c:139-192 | a command line of accepted flags runs with the driver's defaults updated by those flags, left to right |
| Cli.HelpExitsZero | fpga-mem-bench-host-blk2d.c:181-185 | after any accepted prefix, `-h` or `--help` exits with 0 whatever follows |
| Cli.UnknownExitsMinusOne | fpga-mem-bench-host-blk2d.c:186-191 | after any accepted prefix, an unknown token exits with -1 whatever follows |
| Cli.TrailingValueFlag | fpga-mem-bench-host-blk2d.c:141-144 | a value flag that is the last token gives the explicit `MissingValue` outcome |
| Cli.OthersKeepField | fpga-mem-bench-host-std.c:137-180 | an option that no item names keeps its value |
| Cli.ApplyAllAppend | fpga-mem-bench-host-std.c:137-180 | parsing two accepted segments one after the other is the same as parsing their concatenation |
| Cli.LastOccurrenceWins | fpga-mem-bench-host-blk2d.c:139-192 | when a value flag occurs again later, the last occurrence sets the option |
| Cli.AbsentFlagKeepsDefault | fpga-mem-bench-host-blk2d.c:119-126 | an option whose flag never occurs keeps the driver's default: 5120 by 5120 and `iter` 1 for the 2D driver, 100 MiB and `iter` 1 for the 1D ones, 100*256*1024 elements for fpga-stream.c |
| Cli.HelpEverywhere | fpga-stream.c:125-128 | every driver accepts `-h` and `--help` as help |
| Cli.Blk2DFlags | fpga-mem-bench-host-blk2d.c:141-154 | the 2D driver takes `-x` and `-pad_x` and has no `-s` |
| Cli.StdFlags | fpga-mem-bench-host-std.c:139-158 | the 1D drivers take `-s` (MiB) and no `-x`; fpga-stream-host-std.c takes `-hw`; fpga-stream-host-sch.c does not |
| Cli.StreamFlags | fpga-stream.c:114-123 | fpga-stream.c takes `-s` (elements) and `-n`, and not `-hw`, `-pad` or `--verify` |
| Cli.SerialRejectsHalo | fpga-stream-host-sch.c:121-159 | `-hw w` exits with -1 in the serial channel driver |
| Cli.StreamSizeIsMiB | fpga-stream.c:114-118 | `-s m` selects `m * 2^20 / 4` floats, which is m MiB |
| Geometry.GuardedBlocks | fpga-mem-bench-host-std.c:182-186 | it exits with -1 iff `halo >= BLOCK_X/2` and never divides by zero; otherwise `valid_blk_x >= 2`, `last_x - valid_blk_x < n <= last_x` and `num_blk_x * valid_blk_x == last_x` |
| Geometry.UnguardedBlocks | fpga-stream-host-std.c:364-366 | without the guard, the layout divides by zero exactly when `valid_blk_x == 0`, and otherwise computes the same blocks |
| Geometry.LoopExitIsGlobalSize1D | fpga-mem-bench-host-std.c:459-463 | the single-work-item `loop_exit` equals the NDRange global size `total_index`, which is `local[0] * num_blk_x`, with y sizes of 1 |
| Geometry.LoopExitIsGlobalSize2D | fpga-mem-bench-host-blk2d.c:455-463 | `loop_exit == global[0] * global[1]` and `global[0] == local[0] * num_blk_x`; the channelized build always has `local[1] == dim_y`, the standard build without INTEL_FPGA has 1 |
| Geometry.WorkCoversExtent | fpga-mem-bench-host-std.c:459-463 | when VEC divides BLOCK_X, the work-items sweep `num_blk_x * BLOCK_X` positions, at least n plus two halos per block |
| Geometry.Sizes1DFacts | fpga-mem-bench-host-std.c:189-193 | `size_B == size_MiB * 2^20`; `array_size` lies in `[0, 2^62)`; for a non-negative `int` size_MiB, `array_size == size_MiB * 2^18` and `size_B == 4 * array_size`; for a negative one the unsigned division gives `2^62 + size_MiB * 2^18`; `padded_array_size == array_size + pad`; for non-negative `int` sizes `padded_size_MiB` is size_MiB plus the whole MiB the padding adds |
| Geometry.NegativeSizeWraps | fpga-mem-bench-host-std.c:189-193 | `-s -1` gives `array_size = 2^62 - 2^18` floats, `padded_size_Byte = -2^20` and `padded_size_MiB = -1` |
| Host1D.FillABC | fpga-mem-bench-host-std.c:406-417 | A, B and C get their values at `pad+i` for `i < array_size`; every other index is unchanged |
| Host1D.FillAB | fpga-stream-host-std.c:323-333 | A and B get their values at `pad+i`; C is never written (also fpga-stream-host-sch.c:245-255) |
| Host1D.FillUnpadded | fpga-stream.c:194-201 | hostA, then hostB, hold their values at every `i < size`; hostC is not written |
| Host1D.CheckCopy | fpga-mem-bench-host-std.c:764-772 | success iff `x[pad+i] == y[pad+i]` for every `i < array_size` (R1W1; fpga-stream-host-std.c:525-533 and fpga-stream-host-sch.c:336-344 too) |
| Host1D.CheckSwap | fpga-mem-bench-host-std.c:966-974 | R2W2: success iff A equals C and B equals D at every mapped index |
| Host1D.CheckSum2 | fpga-mem-bench-host-std.c:831-840 | R2W1: success iff D is close to A + B at every mapped index (also r2w1 in fpga-stream-host-std.c:589-596) |
| Host1D.CheckSum3 | fpga-mem-bench-host-std.c:898-906 | R3W1: success iff D is close to A + B + C at every mapped index |
| Host1D.AgreeIgnoresPadding | fpga-mem-bench-host-std.c:764-772 | the verdict reads only indices past the padding: buffers that agree there get the same verdict |
| Host1D.CopyOfFillPasses | fpga-mem-bench-host-std.c:764-772 | a buffer filled with A's values passes the R1W1 check against A, whatever its padding holds |
| Host1D.MismatchFails | fpga-mem-bench-host-std.c:766-770 | a single mismatching element fails the check |
| Host2D.FillABC | fpga-mem-bench-host-blk2d.c:398-413 | the nested loops leave A, B and C as the 2D fill specifies: values at mapped indices, everything else unchanged |
| Host2D.CheckCopy | fpga-mem-bench-host-blk2d.c:736-749 | R1W1: success iff A equals D at every grid position |
| Host2D.CheckSum2 | fpga-mem-bench-host-blk2d.c:806-820 | R2W1: success iff D is close to A + B at every grid position |
| Host2D.CheckSum3 | fpga-mem-bench-host-blk2d.c:879-890 | R3W1: success iff D is close to A + B + C at every grid position |
| Host2D.CheckSwap | fpga-mem-bench-host-blk2d.c:950-963 | R2W2: success iff A equals C and B equals D at every grid position |
| Host2D.AllMeansEveryPosition | fpga-mem-bench-host-blk2d.c:738-748 | the row-by-row verdict means the per-index test holds at every `(i, j)` with `i < dim_y`, `j < dim_x` |
| Host2D.VerdictIgnoresPadding | fpga-mem-bench-host-blk2d.c:742-743 | only mapped indices are read: buffers equal there get the same verdict |
| Host2D.CopyOfFillPasses | fpga-mem-bench-host-blk2d.c:398-413 | a buffer filled with A's values passes the R1W1 check against A |
| Host2D.MismatchFails | fpga-mem-bench-host-blk2d.c:743-746 | a single mismatching grid position fails the check |
| Schedule.TimedRuns | fpga-mem-bench-host-std.c:686-710 | the timed loop issues exactly `iter` passes of the kernel, none for `iter <= 0` |
| Schedule.PassOrder | fpga-mem-bench-host-std.c:692-706 | a standard pass launches the kernel on the one queue and then finishes it; a channelized pass launches the read side, then the write side, and finishes the write queue |
| Schedule.RepeatLaunches | fpga-mem-bench-host-std.c:686-710 | k passes issue k times the launches of one pass |
| Schedule.SessionLaunches | fpga-mem-bench-host-std.c:661-710 | warm-up plus timed loops issue `kernels per pass * (1 + variants * max(iter, 0))` launches |
| MemBenchStd.ArgsShape | fpga-mem-bench-host-std.c:465-657 | every kernel binds its buffers first: inputs then outputs when standard, inputs on the read side, D (C and D for R2W2) on the write side; `loop_exit` is bound iff single-work-item, except on the bare R1W0 write side, which binds only D |
| MemBenchStd.NDRangeDropsLoopExit | fpga-mem-bench-host-std.c:465-540 | each NDRange argument list is the single-work-item list without `loop_exit` |
| MemBenchStd.SidesSplitBuffers | fpga-mem-bench-host-std.c:554-657 | the read side binds only A/B/C, the write side only C/D, and a standard kernel binds the read side's buffers followed by the write side's; one buffer per reported stream, except R1W0, which also takes D |
| MemBenchStd.Setup | fpga-mem-bench-host-std.c:182-193 | exits with -1 iff `halo >= BLOCK_X/2` and never divides by zero; otherwise the 1D sizes and the blocks over `array_size`, which is `size_MiB * 2^18` for a non-negative `int` size, with `valid_blk_x >= 2` |
| MemBenchStd.NoHaloNoRedundancy | fpga-mem-bench-host-std.c:994-996 | with halo 0 and a non-negative `int` size, `redundancy_B == 0` |
| MemBenchStd.TotalIsCoverage | fpga-mem-bench-host-std.c:994-995 | with two blocks or more and `3*halo <= BLOCK_X`, `totalSize_B` is four bytes per position the blocks read, converted to `long` as C converts it |
| MemBenchStd.TraceLaunches | fpga-mem-bench-host-std.c:661-980 | one R1W0 warm-up pass and `iter` passes of each of the five kernels |
| MemBenchStd.Verify | fpga-mem-bench-host-std.c:713-974 | R1W0 has no check; R1W1, R2W1, R3W1 and R2W2 give the verdicts of their checks on the padded arrays |
| MemBenchBlk2D.Sizes2DFacts | fpga-mem-bench-host-blk2d.c:201-206 | `array_size` lies in `[0, 2^62)`; it is `dim_x * dim_y` when that product is in `[0, 2^62)` and `2^62 + dim_x*dim_y` when it is negative, as the unsigned division gives; `size_B == 4*dim_x*dim_y` whenever that fits in a `long`; `padded_array_size == pad + (dim_y+1)*(pad_x+dim_x)`, which holds the grid, `pad` and every row's `pad_x` |
| MemBenchBlk2D.Setup | fpga-mem-bench-host-blk2d.c:194-206 | exits with -1 iff `halo >= BLOCK_X/2`; otherwise the grid, the sizes, and the blocks over `dim_x`, with `valid_blk_x >= 2` |
| MemBenchBlk2D.HaloFlagGuarded | fpga-mem-bench-host-blk2d.c:166-198 | `-hw w` parses to halo `atoi(w)`, and setup then exits with -1 iff `atoi(w) >= BLOCK_X/2` |
| MemBenchBlk2D.Scalars2DByModel | fpga-mem-bench-host-blk2d.c:465-538 | the scalars are `pad`, `pad_x`, `dim_x`, then `dim_y` and `cl_long loop_exit` only in single-work-item builds, with `halo` last |
| MemBenchBlk2D.ArgsShape | fpga-mem-bench-host-blk2d.c:553-667 | buffers first, those of the 1D benchmark per side; one buffer per stream; the NDRange list is the single-work-item list without `dim_y` and `loop_exit`; `halo` is last |
| MemBenchBlk2D.LaunchAgrees | fpga-mem-bench-host-blk2d.c:455-498 | `loop_exit` is the NDRange global size `global[0] * global[1]`, with `global[1] == dim_y` |
| MemBenchBlk2D.NoHaloNoRedundancy | fpga-mem-bench-host-blk2d.c:982-984 | with halo 0 and a non-negative `dim_x`, `redundancy_B == 0` for every `dim_y`, with the row count times `dim_y` taken as an unbounded product; C's agrees while `dim_x*dim_y` stays within `int` range |
| MemBenchBlk2D.RowProductLeavesInt | fpga-mem-bench-host-blk2d.c:983 | with halo 0 and a 46341 x 46341 grid, the `int` product `(...) * dim_y` of `totalSize_B` leaves the `int` range while the `long` product of `size_B` (blk2d.c:202) does not |
| MemBenchBlk2D.TotalIsCoverage | fpga-mem-bench-host-blk2d.c:982-983 | with two column blocks or more and `3*halo <= BLOCK_X`, `totalSize_B` is each row's block coverage times `dim_y`, four bytes each, converted to `long` as C converts it |
| MemBenchBlk2D.TraceLaunches | fpga-mem-bench-host-blk2d.c:671-960 | one R1W1 warm-up pass and `iter` passes of each of the four kernels |
| MemBenchBlk2D.Verify | fpga-mem-bench-host-blk2d.c:736-963 | each variant's verdict is that of its check over every grid position |
| StreamStd.ArgsShape | fpga-stream-host-std.c:368-459 | r1w1 takes A, C and r2w1 takes A, B, C, then `pad`, `array_size`, `[loop_exit]`, `halo`; the read side takes the inputs, the write side C, both with the same scalars |
| StreamStd.SetupAsWritten | fpga-stream-host-std.c:364-366 | the unguarded layout divides by zero iff `BLOCK_X - 2*halo == 0`, and otherwise computes the blocks over `array_size`, which is `size_MiB * 2^18` for a non-negative `int` size |
| StreamStd.Setup | fpga-stream-host-std.c:364-366 | with the memory benchmark's guard in front, it exits iff `halo >= BLOCK_X/2` and never divides by zero |
| StreamStd.HaloFlagAccepted | fpga-stream-host-std.c:150-154 | `-hw w` is accepted for any w and sets halo to `atoi(w)` |
| StreamStd.HalfBlockHaloDividesByZero | fpga-stream-host-std.c:364-366 | with BLOCK_X = 1024, `-hw 512` passes the command line and the layout divides by zero, where the guarded setup exits with -1 |
| StreamStd.ReportedStreams | fpga-stream-host-std.c:612-615 | without a halo and for a non-negative `int` size, r1w1 reports 2 and r2w1 reports 3 times `size_B` |
| StreamStd.TraceLaunches | fpga-stream-host-std.c:462-570 | one r1w1 warm-up pass and `iter` passes of each of the two kernels |
| StreamStd.Verify | fpga-stream-host-std.c:525-596 | r1w1 succeeds iff C equals A, r2w1 iff C is close to A + B, at every mapped index |
| StreamSch.ArgsShape | fpga-stream-host-sch.c:277-293 | the read side takes A and `pad`, the write side C and `pad`; single-work-item builds append `cl_long array_size`; B is neither uploaded nor bound |
| StreamSch.RangeCoversArray | fpga-stream-host-sch.c:280-281 | with a work-group size of 64 and `array_size/VEC` work-items, the work-items cover every whole vector and miss only `array_size % VEC` floats |
| StreamSch.ReportedStreams | fpga-stream-host-sch.c:358-360 | the channel line counts `size_B = size_MiB * 2^20` bytes and the memory line twice that |
| StreamSch.TraceLaunches | fpga-stream-host-sch.c:296-321 | one warm-up pass and `iter` timed passes of the read/write pair, two launches each |
| StreamCopyMac.ScalarsByModel | fpga-stream.c:229-247 | the multiply-accumulate kernel takes the float constant; the single-work-item kernels alone take `size` as a trailing `cl_int` |
| StreamCopyMac.ArgsShape | fpga-stream.c:229-247 | copy binds A, C and mac binds A, B, C in the leading slots, one per reported stream; the NDRange list is the single-work-item list without `size` |
| StreamCopyMac.TraceShape | fpga-stream.c:249-277 | copy, then mac, each launched and finished exactly once, whatever `-n` says |
| StreamCopyMac.ReportedStreams | fpga-stream.c:283-284 | with `-s m`, the copy line counts 2 and the mac line 3 streams of m MiB |

## Left out

- OpenCL calls are not modelled: device and context setup, program and kernel creation, buffer creation, uploads and readbacks. The model records only which buffers are uploaded and the launch/finish trace. A readback is taken to deliver the device buffer.
- The kernels are not modelled. Their source is not part of this model, so whether a kernel's output passes its check is not claimed.
- Timing, averages and the floating-point GB/s, GiB/s and redundancy-percentage figures are left out. The model keeps the integer byte counts they divide.
- The R2W1, R3W1 and r2w1 float tolerance (`fabs(...) > 0.001`) is the parameter `close`. Float addition is the parameter `add`.
- `rand`, `rand_r` and `srand` are not modelled; the filled values are arbitrary functions of the position. The multiply-accumulate constant of fpga-stream.c is an argument slot, with no value.
- OpenMP is not modelled: the loops run sequentially in index order.
- printf, usage text and mismatch messages are left out.
- The conversions through `size_t` are modelled, in `CInt.ToSizeT` and `CInt.ToLong`. The model carries them out wherever a `long` meets `sizeof(float)`: `array_size`, `padded_size_Byte`, `totalSize_B`, and the 2D `size_B` and `size_MiB`.
- Apart from these conversions, C's 32- and 64-bit integer widths are not modelled; the arithmetic is unbounded. A large `int` product such as `num_blk_x * BLOCK_X`, `dim_y * (pad_x + dim_x)` or `m*256*1024` would overflow in C, and that is not modelled.
- MemBenchBlk2D.NoHaloNoRedundancy and MemBenchBlk2D.TotalIsCoverage take the product `(...) * dim_y` of `totalSize_B` (blk2d.c:983) unbounded. In C it is an `int` product, which overflows once it passes 2^31-1, for instance at halo 0 with `dim_x = dim_y = 46341` (RowProductLeavesInt), while `size_B` is a `long` product; so neither lemma describes C's report for grids that large.
- Narrowing a `long` into an `int` is not modelled either: `num_blk_x`, `padded_size_MiB`, and the 2D `size_MiB`.
- MemBenchStd.NoHaloNoRedundancy requires a non-negative `int` size. For a negative `-s`, the wrapped `array_size` (about 2^62) makes C's `int num_blk_x` overflow, and the model does not narrow it, so the C report is not claimed for negative sizes.
- StreamStd.ReportedStreams requires a non-negative `int` size, for the same reason.
- `atoi` is a parameter.
- A value flag given as the last token makes C pass `argv[argc]`, which is NULL, to `atoi`, which is undefined behaviour. The model returns an explicit `MissingValue` outcome instead.
- The `#if`/`#elif` nesting of fpga-stream-host-std.c is broken at lines 90 and 405. The model gives each build its evident argument lists and launches.
- Host2D.CheckCopy, CheckSum2, CheckSum3, CheckSwap and FillABC require non-negative `pad`, `pad_x`, `dim_x`, `dim_y` and buffers of exactly `padded_array_size` floats. The drivers allocate these buffers from the parsed values, and with negative values C would index out of bounds.
- Host1D's checks and fills require non-negative `pad` and `array_size`, for the same reason.
- StreamCopyMac.StreamRange (NDRange global size = `size`, local size = WGS) is a plain function with no separate lemma.
- Layout.EffectiveIsCoverage and Layout.AsWrittenIsCoverage hold only for `3*halo <= BLOCK_X`. The guard admits halos up to `BLOCK_X/2`. Above a third of the block, a block's halos reach past its neighbour, and both counts exceed the clipped coverage (Layout.WideHaloExceedsCoverage). The kernels' source is not part of this model, so it is not settled which of the two the hardware streams, and the divergence is not claimed as a finding.

## Findings

| source | as written | input that shows it | evidently intended | confidence | as-written member | corrected member |
|---|---|---|---|---|---|---|
| fpga-mem-bench-host-blk2d.c:982-983 (also fpga-mem-bench-host-std.c:994-995, fpga-stream-host-std.c:612-613) | `totalSize_B` subtracts `extra_halo_x` even when there is only one block, and counts `-2*halo` when the extent is empty | dim_x = 3, halo = 16, BLOCK_X = 1024 gives -10 positions per row, a negative byte count; `-s 0 -hw 16` gives -32 | the correction applies only when there is a block before the last; an empty extent streams nothing; the count is at least n, and when `3*halo <= BLOCK_X` it equals the positions the blocks read | not executed | Layout.SingleBlockUndercount | Layout.EffectiveIsCoverage |
| fpga-stream-host-std.c:364-366 | no halo guard before `% valid_blk_x` and `/ valid_blk_x` | BLOCK_X = 1024 and `-hw 512` give `valid_blk_x == 0`, a division by zero | the guard of the memory benchmark (`halo >= BLOCK_X/2` exits with -1) | not executed | StreamStd.HalfBlockHaloDividesByZero | StreamStd.Setup |

`Layout.EmptyExtentUndercount` gives the second input of the first row.
`Layout.EffectiveBounds` proves that the corrected count is never below n.
