/** What the host drivers derive before the first launch: buffer sizes,
    the block layout of the x extent, the NDRange work sizes and the loop
    bound of the single-work-item kernels. */
module Geometry {
  import opened CInt
  import opened Layout
  import opened Kernels
  import opened Padding

  /** How a driver's setup ends: with a value, with `exit(code)`, or with a
      C division by zero (undefined behaviour). */
  datatype Checked<T> = Ready(value: T) | Exits(code: int) | DividesByZero

  /** `valid_blk_x`, `last_x` and `num_blk_x`. */
  datatype Blocks = Blocks(valid: int, last: int, count: int)

  function BlocksOf(n: int, blockX: int, halo: int): Blocks
    requires ValidBlock(blockX, halo) != 0
  {
    var v := ValidBlock(blockX, halo);
    Blocks(v, LastIndex(n, v), NumBlocks(n, v))
  }

  /** The mem-bench drivers: the halo guard runs first, then the blocks are
      laid out.  An accepted halo always leaves at least two computed
      positions per block, so the divisions are defined. */
  function GuardedBlocks(n: int, blockX: int, halo: int): (r: Checked<Blocks>)
    requires blockX > 0
    ensures r.Exits? <==> halo >= Div(blockX, 2)
    ensures r.Exits? ==> r.code == -1
    ensures !r.DividesByZero?
    ensures r.Ready? ==> r.value.valid >= 2 && r.value.valid == ValidBlock(blockX, halo)
    ensures r.Ready? && n >= 0 ==>
              r.value.last - r.value.valid < n <= r.value.last && r.value.count * r.value.valid == r.value.last
  {
    HaloGuardExact(blockX, halo);
    if !HaloAccepted(blockX, halo) then Exits(-1)
    else
      var b := BlocksOf(n, blockX, halo);
      (if n >= 0 then RoundUp(n, b.valid); Ready(b) else Ready(b))
  }

  /** fpga-stream-host-std.c as written: no guard, so `array_size %
      valid_blk_x` divides by zero when the halo is exactly half a block. */
  function UnguardedBlocks(n: int, blockX: int, halo: int): (r: Checked<Blocks>)
    ensures r.DividesByZero? <==> ValidBlock(blockX, halo) == 0
    ensures r.Ready? ==> r.value == BlocksOf(n, blockX, halo)
    ensures !r.Exits?
  {
    if ValidBlock(blockX, halo) == 0 then DividesByZero else Ready(BlocksOf(n, blockX, halo))
  }

  // ---------------------------------------------------------------------
  // Work sizes.

  datatype Dim3 = Dim3(x: int, y: int, z: int)

  /** `localSize` and `globalSize` of an NDRange launch. */
  datatype Range = Range(local: Dim3, global: Dim3)

  /** The 1D blocked drivers: one work-group per block, each of
      BLOCK_X/VEC work-items. */
  function Range1D(b: Build, blocks: Blocks): Range
    requires ValidBuild(b)
  {
    var wx := Div(b.blockX, b.vec);
    Range(Dim3(wx, 1, 1), Dim3(wx * blocks.count, 1, 1))
  }

  /** The single-work-item bound of the 1D blocked drivers. */
  function LoopExit1D(b: Build, blocks: Blocks): int
    requires ValidBuild(b)
  {
    Div(b.blockX, b.vec) * blocks.count
  }

  /** The 2D driver: blocks along x, dim_y rows along y.  The local y size
      is dim_y in channel builds and Intel FPGA builds, 1 otherwise. */
  function Range2D(b: Build, blocks: Blocks, dimY: int): Range
    requires ValidBuild(b)
  {
    var wx := Div(b.blockX, b.vec);
    var ly := if b.topology == Channelized || b.intelFpga then dimY else 1;
    Range(Dim3(wx, ly, 1), Dim3(wx * blocks.count, dimY, 1))
  }

  function LoopExit2D(b: Build, blocks: Blocks, dimY: int): int
    requires ValidBuild(b)
  {
    Div(b.blockX, b.vec) * blocks.count * dimY
  }

  /** The single work-item iterates exactly over the NDRange's work-items,
      and the global x size is one local x size per block.  Both sides are
      built from `BLOCK_X / VEC` and `num_blk_x`, as in the drivers; the
      claim with content is `WorkCoversExtent`, which says what that index
      space sweeps. */
  lemma LoopExitIsGlobalSize1D(b: Build, blocks: Blocks)
    requires ValidBuild(b)
    ensures LoopExit1D(b, blocks) == Range1D(b, blocks).global.x
    ensures Range1D(b, blocks).global.x == Range1D(b, blocks).local.x * blocks.count
    ensures Range1D(b, blocks).global.y == Range1D(b, blocks).local.y == 1
  {
  }

  lemma LoopExitIsGlobalSize2D(b: Build, blocks: Blocks, dimY: int)
    requires ValidBuild(b)
    ensures LoopExit2D(b, blocks, dimY) == Range2D(b, blocks, dimY).global.x * Range2D(b, blocks, dimY).global.y
    ensures Range2D(b, blocks, dimY).global.x == Range2D(b, blocks, dimY).local.x * blocks.count
    ensures b.topology == Channelized ==> Range2D(b, blocks, dimY).local.y == dimY
    ensures b.topology == Standard && !b.intelFpga ==> Range2D(b, blocks, dimY).local.y == 1
  {
  }

  /** When VEC divides BLOCK_X the work-items, VEC positions each, sweep
      every block in full: the blocks' computed parts cover the extent and
      each block also reads its two halos. */
  lemma WorkCoversExtent(b: Build, n: int, halo: int)
    requires ValidBuild(b) && b.blockX % b.vec == 0 && n >= 0 && halo >= 0
    requires ValidBlock(b.blockX, halo) > 0
    ensures var blocks := BlocksOf(n, b.blockX, halo);
            Range1D(b, blocks).global.x * b.vec == blocks.count * b.blockX
            && blocks.count * b.blockX >= n + 2 * halo * blocks.count
  {
    var blocks := BlocksOf(n, b.blockX, halo);
    var v, k := ValidBlock(b.blockX, halo), blocks.count;
    RoundUp(n, v);
    NonNegativeAgree(b.blockX, b.vec);
    var w := b.blockX / b.vec;
    assert b.blockX == w * b.vec;
    assert (w * k) * b.vec == k * (w * b.vec);
    assert k * b.blockX == k * v + 2 * halo * k;
  }

  // ---------------------------------------------------------------------
  // Sizes of the 1D drivers.

  datatype Sizes = Sizes(sizeB: int, arraySize: int, paddedArraySize: int, paddedBytes: int, paddedMiB: int)

  /** `size_B`, `array_size`, `padded_array_size`, `padded_size_Byte` and
      `padded_size_MiB` for `-s sizeMiB -pad pad`.  `size_B` is a signed
      `long`; dividing it by `sizeof(float)` and multiplying the padded
      size by it go through the unsigned `size_t`. */
  function Sizes1D(sizeMiB: int, pad: int): Sizes
  {
    var sizeB := sizeMiB * 1024 * 1024;
    var arraySize := ToSizeT(sizeB) / 4;
    var padded := arraySize + pad;
    var bytes := ToLong(ToSizeT(padded * 4));
    Sizes(sizeB, arraySize, padded, bytes, Div(bytes, 1024 * 1024))
  }

  /** The array holds size_MiB * 2^18 floats for a non-negative size; a
      negative size wraps around through `size_t` to a huge positive
      count; the padded buffer is the 1D padded size; and its size in MiB
      is the requested size plus the whole MiB the padding adds. */
  lemma Sizes1DFacts(sizeMiB: int, pad: int)
    ensures Sizes1D(sizeMiB, pad).sizeB == sizeMiB * 1048576
    ensures 0 <= Sizes1D(sizeMiB, pad).arraySize < Word / 4
    ensures IsInt(sizeMiB) && sizeMiB >= 0 ==>
              Sizes1D(sizeMiB, pad).arraySize == sizeMiB * 262144
              && Sizes1D(sizeMiB, pad).sizeB == Sizes1D(sizeMiB, pad).arraySize * 4
    ensures IsInt(sizeMiB) && sizeMiB < 0 ==>
              Sizes1D(sizeMiB, pad).arraySize == Word / 4 + sizeMiB * 262144
    ensures Sizes1D(sizeMiB, pad).paddedArraySize == PaddedSize1D(pad, Sizes1D(sizeMiB, pad).arraySize)
    ensures IsInt(sizeMiB) && sizeMiB >= 0 && IsInt(pad) && pad >= 0 ==>
              Sizes1D(sizeMiB, pad).paddedMiB == sizeMiB + (4 * pad) / 1048576
  {
    var m := sizeMiB * 262144;
    assert sizeMiB * 1024 * 1024 == 4 * m;
    if IsInt(sizeMiB) {
      QuarterOfSizeT(m);
    }
    if IsInt(sizeMiB) && sizeMiB >= 0 && IsInt(pad) && pad >= 0 {
      var bytes := (m + pad) * 4;
      assert ToSizeT(bytes) == bytes;
      assert bytes == (sizeMiB + (4 * pad) / 1048576) * 1048576 + (4 * pad) % 1048576;
      NonNegativeAgree(bytes, 1048576);
      DivUnique(bytes, 1048576, sizeMiB + (4 * pad) / 1048576, (4 * pad) % 1048576);
    }
  }

  /** `-s -1`: the C code asks for 2^62 - 2^18 floats, and the padded
      buffer's size in bytes wraps around to -1 MiB. */
  lemma NegativeSizeWraps()
    ensures Sizes1D(-1, 0).arraySize == Word / 4 - 262144
    ensures Sizes1D(-1, 0).paddedBytes == -1048576
    ensures Sizes1D(-1, 0).paddedMiB == -1
  {
    QuarterOfSizeT(-262144);
    assert ToSizeT((Word / 4 - 262144) * 4) == Word - 1048576;
    DivExact(-1, 1048576);
  }
}
