/** The blocked traversal shared by the halo-aware host drivers.

    The x extent (the row width `dim_x` of the 2D driver, the whole
    `array_size` of the 1D drivers) is cut into blocks of `BLOCK_X`
    positions.  Neighbouring blocks overlap by `halo` positions on each
    side, so a block computes `valid_blk_x = BLOCK_X - 2*halo` positions and
    consecutive blocks start `valid_blk_x` apart.  The host rounds the
    extent up to a multiple of `valid_blk_x`, derives the number of blocks,
    and reports how many positions the kernels really stream. */
module Layout {
  import opened CInt

  /** `valid_blk_x`. */
  function ValidBlock(blockX: int, halo: int): int
  {
    blockX - 2 * halo
  }

  /** The host guard: a halo width of `BLOCK_X/2` or more makes the driver
      exit with -1 before anything is sized. */
  predicate HaloAccepted(blockX: int, halo: int)
  {
    halo < Div(blockX, 2)
  }

  /** `last_x`: the extent rounded up to a multiple of `valid_blk_x`. */
  function LastIndex(n: int, v: int): int
    requires v != 0
  {
    if Mod(n, v) == 0 then n else n + v - Mod(n, v)
  }

  /** `num_blk_x`. */
  function NumBlocks(n: int, v: int): int
    requires v != 0
  {
    Div(LastIndex(n, v), v)
  }

  /** `extra_halo_x`: the part of the halo that the block before the last
      one cannot read because the extent ends inside it. */
  function ExtraHalo(n: int, v: int, halo: int): int
    requires v != 0
  {
    if Mod(n, v) >= halo || Mod(n, v) == 0 then 0 else halo - Mod(n, v)
  }

  /** The streamed positions per row exactly as the drivers compute them
      (the factor in front of `dim_y*sizeof(float)` or `sizeof(float)` in
      `totalSize_B`). */
  function EffectiveAsWritten(n: int, blockX: int, halo: int): int
    requires ValidBlock(blockX, halo) != 0
  {
    var v := ValidBlock(blockX, halo);
    NumBlocks(n, v) * blockX - (LastIndex(n, v) + 2 * halo - n) - ExtraHalo(n, v, halo)
  }

  /** The same count with the two degenerate cases repaired: an empty extent
      has no block and streams nothing, and the halo correction only applies
      when there is a block before the last one. */
  function Effective(n: int, blockX: int, halo: int): int
    requires ValidBlock(blockX, halo) != 0
  {
    var v := ValidBlock(blockX, halo);
    var blocks := NumBlocks(n, v);
    if blocks == 0 then 0
    else blocks * blockX - (LastIndex(n, v) + 2 * halo - n)
         - (if blocks >= 2 then ExtraHalo(n, v, halo) else 0)
  }

  // ---------------------------------------------------------------------
  // Reference: what the blocks cover.  Block b spans the positions
  // [b*v - halo, (b+1)*v + halo); positions outside [0, n) are not read.

  function Max(a: int, b: int): int { if a < b then b else a }
  function Min(a: int, b: int): int { if a < b then a else b }

  /** Size of [lo, hi) intersected with [0, n). */
  function Clip(lo: int, hi: int, n: int): int
  {
    var l := Max(lo, 0);
    var u := Min(hi, n);
    if u > l then u - l else 0
  }

  function Span(n: int, v: int, halo: int, b: int): int
  {
    Clip(b * v - halo, (b + 1) * v + halo, n)
  }

  /** Positions streamed by the first k blocks, overlaps counted again. */
  function Covered(n: int, v: int, halo: int, k: int): int
    decreases k
  {
    if k <= 0 then 0 else Covered(n, v, halo, k - 1) + Span(n, v, halo, k - 1)
  }

  // ---------------------------------------------------------------------
  // Properties.

  /** The guard rejects exactly the halo widths that leave fewer than two
      computed positions per block, and an accepted non-negative halo never
      makes a block wider than BLOCK_X. */
  lemma HaloGuardExact(blockX: int, halo: int)
    requires blockX > 0
    ensures HaloAccepted(blockX, halo) <==> ValidBlock(blockX, halo) >= 2
    ensures halo >= 0 ==> ValidBlock(blockX, halo) <= blockX
  {
    NonNegativeAgree(blockX, 2);
  }

  /** last_x is the least multiple of valid_blk_x that is not below the
      extent, and num_blk_x is the number of blocks: the ceiling of
      extent / valid_blk_x. */
  lemma RoundUp(n: int, v: int)
    requires n >= 0 && v > 0
    ensures LastIndex(n, v) % v == 0
    ensures n <= LastIndex(n, v) < n + v
    ensures forall m :: m >= n && m % v == 0 ==> LastIndex(n, v) <= m
    ensures NumBlocks(n, v) * v == LastIndex(n, v)
    ensures NumBlocks(n, v) == (n + v - 1) / v
    ensures (NumBlocks(n, v) - 1) * v < n <= NumBlocks(n, v) * v
  {
    NonNegativeAgree(n, v);
    var q, r := n / v, n % v;
    assert n == q * v + r;
    var last := LastIndex(n, v);
    var k := if r == 0 then q else q + 1;
    assert last == k * v by {
      if r != 0 { assert (q + 1) * v == q * v + v; }
    }
    LastIndexMultiple(k, v);
    NonNegativeAgree(last, v);
    assert NumBlocks(n, v) == k;
    assert (k - 1) * v == k * v - v;
    forall m | m >= n && m % v == 0
      ensures last <= m
    {
      assert m == (m / v) * v;
      if m / v < k {
        assert m / v <= k - 1;
        MulMono(m / v, k - 1, v);
      }
      MulMono(k, m / v, v);
    }
    CeilDiv(n, v, k);
  }

  /** extra_halo_x is either zero or a strict part of the halo. */
  lemma ExtraHaloBounds(n: int, v: int, halo: int)
    requires n >= 0 && v > 0
    ensures ExtraHalo(n, v, halo) == 0 || 0 < ExtraHalo(n, v, halo) < halo
  {
    NonNegativeAgree(n, v);
  }

  /** Where the extent ends inside the last block: 0 < Tail <= v. */
  function Tail(n: int, v: int): int
    requires v != 0
  {
    n - (NumBlocks(n, v) - 1) * v
  }

  lemma TailFacts(n: int, v: int)
    requires n > 0 && v > 0
    ensures 0 < Tail(n, v) <= v
    ensures Mod(n, v) == 0 ==> Tail(n, v) == v
    ensures Mod(n, v) != 0 ==> Tail(n, v) == Mod(n, v)
  {
    RoundUp(n, v);
    NonNegativeAgree(n, v);
    var k := NumBlocks(n, v);
    assert (k - 1) * v == k * v - v;
  }

  /** Algebraic form of the drivers' count, for every number of blocks;
      from two blocks on the repaired count is the same. */
  lemma EffectiveClosedForm(n: int, blockX: int, halo: int)
    requires n >= 0 && ValidBlock(blockX, halo) > 0
    ensures var v := ValidBlock(blockX, halo);
            var k := NumBlocks(n, v);
            EffectiveAsWritten(n, blockX, halo) == n + 2 * halo * (k - 1) - ExtraHalo(n, v, halo)
    ensures var v := ValidBlock(blockX, halo);
            NumBlocks(n, v) >= 2 ==> Effective(n, blockX, halo) == EffectiveAsWritten(n, blockX, halo)
  {
    var v := ValidBlock(blockX, halo);
    RoundUp(n, v);
    var k := NumBlocks(n, v);
    assert k * blockX == k * v + 2 * halo * k by {
      assert blockX == v + 2 * halo;
    }
    assert 2 * halo * (k - 1) == 2 * halo * k - 2 * halo;
  }

  /** The first block loses its left halo and whatever lies past n. */
  lemma SpanFirst(n: int, v: int, halo: int)
    requires n >= 0 && v > 0 && halo >= 0
    ensures Span(n, v, halo, 0) == Min(v + halo, n)
  {
    assert 0 * v == 0 && (0 + 1) * v == v;
  }

  /** A block whose span lies inside [0, n) streams all BLOCK_X positions. */
  lemma SpanInner(n: int, v: int, halo: int, b: int, p: int)
    requires 0 <= halo <= v && b >= 1 && p == b * v && p + v + halo <= n
    ensures Span(n, v, halo, b) == v + 2 * halo
  {
    assert (b + 1) * v == p + v;
    MulMono(1, b, v);
  }

  /** The block in which the extent ends (n = p + t, 0 < t <= v). */
  lemma SpanLast(n: int, v: int, halo: int, b: int, p: int, t: int)
    requires 0 <= halo <= v && b >= 1 && p == b * v && n == p + t && 0 < t <= v
    ensures Span(n, v, halo, b) == t + halo
  {
    assert (b + 1) * v == p + v;
    MulMono(1, b, v);
  }

  /** The block before it, when it is not the first. */
  lemma SpanPenultimate(n: int, v: int, halo: int, b: int, p: int, t: int)
    requires 0 <= halo <= v && b >= 1 && p == b * v && n == p + v + t && 0 < t <= v
    ensures Span(n, v, halo, b) == v + halo + Min(halo, t)
  {
    assert (b + 1) * v == p + v;
    MulMono(1, b, v);
  }

  /** Every block but the last two lies inside the extent, so a run of them
      streams one full block apiece, less the left halo of the first. */
  lemma {:induction false} CoveredPrefix(n: int, v: int, halo: int, k: int)
    requires 0 <= halo <= v && 0 < v && 1 <= k && k * v + halo <= n
    ensures Covered(n, v, halo, k) == k * v + (2 * k - 1) * halo
  {
    if k == 1 {
      assert Covered(n, v, halo, 0) == 0;
      SpanFirst(n, v, halo);
    } else {
      var p := (k - 1) * v;
      assert k * v == p + v;
      MulMono(1, k - 1, v);
      CoveredPrefix(n, v, halo, k - 1);
      SpanInner(n, v, halo, k - 1, p);
    }
  }

  /** The count of streamed positions in closed form, for two blocks or
      more: n, plus both halos of every block, less the left halo of the
      first, the right halo of the last, and the part of the halo of the
      block before the last that lies past n. */
  lemma CoveredForm(n: int, v: int, halo: int, k: int, t: int)
    requires n >= 0 && 0 <= halo <= v && 0 < v && k >= 2
    requires n == (k - 1) * v + t && 0 < t <= v
    ensures Covered(n, v, halo, k) == n + (2 * k - 3) * halo + Min(halo, t)
  {
    if k == 2 {
      CoveredFormTwo(n, v, halo, t);
    } else {
      CoveredFormLong(n, v, halo, k, t);
    }
  }

  /** Two blocks: the first one, clipped at n, and the last one. */
  lemma CoveredFormTwo(n: int, v: int, halo: int, t: int)
    requires 0 <= halo <= v && 0 < v && n == v + t && 0 < t <= v
    ensures Covered(n, v, halo, 2) == n + halo + Min(halo, t)
  {
    assert Covered(n, v, halo, 0) == 0;
    SpanFirst(n, v, halo);
    SpanLast(n, v, halo, 1, v, t);
    assert Covered(n, v, halo, 2) == Span(n, v, halo, 0) + Span(n, v, halo, 1);
  }

  /** Three blocks or more: a prefix inside the extent, then the last two. */
  lemma CoveredFormLong(n: int, v: int, halo: int, k: int, t: int)
    requires 0 <= halo <= v && 0 < v && k >= 3
    requires n == (k - 1) * v + t && 0 < t <= v
    ensures Covered(n, v, halo, k) == n + (2 * k - 3) * halo + Min(halo, t)
  {
    var j := k - 2;
    var q := j * v;
    var p := (j + 1) * v;
    Distribute(j, 1, v);
    Distribute(2 * j - 1, 2, halo);
    MulMono(1, j, v);
    CoveredPrefix(n, v, halo, j);
    SpanPenultimate(n, v, halo, j, q, t);
    SpanLast(n, v, halo, j + 1, p, t);
    assert Covered(n, v, halo, j + 2) == Covered(n, v, halo, j + 1) + Span(n, v, halo, j + 1);
    assert Covered(n, v, halo, j + 1) == Covered(n, v, halo, j) + Span(n, v, halo, j);
  }

  /** A single block streams the whole extent. */
  lemma CoveredOne(n: int, v: int, halo: int)
    requires 0 < n <= v && halo >= 0
    ensures Covered(n, v, halo, 1) == n
  {
    assert Covered(n, v, halo, 0) == 0;
    SpanFirst(n, v, halo);
  }

  /** With at most one block the repaired count is the extent. */
  lemma EffectiveSmall(n: int, blockX: int, halo: int)
    requires n >= 0 && ValidBlock(blockX, halo) > 0
    requires NumBlocks(n, ValidBlock(blockX, halo)) <= 1
    ensures Effective(n, blockX, halo) == n
  {
    var v := ValidBlock(blockX, halo);
    RoundUp(n, v);
    var k := NumBlocks(n, v);
    if k == 1 {
      assert LastIndex(n, v) == v;
      assert k * blockX == blockX;
    }
  }

  /** The repaired count is exactly what the blocks stream, whenever every
      block reaches past its neighbour's halo (3*halo <= BLOCK_X). */
  lemma EffectiveIsCoverage(n: int, blockX: int, halo: int)
    requires n >= 0 && 0 <= halo && 3 * halo <= blockX && ValidBlock(blockX, halo) > 0
    ensures var v := ValidBlock(blockX, halo);
            Effective(n, blockX, halo) == Covered(n, v, halo, NumBlocks(n, v))
  {
    var v := ValidBlock(blockX, halo);
    RoundUp(n, v);
    var k := NumBlocks(n, v);
    if k == 0 {
      EffectiveSmall(n, blockX, halo);
    } else if k == 1 {
      EffectiveSmall(n, blockX, halo);
      CoveredOne(n, v, halo);
    } else {
      CoverageOfMany(n, blockX, halo);
    }
  }

  lemma {:induction false} CoverageOfMany(n: int, blockX: int, halo: int)
    requires n >= 0 && 0 <= halo && 3 * halo <= blockX && ValidBlock(blockX, halo) > 0
    requires NumBlocks(n, ValidBlock(blockX, halo)) >= 2
    ensures var v := ValidBlock(blockX, halo);
            Effective(n, blockX, halo) == Covered(n, v, halo, NumBlocks(n, v))
  {
    var v := ValidBlock(blockX, halo);
    var k := NumBlocks(n, v);
    var t := Tail(n, v);
    TailFacts(n, v);
    CoveredForm(n, v, halo, k, t);
    ExtraIsShortfall(n, v, halo);
    EffectiveClosedForm(n, blockX, halo);
    HaloTerms(halo, k);
  }

  lemma HaloTerms(halo: int, k: int)
    ensures 2 * halo * (k - 1) == (2 * k - 3) * halo + halo
  {
  }

  /** extra_halo_x is the part of the halo that the tail of the extent
      leaves unfilled. */
  lemma ExtraIsShortfall(n: int, v: int, halo: int)
    requires n > 0 && 0 <= halo <= v && v > 0
    ensures ExtraHalo(n, v, halo) == halo - Min(halo, Tail(n, v))
  {
    TailFacts(n, v);
  }

  /** The drivers' own formula agrees with the coverage count as soon as
      there are two blocks. */
  lemma AsWrittenIsCoverage(n: int, blockX: int, halo: int)
    requires n >= 0 && 0 <= halo && 3 * halo <= blockX && ValidBlock(blockX, halo) > 0
    requires NumBlocks(n, ValidBlock(blockX, halo)) >= 2
    ensures var v := ValidBlock(blockX, halo);
            EffectiveAsWritten(n, blockX, halo) == Covered(n, v, halo, NumBlocks(n, v))
  {
    EffectiveIsCoverage(n, blockX, halo);
    EffectiveClosedForm(n, blockX, halo);
  }

  /** With a single block the drivers' formula subtracts a halo correction
      that has no block before the last to apply to: a 3-position row with
      a 16-wide halo and BLOCK_X = 1024 is reported as -10 streamed
      positions, while its one block streams 3. */
  lemma SingleBlockUndercount()
    ensures EffectiveAsWritten(3, 1024, 16) == -10
    ensures Covered(3, 992, 16, NumBlocks(3, 992)) == 3
    ensures Effective(3, 1024, 16) == 3
  {
    NonNegativeAgree(3, 992);
    NonNegativeAgree(992, 992);
    assert Mod(3, 992) == 3;
    assert LastIndex(3, 992) == 992;
    assert NumBlocks(3, 992) == 1;
    assert EffectiveAsWritten(3, 1024, 16) == 1024 - (992 + 32 - 3) - 13;
    assert Effective(3, 1024, 16) == 1024 - (992 + 32 - 3);
    CoveredOne(3, 992, 16);
  }

  /** An empty extent has no block, yet the drivers' formula reports
      -2*halo streamed positions. */
  lemma EmptyExtentUndercount()
    ensures EffectiveAsWritten(0, 1024, 16) == -32
    ensures NumBlocks(0, 992) == 0 && Covered(0, 992, 16, 0) == 0
    ensures Effective(0, 1024, 16) == 0
  {
    NonNegativeAgree(0, 992);
    assert Mod(0, 992) == 0;
    assert LastIndex(0, 992) == 0;
  }

  /** When the halo is wider than a third of the block (the guard admits
      up to half), a block's halo reaches past its neighbour and off the
      extent, and neither count is the coverage any more: BLOCK_X = 1024,
      halo = 400 and a 300-position row give two blocks, which read 600
      positions, while both counts say 776. */
  lemma WideHaloExceedsCoverage()
    ensures HaloAccepted(1024, 400) && ValidBlock(1024, 400) == 224
    ensures NumBlocks(300, 224) == 2
    ensures EffectiveAsWritten(300, 1024, 400) == 776 && Effective(300, 1024, 400) == 776
    ensures Covered(300, 224, 400, 2) == 600
  {
    NonNegativeAgree(300, 224);
    NonNegativeAgree(448, 224);
    NonNegativeAgree(1024, 2);
    assert Mod(300, 224) == 76;
    assert LastIndex(300, 224) == 448;
    assert Covered(300, 224, 400, 0) == 0;
    assert Span(300, 224, 400, 0) == 300 && Span(300, 224, 400, 1) == 300;
  }

  /** The repaired count never reports less than the extent itself, and
      with no halo it reports exactly the extent. */
  lemma EffectiveBounds(n: int, blockX: int, halo: int)
    requires n >= 0 && 0 <= halo && ValidBlock(blockX, halo) > 0
    ensures Effective(n, blockX, halo) >= n
    ensures halo == 0 ==> Effective(n, blockX, halo) == n
  {
    var v := ValidBlock(blockX, halo);
    RoundUp(n, v);
    var k := NumBlocks(n, v);
    if k <= 1 {
      EffectiveSmall(n, blockX, halo);
    } else {
      EffectiveClosedForm(n, blockX, halo);
      ExtraHaloBounds(n, v, halo);
      var twice := 2 * halo * (k - 1);
      assert twice >= 2 * halo by {
        MulMono(1, k - 1, 2 * halo);
      }
      assert Effective(n, blockX, halo) == n + twice - ExtraHalo(n, v, halo);
    }
  }

  /** Without a halo the drivers' own formula reports exactly the extent:
      no position is streamed twice. */
  lemma AsWrittenNoHalo(n: int, blockX: int)
    requires n >= 0 && blockX > 0
    ensures EffectiveAsWritten(n, blockX, 0) == n
  {
    RoundUp(n, blockX);
    NonNegativeAgree(n, blockX);
    assert ExtraHalo(n, blockX, 0) == 0;
  }

  lemma LastIndexMultiple(k: int, v: int)
    requires k >= 0 && v > 0
    ensures (k * v) % v == 0 && (k * v) / v == k
  {
    DivUnique(k * v, v, k, 0);
  }

  lemma CeilDiv(n: int, v: int, k: int)
    requires n >= 0 && v > 0 && (k - 1) * v < n <= k * v
    ensures (n + v - 1) / v == k
  {
    assert (k - 1) * v == k * v - v;
    DivUnique(n + v - 1, v, k, n - 1 - (k - 1) * v);
  }
}
