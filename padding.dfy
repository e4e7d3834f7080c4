/** Where a logical element lives inside a padded host buffer.

    The 1D drivers allocate `pad + array_size` floats and put element i at
    `pad + i`.  The 2D driver lays out `dim_y` rows of `pad_x + dim_x`
    floats after `pad` leading floats; each row begins with `pad_x` padding
    floats, so element (i, j) -- row i, column j -- is at
    `pad + i*(pad_x + dim_x) + (pad_x + j)`.  Its allocation holds one row
    more than the rows it maps. */
module Padding {
  import opened CInt

  // ---------------------------------------------------------------------
  // One dimension.

  /** Host index of logical element i. */
  function Index1D(pad: int, i: int): int
  {
    pad + i
  }

  /** `padded_array_size` of the 1D drivers. */
  function PaddedSize1D(pad: int, n: int): int
  {
    n + pad
  }

  predicate Mapped1D(pad: int, n: int, k: int)
  {
    pad <= k < pad + n
  }

  /** The 1D map is a bijection from [0, n) onto [pad, pad + n), which is
      the end of the allocation. */
  lemma Index1DBijective(pad: int, n: int, i: int, k: int)
    requires 0 <= pad && 0 <= n
    ensures 0 <= i < n ==> Mapped1D(pad, n, Index1D(pad, i)) && Index1D(pad, i) < PaddedSize1D(pad, n)
    ensures Mapped1D(pad, n, k) ==> 0 <= k - pad < n && Index1D(pad, k - pad) == k
  {
  }

  /** The buffer after the host fill: element i of the logical range is
      v(i), everything else is what the allocation held before. */
  function Filled1D<T>(s: seq<T>, pad: int, n: int, v: int -> T): seq<T>
  {
    seq(|s|, k requires 0 <= k < |s| => if Mapped1D(pad, n, k) then v(k - pad) else s[k])
  }

  lemma Filled1DContents<T>(s: seq<T>, pad: int, n: int, v: int -> T)
    requires 0 <= pad && 0 <= n && |s| == PaddedSize1D(pad, n)
    ensures |Filled1D(s, pad, n, v)| == |s|
    ensures forall i :: 0 <= i < n ==> Filled1D(s, pad, n, v)[Index1D(pad, i)] == v(i)
    ensures forall k :: 0 <= k < pad ==> Filled1D(s, pad, n, v)[k] == s[k]
  {
  }

  // ---------------------------------------------------------------------
  // Two dimensions.

  datatype Grid = Grid(pad: int, padX: int, dimX: int, dimY: int)

  predicate WellFormed(g: Grid)
  {
    g.pad >= 0 && g.padX >= 0 && g.dimX >= 0 && g.dimY >= 0
  }

  /** Floats per row, padding included. */
  function Pitch(g: Grid): int
  {
    g.padX + g.dimX
  }

  predicate InGrid(g: Grid, i: int, j: int)
  {
    0 <= i < g.dimY && 0 <= j < g.dimX
  }

  /** `padded_array_size` of the 2D driver. */
  function PaddedSize2D(g: Grid): int
  {
    g.pad + g.dimY * Pitch(g) + Pitch(g)
  }

  /** Host index of element (i, j); within a well-formed grid it lies
      after the leading padding and inside the first dim_y rows. */
  function Index2D(g: Grid, i: int, j: int): (k: int)
    ensures WellFormed(g) && InGrid(g, i, j) ==>
              g.pad + g.padX <= k < g.pad + g.dimY * Pitch(g) <= PaddedSize2D(g) - Pitch(g)
  {
    RowBound(g, i);
    g.pad + i * Pitch(g) + (g.padX + j)
  }

  lemma RowBound(g: Grid, i: int)
    ensures WellFormed(g) && 0 <= i < g.dimY ==>
              0 <= i * Pitch(g) && i * Pitch(g) + Pitch(g) <= g.dimY * Pitch(g)
  {
    var p := Pitch(g);
    if WellFormed(g) && 0 <= i < g.dimY {
      assert (i + 1) * p <= g.dimY * p by {
        assert g.dimY * p - (i + 1) * p == (g.dimY - i - 1) * p;
      }
    }
  }

  /** Row and column of a host index: the inverse of Index2D. */
  function Row(g: Grid, k: int): int
    requires Pitch(g) > 0
  {
    (k - g.pad) / Pitch(g)
  }

  function Col(g: Grid, k: int): int
    requires Pitch(g) > 0
  {
    (k - g.pad) % Pitch(g) - g.padX
  }

  /** Host indices that hold a logical element. */
  predicate Mapped2D(g: Grid, k: int)
  {
    WellFormed(g) && Pitch(g) > 0 && k >= g.pad && InGrid(g, Row(g, k), Col(g, k))
  }

  /** Decoding an encoded position gives the position back. */
  lemma DecodeIndex(g: Grid, i: int, j: int)
    requires WellFormed(g) && InGrid(g, i, j)
    ensures Pitch(g) > 0 && Mapped2D(g, Index2D(g, i, j))
    ensures Row(g, Index2D(g, i, j)) == i && Col(g, Index2D(g, i, j)) == j
  {
    var p := Pitch(g);
    var k := Index2D(g, i, j);
    assert k - g.pad == i * p + (g.padX + j);
    DivUnique(k - g.pad, p, i, g.padX + j);
  }

  /** Encoding a decoded mapped index gives the index back. */
  lemma EncodeMapped(g: Grid, k: int)
    requires Mapped2D(g, k)
    ensures Index2D(g, Row(g, k), Col(g, k)) == k
  {
    var p := Pitch(g);
    assert k - g.pad == Row(g, k) * p + (k - g.pad) % p;
  }

  /** Distinct positions of the grid never share a host index. */
  lemma Index2DInjective(g: Grid, i: int, j: int, i': int, j': int)
    requires WellFormed(g) && InGrid(g, i, j) && InGrid(g, i', j')
    requires Index2D(g, i, j) == Index2D(g, i', j')
    ensures i == i' && j == j'
  {
    DecodeIndex(g, i, j);
    DecodeIndex(g, i', j');
  }

  /** Position (r, c) comes before (i, j) in the fill's row-major order. */
  predicate Before(r: int, c: int, i: int, j: int)
  {
    r < i || (r == i && c < j)
  }

  /** The buffer after the 2D host fill has visited every position before
      (i, j): those hold v, everything else what the allocation held. */
  function Filled2DUpTo<T>(s: seq<T>, g: Grid, v: (int, int) -> T, i: int, j: int): seq<T>
  {
    seq(|s|, k requires 0 <= k < |s| =>
      if Mapped2D(g, k) && Before(Row(g, k), Col(g, k), i, j) then v(Row(g, k), Col(g, k)) else s[k])
  }

  /** The buffer after the complete 2D host fill. */
  function Filled2D<T>(s: seq<T>, g: Grid, v: (int, int) -> T): seq<T>
  {
    Filled2DUpTo(s, g, v, g.dimY, 0)
  }

  lemma Filled2DContents<T>(s: seq<T>, g: Grid, v: (int, int) -> T)
    requires WellFormed(g) && |s| == PaddedSize2D(g)
    ensures |Filled2D(s, g, v)| == |s|
    ensures forall i, j :: InGrid(g, i, j) ==> Filled2D(s, g, v)[Index2D(g, i, j)] == v(i, j)
    ensures forall k :: 0 <= k < |s| && !Mapped2D(g, k) ==> Filled2D(s, g, v)[k] == s[k]
  {
    forall i, j | InGrid(g, i, j)
      ensures Filled2D(s, g, v)[Index2D(g, i, j)] == v(i, j)
    {
      DecodeIndex(g, i, j);
    }
  }
}
