/** fpga-mem-bench-host-blk2d.c's host loops: the nested fill of A, B and
    C over the padded grid and the four checks of the kernels' output.

    Both loops visit row i, column j in row-major order and touch host
    index `pad + i*(pad_x + dim_x) + (pad_x + j)` only; the padding columns,
    the leading `pad` floats and the spare row are never read or
    written.  The random values are arbitrary functions of the position;
    the OpenMP `collapse(2)` regions are modelled sequentially. */
module Host2D {
  import opened Padding

  /** p holds at the host index of every grid position before (i, j). */
  ghost predicate AllUpTo(g: Grid, i: int, j: int, p: int -> bool)
  {
    forall r, c :: InGrid(g, r, c) && Before(r, c, i, j) ==> p(Index2D(g, r, c))
  }

  /** p holds at the host index of every grid position. */
  ghost predicate All(g: Grid, p: int -> bool)
  {
    AllUpTo(g, g.dimY, 0, p)
  }

  // Per-index verdicts of the four checks; an index outside a buffer fails.

  function SameAt<T(==)>(x: seq<T>, y: seq<T>): int -> bool
  {
    k => 0 <= k < |x| && k < |y| && x[k] == y[k]
  }

  function Sum2At<T>(a: seq<T>, b: seq<T>, out: seq<T>, add: (T, T) -> T, close: (T, T) -> bool): int -> bool
  {
    k => 0 <= k < |a| && k < |b| && k < |out| && close(out[k], add(a[k], b[k]))
  }

  function Sum3At<T>(a: seq<T>, b: seq<T>, c: seq<T>, out: seq<T>,
                     add: (T, T) -> T, close: (T, T) -> bool): int -> bool
  {
    k => 0 <= k < |a| && k < |b| && k < |c| && k < |out| && close(out[k], add(add(a[k], b[k]), c[k]))
  }

  /** Every grid position is checked once the loops are done. */
  lemma AllMeansEveryPosition(g: Grid, p: int -> bool)
    ensures All(g, p) <==> forall i, j :: InGrid(g, i, j) ==> p(Index2D(g, i, j))
  {
  }

  /** One more position visited. */
  lemma AllStep(g: Grid, i: int, j: int, p: int -> bool)
    requires InGrid(g, i, j)
    ensures AllUpTo(g, i, j + 1, p) <==> AllUpTo(g, i, j, p) && p(Index2D(g, i, j))
  {
    if AllUpTo(g, i, j, p) && p(Index2D(g, i, j)) {
      forall r, c | InGrid(g, r, c) && Before(r, c, i, j + 1) ensures p(Index2D(g, r, c)) {
        if r == i && c == j {
        } else {
          assert Before(r, c, i, j);
        }
      }
    }
    if AllUpTo(g, i, j + 1, p) {
      assert Before(i, j, i, j + 1);
    }
  }

  /** The end of row i is the start of row i + 1. */
  lemma AllRowEnd(g: Grid, i: int, p: int -> bool)
    ensures AllUpTo(g, i, g.dimX, p) <==> AllUpTo(g, i + 1, 0, p)
  {
  }

  /** Writing position (i, j) takes the fill one position further. */
  lemma FillStep<T>(s: seq<T>, cur: seq<T>, g: Grid, v: (int, int) -> T, i: int, j: int)
    requires WellFormed(g) && InGrid(g, i, j) && |s| == PaddedSize2D(g)
    requires cur == Filled2DUpTo(s, g, v, i, j)
    ensures Index2D(g, i, j) < |cur|
    ensures cur[Index2D(g, i, j) := v(i, j)] == Filled2DUpTo(s, g, v, i, j + 1)
  {
    var k0 := Index2D(g, i, j);
    DecodeIndex(g, i, j);
    var next := Filled2DUpTo(s, g, v, i, j + 1);
    forall k | 0 <= k < |s| ensures cur[k0 := v(i, j)][k] == next[k] {
      if k == k0 {
        assert next[k] == v(i, j);
      } else if Mapped2D(g, k) {
        EncodeMapped(g, k);
        var r, c := Row(g, k), Col(g, k);
        assert (r, c) != (i, j);
        assert Before(r, c, i, j + 1) == Before(r, c, i, j);
        assert cur[k] == next[k];
      } else {
        assert cur[k] == s[k] == next[k];
      }
    }
  }

  lemma FillRowEnd<T>(s: seq<T>, g: Grid, v: (int, int) -> T, i: int)
    requires WellFormed(g)
    ensures Filled2DUpTo(s, g, v, i, g.dimX) == Filled2DUpTo(s, g, v, i + 1, 0)
  {
    var x, y := Filled2DUpTo(s, g, v, i, g.dimX), Filled2DUpTo(s, g, v, i + 1, 0);
    forall k | 0 <= k < |s| ensures x[k] == y[k] {
      if Mapped2D(g, k) {
        assert Before(Row(g, k), Col(g, k), i, g.dimX) == Before(Row(g, k), Col(g, k), i + 1, 0);
      }
    }
  }

  lemma FillStart<T>(s: seq<T>, g: Grid, v: (int, int) -> T)
    ensures Filled2DUpTo(s, g, v, 0, 0) == s
  {
    var x := Filled2DUpTo(s, g, v, 0, 0);
    forall k | 0 <= k < |s| ensures x[k] == s[k] {
      if Mapped2D(g, k) {
        assert !Before(Row(g, k), Col(g, k), 0, 0);
      }
    }
  }

  /** The nested fill of A, B and C. */
  method FillABC<T>(a: array<T>, b: array<T>, c: array<T>, g: Grid,
                    va: (int, int) -> T, vb: (int, int) -> T, vc: (int, int) -> T)
    requires a != b && b != c && a != c && WellFormed(g)
    requires a.Length == PaddedSize2D(g) && b.Length == PaddedSize2D(g) && c.Length == PaddedSize2D(g)
    modifies a, b, c
    ensures a[..] == Filled2D(old(a[..]), g, va)
    ensures b[..] == Filled2D(old(b[..]), g, vb)
    ensures c[..] == Filled2D(old(c[..]), g, vc)
  {
    FillStart(a[..], g, va);
    FillStart(b[..], g, vb);
    FillStart(c[..], g, vc);
    var i := 0;
    while i < g.dimY
      invariant 0 <= i <= g.dimY
      invariant a[..] == Filled2DUpTo(old(a[..]), g, va, i, 0)
      invariant b[..] == Filled2DUpTo(old(b[..]), g, vb, i, 0)
      invariant c[..] == Filled2DUpTo(old(c[..]), g, vc, i, 0)
    {
      var j := 0;
      while j < g.dimX
        invariant 0 <= j <= g.dimX
        invariant a[..] == Filled2DUpTo(old(a[..]), g, va, i, j)
        invariant b[..] == Filled2DUpTo(old(b[..]), g, vb, i, j)
        invariant c[..] == Filled2DUpTo(old(c[..]), g, vc, i, j)
      {
        var index := Index2D(g, i, j);
        FillStep(old(a[..]), a[..], g, va, i, j);
        FillStep(old(b[..]), b[..], g, vb, i, j);
        FillStep(old(c[..]), c[..], g, vc, i, j);
        a[index] := va(i, j);
        b[index] := vb(i, j);
        c[index] := vc(i, j);
        j := j + 1;
      }
      FillRowEnd(old(a[..]), g, va, i);
      FillRowEnd(old(b[..]), g, vb, i);
      FillRowEnd(old(c[..]), g, vc, i);
      i := i + 1;
    }
  }

  /** The R1W1 check: A against D at every grid position. */
  method CheckCopy<T(==)>(a: array<T>, d: array<T>, g: Grid) returns (success: bool)
    requires WellFormed(g) && a.Length == PaddedSize2D(g) && d.Length == PaddedSize2D(g)
    ensures success <==> All(g, SameAt(a[..], d[..]))
  {
    success := true;
    var i := 0;
    while i < g.dimY
      invariant 0 <= i <= g.dimY
      invariant success <==> AllUpTo(g, i, 0, SameAt(a[..], d[..]))
    {
      var j := 0;
      while j < g.dimX
        invariant 0 <= j <= g.dimX
        invariant success <==> AllUpTo(g, i, j, SameAt(a[..], d[..]))
      {
        var index := Index2D(g, i, j);
        AllStep(g, i, j, SameAt(a[..], d[..]));
        if a[index] != d[index] {
          success := false;
        }
        j := j + 1;
      }
      AllRowEnd(g, i, SameAt(a[..], d[..]));
      i := i + 1;
    }
  }

  /** The R2W2 check: A against C and B against D. */
  method CheckSwap<T(==)>(a: array<T>, b: array<T>, c: array<T>, d: array<T>, g: Grid)
    returns (success: bool)
    requires WellFormed(g) && a.Length == PaddedSize2D(g) && b.Length == PaddedSize2D(g)
    requires c.Length == PaddedSize2D(g) && d.Length == PaddedSize2D(g)
    ensures success <==> All(g, SameAt(a[..], c[..])) && All(g, SameAt(b[..], d[..]))
  {
    success := true;
    var i := 0;
    while i < g.dimY
      invariant 0 <= i <= g.dimY
      invariant success <==> AllUpTo(g, i, 0, SameAt(a[..], c[..])) && AllUpTo(g, i, 0, SameAt(b[..], d[..]))
    {
      var j := 0;
      while j < g.dimX
        invariant 0 <= j <= g.dimX
        invariant success <==> AllUpTo(g, i, j, SameAt(a[..], c[..])) && AllUpTo(g, i, j, SameAt(b[..], d[..]))
      {
        var index := Index2D(g, i, j);
        AllStep(g, i, j, SameAt(a[..], c[..]));
        AllStep(g, i, j, SameAt(b[..], d[..]));
        if a[index] != c[index] || b[index] != d[index] {
          success := false;
        }
        j := j + 1;
      }
      AllRowEnd(g, i, SameAt(a[..], c[..]));
      AllRowEnd(g, i, SameAt(b[..], d[..]));
      i := i + 1;
    }
  }

  /** The R2W1 check: D holds A + B up to `close`. */
  method CheckSum2<T>(a: array<T>, b: array<T>, d: array<T>, g: Grid,
                      add: (T, T) -> T, close: (T, T) -> bool) returns (success: bool)
    requires WellFormed(g) && a.Length == PaddedSize2D(g) && b.Length == PaddedSize2D(g)
    requires d.Length == PaddedSize2D(g)
    ensures success <==> All(g, Sum2At(a[..], b[..], d[..], add, close))
  {
    success := true;
    var i := 0;
    while i < g.dimY
      invariant 0 <= i <= g.dimY
      invariant success <==> AllUpTo(g, i, 0, Sum2At(a[..], b[..], d[..], add, close))
    {
      var j := 0;
      while j < g.dimX
        invariant 0 <= j <= g.dimX
        invariant success <==> AllUpTo(g, i, j, Sum2At(a[..], b[..], d[..], add, close))
      {
        var index := Index2D(g, i, j);
        AllStep(g, i, j, Sum2At(a[..], b[..], d[..], add, close));
        var expected := add(a[index], b[index]);
        if !close(d[index], expected) {
          success := false;
        }
        j := j + 1;
      }
      AllRowEnd(g, i, Sum2At(a[..], b[..], d[..], add, close));
      i := i + 1;
    }
  }

  /** The R3W1 check: D holds A + B + C up to `close`. */
  method CheckSum3<T>(a: array<T>, b: array<T>, c: array<T>, d: array<T>, g: Grid,
                      add: (T, T) -> T, close: (T, T) -> bool) returns (success: bool)
    requires WellFormed(g) && a.Length == PaddedSize2D(g) && b.Length == PaddedSize2D(g)
    requires c.Length == PaddedSize2D(g) && d.Length == PaddedSize2D(g)
    ensures success <==> All(g, Sum3At(a[..], b[..], c[..], d[..], add, close))
  {
    success := true;
    var i := 0;
    while i < g.dimY
      invariant 0 <= i <= g.dimY
      invariant success <==> AllUpTo(g, i, 0, Sum3At(a[..], b[..], c[..], d[..], add, close))
    {
      var j := 0;
      while j < g.dimX
        invariant 0 <= j <= g.dimX
        invariant success <==> AllUpTo(g, i, j, Sum3At(a[..], b[..], c[..], d[..], add, close))
      {
        var index := Index2D(g, i, j);
        AllStep(g, i, j, Sum3At(a[..], b[..], c[..], d[..], add, close));
        var expected := add(add(a[index], b[index]), c[index]);
        if !close(d[index], expected) {
          success := false;
        }
        j := j + 1;
      }
      AllRowEnd(g, i, Sum3At(a[..], b[..], c[..], d[..], add, close));
      i := i + 1;
    }
  }

  // ---------------------------------------------------------------------
  // What the checks mean.

  /** The R1W1 verdict reads only mapped host indices: buffers that agree
      there get the same verdict, whatever their padding holds. */
  lemma VerdictIgnoresPadding<T>(x: seq<T>, y: seq<T>, x': seq<T>, y': seq<T>, g: Grid)
    requires WellFormed(g) && |x| == |x'| == |y| == |y'| == PaddedSize2D(g)
    requires forall k :: 0 <= k < |x| && Mapped2D(g, k) ==> x[k] == x'[k] && y[k] == y'[k]
    ensures All(g, SameAt(x, y)) <==> All(g, SameAt(x', y'))
  {
    forall i, j | InGrid(g, i, j)
      ensures SameAt(x, y)(Index2D(g, i, j)) == SameAt(x', y')(Index2D(g, i, j))
    {
      DecodeIndex(g, i, j);
    }
  }

  /** A faithful copy of the filled input passes the R1W1 check, whatever
      either buffer held before the fill. */
  lemma CopyOfFillPasses<T>(s: seq<T>, t: seq<T>, g: Grid, v: (int, int) -> T)
    requires WellFormed(g) && |s| == |t| == PaddedSize2D(g)
    ensures All(g, SameAt(Filled2D(s, g, v), Filled2D(t, g, v)))
  {
    Filled2DContents(s, g, v);
    Filled2DContents(t, g, v);
  }

  /** One differing grid position fails the R1W1 check. */
  lemma MismatchFails<T>(x: seq<T>, y: seq<T>, g: Grid, i: int, j: int)
    requires WellFormed(g) && |x| == |y| == PaddedSize2D(g) && InGrid(g, i, j)
    requires x[Index2D(g, i, j)] != y[Index2D(g, i, j)]
    ensures !All(g, SameAt(x, y))
  {
    assert !SameAt(x, y)(Index2D(g, i, j));
  }
}
