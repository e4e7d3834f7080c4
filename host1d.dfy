/** The 1D drivers' host loops: filling the padded buffers and checking
    what the kernels wrote back.

    The fill writes the logical elements of each input buffer at
    `pad + i`; the random values are modelled as arbitrary functions of
    the logical index.  Each check clears its `success` flag at any
    mismatch among the logical elements.  The loops run in OpenMP
    parallel regions in the drivers; the iterations touch disjoint
    elements, so they are modelled sequentially. */
module Host1D {
  import opened Padding

  /** The R1W1 and R2W2 verdict: the two buffers agree on every logical
      element. */
  predicate Agree1D<T(==)>(x: seq<T>, y: seq<T>, pad: int, n: int)
    requires 0 <= pad && pad + n <= |x| && pad + n <= |y|
  {
    forall i :: 0 <= i < n ==> x[Index1D(pad, i)] == y[Index1D(pad, i)]
  }

  /** The R2W1 verdict: out holds the sum of a and b, up to `close`. */
  predicate Sum2Close<T>(a: seq<T>, b: seq<T>, out: seq<T>, pad: int, n: int,
                         add: (T, T) -> T, close: (T, T) -> bool)
    requires 0 <= pad && pad + n <= |a| && pad + n <= |b| && pad + n <= |out|
  {
    forall i :: 0 <= i < n ==> close(out[Index1D(pad, i)], add(a[Index1D(pad, i)], b[Index1D(pad, i)]))
  }

  /** The R3W1 verdict: out holds the sum of a, b and c (added left to
      right, as the C expression does), up to `close`. */
  predicate Sum3Close<T>(a: seq<T>, b: seq<T>, c: seq<T>, out: seq<T>, pad: int, n: int,
                         add: (T, T) -> T, close: (T, T) -> bool)
    requires 0 <= pad && pad + n <= |a| && pad + n <= |b| && pad + n <= |c| && pad + n <= |out|
  {
    forall i :: 0 <= i < n ==>
      close(out[Index1D(pad, i)], add(add(a[Index1D(pad, i)], b[Index1D(pad, i)]), c[Index1D(pad, i)]))
  }

  // One more logical element checked.

  lemma AgreeStep<T>(x: seq<T>, y: seq<T>, pad: int, i: int)
    requires 0 <= pad && 0 <= i && pad + i < |x| && pad + i < |y|
    ensures Agree1D(x, y, pad, i + 1) <==> Agree1D(x, y, pad, i) && x[pad + i] == y[pad + i]
  {
    assert Index1D(pad, i) == pad + i;
  }

  lemma Sum2Step<T>(a: seq<T>, b: seq<T>, out: seq<T>, pad: int, i: int,
                    add: (T, T) -> T, close: (T, T) -> bool)
    requires 0 <= pad && 0 <= i && pad + i < |a| && pad + i < |b| && pad + i < |out|
    ensures Sum2Close(a, b, out, pad, i + 1, add, close)
            <==> Sum2Close(a, b, out, pad, i, add, close) && close(out[pad + i], add(a[pad + i], b[pad + i]))
  {
    assert Index1D(pad, i) == pad + i;
  }

  lemma Sum3Step<T>(a: seq<T>, b: seq<T>, c: seq<T>, out: seq<T>, pad: int, i: int,
                    add: (T, T) -> T, close: (T, T) -> bool)
    requires 0 <= pad && 0 <= i && pad + i < |a| && pad + i < |b| && pad + i < |c| && pad + i < |out|
    ensures Sum3Close(a, b, c, out, pad, i + 1, add, close)
            <==> Sum3Close(a, b, c, out, pad, i, add, close)
                 && close(out[pad + i], add(add(a[pad + i], b[pad + i]), c[pad + i]))
  {
    assert Index1D(pad, i) == pad + i;
  }

  /** Writes v(i) at `pad + i` for every i < n and nothing else. */
  method FillOne<T>(a: array<T>, pad: int, n: int, v: int -> T)
    requires 0 <= pad && 0 <= n && pad + n <= a.Length
    modifies a
    ensures a[..] == Filled1D(old(a[..]), pad, n, v)
  {
    var i := 0;
    while i < n
      invariant 0 <= i <= n
      invariant forall k :: 0 <= k < a.Length ==>
                  a[k] == if pad <= k < pad + i then v(k - pad) else old(a[k])
    {
      a[pad + i] := v(i);
      i := i + 1;
    }
    assert forall k :: 0 <= k < a.Length ==> a[..][k] == Filled1D(old(a[..]), pad, n, v)[k];
  }

  /** fpga-mem-bench-host-std.c's fill of A, B and C: one loop writing all
      three buffers at each logical index. */
  method FillABC<T>(a: array<T>, b: array<T>, c: array<T>, pad: int, n: int,
                    va: int -> T, vb: int -> T, vc: int -> T)
    requires a != b && b != c && a != c
    requires 0 <= pad && 0 <= n && pad + n <= a.Length && pad + n <= b.Length && pad + n <= c.Length
    modifies a, b, c
    ensures a[..] == Filled1D(old(a[..]), pad, n, va)
    ensures b[..] == Filled1D(old(b[..]), pad, n, vb)
    ensures c[..] == Filled1D(old(c[..]), pad, n, vc)
  {
    var i := 0;
    while i < n
      invariant 0 <= i <= n
      invariant forall k :: 0 <= k < a.Length ==>
                  a[k] == if pad <= k < pad + i then va(k - pad) else old(a[k])
      invariant forall k :: 0 <= k < b.Length ==>
                  b[k] == if pad <= k < pad + i then vb(k - pad) else old(b[k])
      invariant forall k :: 0 <= k < c.Length ==>
                  c[k] == if pad <= k < pad + i then vc(k - pad) else old(c[k])
    {
      a[pad + i] := va(i);
      b[pad + i] := vb(i);
      c[pad + i] := vc(i);
      i := i + 1;
    }
    assert forall k :: 0 <= k < a.Length ==> a[..][k] == Filled1D(old(a[..]), pad, n, va)[k];
    assert forall k :: 0 <= k < b.Length ==> b[..][k] == Filled1D(old(b[..]), pad, n, vb)[k];
    assert forall k :: 0 <= k < c.Length ==> c[..][k] == Filled1D(old(c[..]), pad, n, vc)[k];
  }

  /** The stream drivers' fill of A and B: one loop writing both buffers at
      each logical index; C is left to the kernel. */
  method FillAB<T>(a: array<T>, b: array<T>, pad: int, n: int, va: int -> T, vb: int -> T)
    requires a != b
    requires 0 <= pad && 0 <= n && pad + n <= a.Length && pad + n <= b.Length
    modifies a, b
    ensures a[..] == Filled1D(old(a[..]), pad, n, va)
    ensures b[..] == Filled1D(old(b[..]), pad, n, vb)
  {
    var i := 0;
    while i < n
      invariant 0 <= i <= n
      invariant forall k :: 0 <= k < a.Length ==>
                  a[k] == if pad <= k < pad + i then va(k - pad) else old(a[k])
      invariant forall k :: 0 <= k < b.Length ==>
                  b[k] == if pad <= k < pad + i then vb(k - pad) else old(b[k])
    {
      a[pad + i] := va(i);
      b[pad + i] := vb(i);
      i := i + 1;
    }
    assert forall k :: 0 <= k < a.Length ==> a[..][k] == Filled1D(old(a[..]), pad, n, va)[k];
    assert forall k :: 0 <= k < b.Length ==> b[..][k] == Filled1D(old(b[..]), pad, n, vb)[k];
  }

  /** fpga-stream.c's fill: two loops, A first and then B, over unpadded
      buffers of exactly `size` floats. */
  method FillUnpadded<T>(a: array<T>, b: array<T>, n: int, va: int -> T, vb: int -> T)
    requires a != b && 0 <= n && a.Length == n && b.Length == n
    modifies a, b
    ensures a[..] == seq(n, i requires 0 <= i < n => va(i))
    ensures b[..] == seq(n, i requires 0 <= i < n => vb(i))
  {
    FillOne(a, 0, n, va);
    FillOne(b, 0, n, vb);
    assert forall k :: 0 <= k < n ==> a[..][k] == va(k);
    assert forall k :: 0 <= k < n ==> b[..][k] == vb(k);
  }

  /** The R1W1 check (A against the written buffer), each driver's. */
  method CheckCopy<T(==)>(a: array<T>, d: array<T>, pad: int, n: int) returns (success: bool)
    requires 0 <= pad && 0 <= n && pad + n <= a.Length && pad + n <= d.Length
    ensures success <==> Agree1D(a[..], d[..], pad, n)
  {
    success := true;
    var i := 0;
    while i < n
      invariant 0 <= i <= n
      invariant success <==> Agree1D(a[..], d[..], pad, i)
    {
      AgreeStep(a[..], d[..], pad, i);
      if a[pad + i] != d[pad + i] {
        success := false;
      }
      i := i + 1;
    }
  }

  /** The R2W2 check: A against C and B against D. */
  method CheckSwap<T(==)>(a: array<T>, b: array<T>, c: array<T>, d: array<T>, pad: int, n: int)
    returns (success: bool)
    requires 0 <= pad && 0 <= n
    requires pad + n <= a.Length && pad + n <= b.Length && pad + n <= c.Length && pad + n <= d.Length
    ensures success <==> Agree1D(a[..], c[..], pad, n) && Agree1D(b[..], d[..], pad, n)
  {
    success := true;
    var i := 0;
    while i < n
      invariant 0 <= i <= n
      invariant success <==> Agree1D(a[..], c[..], pad, i) && Agree1D(b[..], d[..], pad, i)
    {
      AgreeStep(a[..], c[..], pad, i);
      AgreeStep(b[..], d[..], pad, i);
      if a[pad + i] != c[pad + i] || b[pad + i] != d[pad + i] {
        success := false;
      }
      i := i + 1;
    }
  }

  /** The R2W1 check (and fpga-stream-host-std.c's r2w1 one). */
  method CheckSum2<T>(a: array<T>, b: array<T>, out: array<T>, pad: int, n: int,
                      add: (T, T) -> T, close: (T, T) -> bool) returns (success: bool)
    requires 0 <= pad && 0 <= n && pad + n <= a.Length && pad + n <= b.Length && pad + n <= out.Length
    ensures success <==> Sum2Close(a[..], b[..], out[..], pad, n, add, close)
  {
    success := true;
    var i := 0;
    while i < n
      invariant 0 <= i <= n
      invariant success <==> Sum2Close(a[..], b[..], out[..], pad, i, add, close)
    {
      Sum2Step(a[..], b[..], out[..], pad, i, add, close);
      var expected := add(a[pad + i], b[pad + i]);
      if !close(out[pad + i], expected) {
        success := false;
      }
      i := i + 1;
    }
  }

  /** The R3W1 check. */
  method CheckSum3<T>(a: array<T>, b: array<T>, c: array<T>, out: array<T>, pad: int, n: int,
                      add: (T, T) -> T, close: (T, T) -> bool) returns (success: bool)
    requires 0 <= pad && 0 <= n
    requires pad + n <= a.Length && pad + n <= b.Length && pad + n <= c.Length && pad + n <= out.Length
    ensures success <==> Sum3Close(a[..], b[..], c[..], out[..], pad, n, add, close)
  {
    success := true;
    var i := 0;
    while i < n
      invariant 0 <= i <= n
      invariant success <==> Sum3Close(a[..], b[..], c[..], out[..], pad, i, add, close)
    {
      Sum3Step(a[..], b[..], c[..], out[..], pad, i, add, close);
      var expected := add(add(a[pad + i], b[pad + i]), c[pad + i]);
      if !close(out[pad + i], expected) {
        success := false;
      }
      i := i + 1;
    }
  }

  // ---------------------------------------------------------------------
  // What the checks mean.

  /** The verdict reads only the logical elements: buffers that agree there
      get the same verdict, whatever their padding holds. */
  lemma AgreeIgnoresPadding<T>(x: seq<T>, y: seq<T>, x': seq<T>, y': seq<T>, pad: int, n: int)
    requires 0 <= pad && 0 <= n && |x| == |x'| == |y| == |y'| == PaddedSize1D(pad, n)
    requires x[pad..] == x'[pad..] && y[pad..] == y'[pad..]
    ensures Agree1D(x, y, pad, n) <==> Agree1D(x', y', pad, n)
  {
    forall i | 0 <= i < n
      ensures x[Index1D(pad, i)] == x'[Index1D(pad, i)] && y[Index1D(pad, i)] == y'[Index1D(pad, i)]
    {
      assert x[pad..][i] == x'[pad..][i] && y[pad..][i] == y'[pad..][i];
    }
  }

  /** A faithful copy of the filled input passes the R1W1 check, whatever
      either buffer held before the fill. */
  lemma CopyOfFillPasses<T>(s: seq<T>, t: seq<T>, pad: int, n: int, v: int -> T)
    requires 0 <= pad && 0 <= n && |s| == |t| == PaddedSize1D(pad, n)
    ensures Agree1D(Filled1D(s, pad, n, v), Filled1D(t, pad, n, v), pad, n)
  {
  }

  /** The R1W1 check fails exactly when some logical element differs, and
      the R2W2 check fails as soon as either pair differs somewhere. */
  lemma MismatchFails<T>(x: seq<T>, y: seq<T>, pad: int, n: int, i: int)
    requires 0 <= pad && pad + n <= |x| && pad + n <= |y| && 0 <= i < n
    requires x[pad + i] != y[pad + i]
    ensures !Agree1D(x, y, pad, n)
  {
    assert Index1D(pad, i) == pad + i;
  }
}
