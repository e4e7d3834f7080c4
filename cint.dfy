/** Integer division and remainder as C defines them for `int` and `long`:
    the quotient truncates toward zero and the remainder takes the sign of
    the dividend.  Dafny's own `/` and `%` are Euclidean, so every layout
    computation of the host drivers goes through these two functions. */
module CInt {

  function Abs(x: int): nat
  {
    if x < 0 then -x else x
  }

  /** C's `a / b`. */
  function Div(a: int, b: int): int
    requires b != 0
  {
    var m := Abs(a) / Abs(b);
    if (a >= 0) == (b > 0) then m else -m
  }

  /** C's `a % b`: what the truncating quotient leaves over. */
  function Mod(a: int, b: int): int
    requires b != 0
  {
    a - Div(a, b) * b
  }

  /** The defining properties of C division: the quotient is rounded
      toward zero, and the remainder is smaller than the divisor in
      magnitude and carries the sign of the dividend. */
  lemma Truncation(a: int, b: int)
    requires b != 0
    ensures a == Div(a, b) * b + Mod(a, b)
    ensures Abs(Div(a, b)) * Abs(b) <= Abs(a) < (Abs(Div(a, b)) + 1) * Abs(b)
    ensures Div(a, b) != 0 ==> (Div(a, b) > 0 <==> ((a > 0) == (b > 0)))
    ensures Abs(Mod(a, b)) < Abs(b)
    ensures Mod(a, b) != 0 ==> (Mod(a, b) > 0 <==> a > 0)
  {
    QuotientRoundsToZero(a, b);
    RemainderFollowsDividend(a, b);
  }

  lemma QuotientRoundsToZero(a: int, b: int)
    requires b != 0
    ensures Abs(Div(a, b)) * Abs(b) <= Abs(a) < (Abs(Div(a, b)) + 1) * Abs(b)
    ensures Div(a, b) != 0 ==> (Div(a, b) > 0 <==> ((a > 0) == (b > 0)))
  {
    Euclid(Abs(a), Abs(b));
    var m, n := Abs(a) / Abs(b), Abs(b);
    assert (m + 1) * n == m * n + n;
    assert Abs(Div(a, b)) == m;
  }

  lemma RemainderFollowsDividend(a: int, b: int)
    requires b != 0
    ensures Abs(Mod(a, b)) < Abs(b)
    ensures Mod(a, b) != 0 ==> (Mod(a, b) > 0 <==> a > 0)
  {
    Euclid(Abs(a), Abs(b));
    var m, n := Abs(a) / Abs(b), Abs(b);
    var q := Div(a, b);
    if a >= 0 && b > 0 {
      assert q * b == m * n;
    } else if a >= 0 {
      assert q * b == m * n by { assert (-m) * b == m * (-b); }
    } else if b > 0 {
      assert q * b == -(m * n) by { assert (-m) * b == -(m * b); }
    } else {
      assert q * b == -(m * n) by { assert m * b == -(m * (-b)); }
    }
  }

  /** Euclidean division on naturals, as the solver needs it spelt out. */
  lemma Euclid(x: int, y: int)
    requires x >= 0 && y > 0
    ensures x == (x / y) * y + x % y && 0 <= x % y < y && x / y >= 0
    ensures x / y > 0 ==> x >= y
  {
    var m := x / y;
    if m > 0 { assert m * y >= y; }
  }

  /** On a non-negative dividend and a positive divisor the C and the
      Euclidean operators coincide. */
  lemma NonNegativeAgree(a: int, b: int)
    requires a >= 0 && b > 0
    ensures Div(a, b) == a / b && Mod(a, b) == a % b
  {
    assert a == (a / b) * b + a % b;
  }

  /** Quotient and remainder are determined by the division equation. */
  lemma DivUnique(n: int, v: int, q: int, r: int)
    requires v > 0 && n == q * v + r && 0 <= r < v
    ensures n / v == q && n % v == r
  {
    var q', r' := n / v, n % v;
    assert n == q' * v + r';
    if q' < q {
      MulMono(q' + 1, q, v);
    } else if q' > q {
      MulMono(q + 1, q', v);
    }
  }

  /** A multiple of the divisor divides exactly, whatever its sign. */
  lemma DivExact(k: int, b: int)
    requires b > 0
    ensures Div(k * b, b) == k && Mod(k * b, b) == 0
  {
    if k >= 0 {
      assert Abs(k * b) == k * b;
      DivUnique(k * b, b, k, 0);
    } else {
      assert Abs(k * b) == (-k) * b;
      DivUnique((-k) * b, b, -k, 0);
    }
  }

  // ---------------------------------------------------------------------
  // 64-bit conversions.  A `long` that meets a `sizeof` is converted to the
  // unsigned `size_t`, and the unsigned result is stored back in a `long`.

  /** 2^64: `size_t` holds values modulo this. */
  const Word: int := 0x1_0000_0000_0000_0000

  /** 2^63: a `long` lies in [-2^63, 2^63). */
  const HalfWord: int := 0x8000_0000_0000_0000

  /** The range of a C `int`, as `atoi` returns it. */
  predicate IsInt(x: int)
  {
    -0x8000_0000 <= x < 0x8000_0000
  }

  predicate IsLong(x: int)
  {
    -HalfWord <= x < HalfWord
  }

  /** `(size_t)x`: the value modulo 2^64, so a negative `long` becomes
      itself plus 2^64. */
  function ToSizeT(x: int): (r: int)
    ensures 0 <= r < Word
    ensures 0 <= x < Word ==> r == x
    ensures -Word <= x < 0 ==> r == x + Word
  {
    x % Word
  }

  /** An unsigned 64-bit value stored in a `long`, two's complement: the
      upper half of the range becomes negative. */
  function ToLong(u: int): (r: int)
    requires 0 <= u < Word
    ensures IsLong(r)
    ensures r == u || r == u - Word
    ensures u < HalfWord <==> r >= 0
  {
    if u < HalfWord then u else u - Word
  }

  /** A `long` that goes through `size_t` and back is unchanged. */
  lemma LongRoundTrip(x: int)
    requires IsLong(x)
    ensures ToLong(ToSizeT(x)) == x
  {
  }

  /** `(size_t)(4*m) / sizeof(float)`: m modulo 2^62, which always fits
      back in a `long`. */
  lemma QuarterOfSizeT(m: int)
    requires -Word / 4 <= m < Word / 4
    ensures 0 <= m ==> ToSizeT(4 * m) / 4 == m
    ensures m < 0 ==> ToSizeT(4 * m) / 4 == Word / 4 + m
  {
    if 0 <= m {
      DivUnique(4 * m, 4, m, 0);
    } else {
      DivUnique(4 * m + Word, 4, Word / 4 + m, 0);
    }
  }

  /** Multiplication distributes over a sum on the left. */
  lemma Distribute(a: int, d: int, x: int)
    ensures (a + d) * x == a * x + d * x
  {
  }

  lemma MulMono(a: int, b: int, v: int)
    requires a <= b && v >= 0
    ensures a * v <= b * v
  {
    assert b * v - a * v == (b - a) * v;
  }
}
