/**
 * Division by a constant through one multiplication: M = 2^64 / d rounded up, kept in 64 bits,
 * replaces d. All operands are the C unsigned integers, with every wrap-around written out.
 */
module FastDivision {
  import opened Arithmetic

  const TWO32: nat := 0x1_0000_0000
  const TWO64: nat := 0x1_0000_0000_0000_0000

  /** The constant M; it wraps to 0 for d = 1. */
  function Reciprocal(d: nat): nat
    requires d > 0
  {
    ((TWO64 - 1) / d + 1) % TWO64
  }

  /** The upper 64 bits of the 128-bit product. */
  function FastQuotient(n: nat, d: nat): nat
    requires d > 0
  {
    (Reciprocal(d) * n) / TWO64
  }

  /** quickmod: the subtraction is done in 64 bits and the result cut to 32. */
  function QuickMod(n: nat, d: nat): nat
    requires d > 0
  {
    ((n - FastQuotient(n, d) * d) % TWO64) % TWO32
  }

  /** divisible: both sides are 64-bit, so M - 1 wraps as well. */
  function Divisible(n: nat, d: nat): bool
    requires d > 0
  {
    (n * Reciprocal(d)) % TWO64 <= (Reciprocal(d) - 1) % TWO64
  }

  // ---------------------------------------------------------------- arithmetic

  lemma CancelLess(d: nat, x: int, y: int)
    requires d > 0 && d * x < d * y
    ensures x < y
  {
  }

  lemma ProductBound(a: nat, b: nat, c: nat)
    requires a < c && b < c
    ensures a * b < c * c
  {
    calc {
      a * b;
      <= { MulMono(a, b, c); }
      a * c;
      < { MulMono(c, a, c); }
      c * c;
    }
  }

  lemma MulMono(a: nat, x: nat, y: nat)
    requires x < y
    ensures a * x <= a * y && x * a <= y * a && (a > 0 ==> a * x < a * y && x * a < y * a)
  {
  }

  /** The product splits into the quotient, a word up, and a remainder f = q * e + r * M. */
  lemma SplitProduct(W: nat, d: nat, M: nat, e: nat, q: nat, r: nat)
    requires M * d == W + e
    ensures M * (q * d + r) == W * q + (q * e + r * M)
  {
    calc {
      M * (q * d + r);
      q * (M * d) + r * M;
      q * (W + e) + r * M;
      W * q + (q * e + r * M);
    }
  }

  lemma ScaledRemainder(W: nat, d: nat, M: nat, e: nat, q: nat, r: nat)
    requires M * d == W + e
    ensures d * (q * e + r * M) == e * (q * d + r) + r * W
  {
    calc {
      d * (q * e + r * M);
      (q * d) * e + r * (M * d);
      (q * d) * e + r * (W + e);
      e * (q * d + r) + r * W;
    }
  }

  /** The remainder stays inside the word, and below M exactly when r is 0. */
  lemma RemainderInWord(W: nat, d: nat, M: nat, e: nat, n: nat, q: nat, r: nat, f: nat)
    requires d > 0 && r < d && e * n < W <= d * M
    requires d * f == e * n + r * W && f >= r * M
    ensures f < W && (f < M <==> r == 0)
  {
    assert r * W + W == (r + 1) * W;
    LessTimes(r + 1, d, W);
    CancelLess(d, f, W);
    if r == 0 {
      CancelLess(d, f, M);
    } else {
      LessTimes(1, r, M);
    }
  }

  /** Multiplying by the rounded-up reciprocal divides, and tells multiples from the others. */
  lemma DivideByMultiplying(W: nat, d: nat, M: nat, e: nat, n: nat)
    requires W > 0 && d > 0 && M * d == W + e && e * n < W
    ensures (M * n) / W == n / d
    ensures (M * n) % W < M <==> n % d == 0
  {
    Recompose(n, d);
    DivideParts(W, d, M, e, n, n / d, n % d);
  }

  lemma DivideParts(W: nat, d: nat, M: nat, e: nat, n: nat, q: nat, r: nat)
    requires W > 0 && d > 0 && M * d == W + e && e * n < W && n == q * d + r && r < d
    ensures (M * n) / W == q && ((M * n) % W < M <==> r == 0)
  {
    var f := q * e + r * M;
    SplitProduct(W, d, M, e, q, r);
    ScaledRemainder(W, d, M, e, q, r);
    assert M * d == d * M;
    RemainderInWord(W, d, M, e, n, q, r, f);
    DivUnique(M * n, W, q, f);
  }

  lemma Recompose(n: nat, d: nat)
    requires d > 0
    ensures n == (n / d) * d + n % d
  {
  }

  lemma LessTimes(a: nat, b: nat, c: nat)
    requires a <= b
    ensures a * c <= b * c
  {
  }

  /** For d of at least 2 nothing wraps: M * d exceeds 2^64 by less than d. */
  lemma ReciprocalCeiling(d: nat) returns (e: nat)
    requires 2 <= d < TWO32
    ensures e < d && Reciprocal(d) * d == TWO64 + e && 1 <= Reciprocal(d) < TWO64
  {
    var h := (TWO64 - 1) / d;
    var l := (TWO64 - 1) % d;
    assert TWO64 - 1 == d * h + l;
    assert h + 1 < TWO64 by { HalfAtMost(d, h, TWO64); }
    e := d - 1 - l;
    assert (h + 1) * d == d * h + d;
  }

  lemma HalfAtMost(d: nat, h: nat, W: nat)
    requires d >= 2 && d * h <= W - 1 && W >= 3
    ensures h + 1 < W
  {
    LessTimes(2, d, h);
  }

  // ---------------------------------------------------------------- the promises

  /** The shifted product is the quotient exactly when d is not 1 or n is 0. */
  lemma QuotientExact(n: nat, d: nat)
    requires 0 < d < TWO32 && n < TWO32
    ensures FastQuotient(n, d) == n / d <==> (d >= 2 || n == 0)
  {
    hide Reciprocal;
    if d >= 2 {
      var e := ReciprocalCeiling(d);
      ProductBound(e, n, TWO32);
      DivideByMultiplying(TWO64, d, Reciprocal(d), e, n);
    } else {
      ReciprocalOfOne(n);
    }
  }

  lemma ReciprocalOfOne(n: nat)
    ensures Reciprocal(1) == 0 && Reciprocal(1) * n == 0 && n * Reciprocal(1) == 0
  {
  }

  /** quickmod is the remainder exactly when d is not 1 or n is 0. */
  lemma QuickModExact(n: nat, d: nat)
    requires 0 < d < TWO32 && n < TWO32
    ensures QuickMod(n, d) == n % d <==> (d >= 2 || n == 0)
  {
    hide Reciprocal, FastQuotient;
    QuotientExact(n, d);
    if d >= 2 {
      Recompose(n, d);
      NothingCut(n % d);
    } else {
      FastQuotientOfOne(n);
      NothingCut(n);
    }
  }

  lemma NothingCut(r: nat)
    requires r < TWO32
    ensures (r % TWO64) % TWO32 == r
  {
  }

  lemma FastQuotientOfOne(n: nat)
    ensures FastQuotient(n, 1) == 0
  {
    hide Reciprocal;
    ReciprocalOfOne(n);
  }

  /** With d = 1 the constant is 0, and 1 mod 1 comes out as 1. */
  lemma QuickModByOne()
    ensures QuickMod(1, 1) == 1 && 1 % 1 == 0
  {
    ReciprocalOfOne(1);
  }

  /** divisible is right for every divisor, 1 included. */
  lemma DivisibleExact(n: nat, d: nat)
    requires 0 < d < TWO32 && n < TWO32
    ensures Divisible(n, d) <==> n % d == 0
  {
    hide Reciprocal;
    if d >= 2 {
      var e := ReciprocalCeiling(d);
      ProductBound(e, n, TWO32);
      var M := Reciprocal(d);
      DivideByMultiplying(TWO64, d, M, e, n);
      assert n * M == M * n;
    } else {
      ReciprocalOfOne(n);
    }
  }
}
