/**
 * The modular arithmetic helper of src/lib/math/algebra.ts: `mod`, the
 * canonical representative of a value under an optional modulus, and `gcd`,
 * the Euclidean loop. Both are written in terms of JavaScript's `%`, which
 * truncates toward zero; `TruncRem` models that operator, and the lemmas
 * relate it to Dafny's Euclidean `%`.
 */
module Algebra {
  import opened Wrappers

  function Abs(x: int): (r: int)
    ensures r >= 0 && (r == x || r == -x)
  {
    if x < 0 then -x else x
  }

  // ---------------------------------------------------------------------------
  // Euclidean division facts used throughout
  // ---------------------------------------------------------------------------

  lemma {:induction false} MulAtLeast(k: int, m: int)
    requires k >= 1 && m >= 1
    ensures k * m >= m
  {
    if k > 1 {
      MulAtLeast(k - 1, m);
      assert k * m == (k - 1) * m + m;
    }
  }

  /** Any decomposition `v == q * m + c` with `0 <= c < m` is Dafny's Euclidean one. */
  lemma ModUnique(v: int, m: int, q: int, c: int)
    requires m >= 1 && 0 <= c < m && v == q * m + c
    ensures v / m == q && v % m == c
  {
    var q', c' := v / m, v % m;
    assert (q - q') * m == c' - c;
    if q > q' {
      MulAtLeast(q - q', m);
      assert false;
    } else if q < q' {
      MulAtLeast(q' - q, m);
      assert false;
    }
  }

  // ---------------------------------------------------------------------------
  // JavaScript's remainder operator
  // ---------------------------------------------------------------------------

  /**
   * `a % b` as JavaScript evaluates it on integers: the result has the sign of
   * the dividend `a`, is smaller than `b` in magnitude, and differs from `a`
   * by a multiple of `b`.
   */
  function TruncRem(a: int, b: int): (r: int)
    requires b != 0
    ensures a >= 0 ==> 0 <= r < Abs(b)
    ensures a < 0 ==> -Abs(b) < r <= 0
    ensures (a - r) % Abs(b) == 0
  {
    var n := Abs(b);
    if a >= 0 then
      ModUnique(a - a % n, n, a / n, 0);
      a % n
    else
      ModUnique(a + (-a) % n, n, -((-a) / n), 0);
      -((-a) % n)
  }

  // ---------------------------------------------------------------------------
  // mod (src/lib/math/algebra.ts:2-12)
  // ---------------------------------------------------------------------------

  /**
   * `mod(value, modulo?)`: the value itself when no modulus is given, a
   * RangeError for a modulus below 1, and otherwise the representative of
   * `value` in `[0, modulo)`, computed with the truncating remainder and a
   * correction for negative values.
   */
  function Mod(value: int, modulo: Option<int>): (r: Result<int>)
    ensures modulo.None? ==> r == Ok(value)
    ensures modulo.Some? ==> (r.Err? <==> modulo.value < 1)
    ensures r.Err? ==> r.error == InvalidModulus
    ensures modulo.Some? && r.Ok? ==> 0 <= r.value < modulo.value
  {
    match modulo
    case None => Ok(value)
    case Some(m) =>
      if m < 1 then Err(InvalidModulus)
      else if value < 0 then Ok(TruncRem(m + TruncRem(value, m), m))
      else Ok(TruncRem(value, m))
  }

  /** The moduli `Mod` accepts. */
  predicate ValidModulus(modulo: Option<int>) {
    modulo.Some? ==> modulo.value >= 1
  }

  /** `Mod` on an accepted modulus, for callers that have checked it already. */
  function Reduce(value: int, modulo: Option<int>): int
    requires ValidModulus(modulo)
  {
    Mod(value, modulo).value
  }

  /** Although the source uses the truncating `%`, `mod` agrees with Dafny's Euclidean `%`. */
  lemma ModIsEuclidean(v: int, m: int)
    requires m >= 1
    ensures Mod(v, Some(m)) == Ok(v % m)
  {
    if v < 0 {
      var p := -v;
      if p % m == 0 {
        ModUnique(m, m, 1, 0);
        ModUnique(v, m, -(p / m), 0);
      } else {
        var c := m - p % m;
        ModUnique(c, m, 0, c);
        ModUnique(v, m, -(p / m) - 1, c);
      }
    }
  }

  /** `mod` is congruent to its argument: the two differ by a multiple of `m`. */
  lemma ModCongruent(v: int, m: int)
    requires m >= 1
    ensures (v - Reduce(v, Some(m))) % m == 0
  {
    ModIsEuclidean(v, m);
    ModUnique(v - v % m, m, v / m, 0);
  }

  /** Applying `mod` twice with the same modulus is the same as applying it once. */
  lemma ModIdempotent(v: int, m: int)
    requires m >= 1
    ensures Mod(Reduce(v, Some(m)), Some(m)) == Mod(v, Some(m))
  {
    ModIsEuclidean(v, m);
    var c := v % m;
    ModIsEuclidean(c, m);
    ModUnique(c, m, 0, c);
  }

  /** `mod` depends only on the class of its argument: values congruent modulo `m` share a representative. */
  lemma ModOfCongruent(u: int, v: int, m: int)
    requires m >= 1 && (u - v) % m == 0
    ensures Reduce(u, Some(m)) == Reduce(v, Some(m))
  {
    ModIsEuclidean(u, m);
    ModIsEuclidean(v, m);
    DividesAdd(m, v, u - v);
  }

  // ---------------------------------------------------------------------------
  // Divisibility
  // ---------------------------------------------------------------------------

  /** `d` divides `x`, for a positive `d`. */
  predicate Divides(d: int, x: int)
    requires d >= 1
  {
    x % d == 0
  }

  lemma DividesAdd(d: int, x: int, y: int)
    requires d >= 1 && Divides(d, y)
    ensures (x + y) % d == x % d
  {
    ModUnique(x + y, d, x / d + y / d, x % d);
  }

  lemma DividesNeg(d: int, x: int)
    requires d >= 1
    ensures Divides(d, -x) <==> Divides(d, x)
  {
    var q, c := x / d, x % d;
    if c == 0 {
      ModUnique(-x, d, -q, 0);
    } else {
      ModUnique(-x, d, -q - 1, d - c);
    }
  }

  lemma DividesMul(d: int, x: int, k: int)
    requires d >= 1 && Divides(d, x)
    ensures Divides(d, k * x)
  {
    var q := x / d;
    assert k * x == (k * q) * d;
    ModUnique(k * x, d, k * q, 0);
  }

  lemma DividesLe(d: int, x: int)
    requires d >= 1 && x >= 1 && Divides(d, x)
    ensures d <= x
  {
    var q := x / d;
    if q < 1 {
      assert false;
    }
    MulAtLeast(q, d);
  }

  /** Congruence modulo `m` is kept by addition. */
  lemma CongruentAdd(x: int, x': int, y: int, y': int, m: int)
    requires m >= 1 && Divides(m, x - x') && Divides(m, y - y')
    ensures Divides(m, (x + y) - (x' + y'))
  {
    DividesAdd(m, x - x', y - y');
    assert (x + y) - (x' + y') == (x - x') + (y - y');
  }

  /** Congruence modulo `m` is kept by multiplication. */
  lemma CongruentMul(x: int, x': int, y: int, y': int, m: int)
    requires m >= 1 && Divides(m, x - x') && Divides(m, y - y')
    ensures Divides(m, x * y - x' * y')
  {
    DividesMul(m, y - y', x);
    DividesMul(m, x - x', y');
    CongruentAdd(x * (y - y'), 0, y' * (x - x'), 0, m);
    assert x * y - x' * y' == x * (y - y') + y' * (x - x');
  }

  /** Congruence modulo `m` is kept by subtraction. */
  lemma CongruentSub(x: int, x': int, y: int, y': int, m: int)
    requires m >= 1 && Divides(m, x - x') && Divides(m, y - y')
    ensures Divides(m, (x - y) - (x' - y'))
  {
    DividesNeg(m, y - y');
    CongruentAdd(x, x', -y, -y', m);
  }

  /** One step of Euclid's loop keeps the common divisors: those of `(x, y)` are those of `(y, x % y)`. */
  lemma EuclidStep(d: int, x: int, y: int)
    requires d >= 1 && y != 0
    ensures Divides(d, x) && Divides(d, y) <==> Divides(d, y) && Divides(d, TruncRem(x, y))
  {
    var r, n := TruncRem(x, y), Abs(y);
    var k := (x - r) / n;
    ModUnique(x - r, n, k, 0);
    if Divides(d, y) {
      DividesNeg(d, y);
      assert Divides(d, n);
      DividesMul(d, n, k);
      DividesAdd(d, r, k * n);
      assert x == r + k * n;
    }
  }

  // ---------------------------------------------------------------------------
  // gcd (src/lib/math/algebra.ts:14-21)
  // ---------------------------------------------------------------------------

  /**
   * `g` is the greatest common divisor of `a` and `b`: non-negative, and its
   * positive divisors are exactly the common positive divisors of `a` and `b`.
   */
  ghost predicate IsGcd(g: int, a: int, b: int) {
    g >= 0 && forall d :: d >= 1 ==> (Divides(d, g) <==> Divides(d, a) && Divides(d, b))
  }

  /** `gcd(a, b)`: Euclid's loop on the truncating remainder, then the absolute value. */
  method Gcd(a: int, b: int) returns (g: int)
    ensures IsGcd(g, a, b)
  {
    var x, y := a, b;
    while y != 0
      invariant forall d :: d >= 1 ==> (Divides(d, x) && Divides(d, y) <==> Divides(d, a) && Divides(d, b))
      decreases Abs(y)
    {
      forall d | d >= 1
        ensures Divides(d, x) && Divides(d, y) <==> Divides(d, y) && Divides(d, TruncRem(x, y))
      {
        EuclidStep(d, x, y);
      }
      var temp := y;
      y := TruncRem(x, y);
      x := temp;
    }
    g := Abs(x);
    forall d | d >= 1
      ensures Divides(d, g) <==> Divides(d, x)
    {
      DividesNeg(d, x);
    }
  }

  /** There is only one greatest common divisor, so `Gcd` is determined by its contract. */
  lemma GcdUnique(g1: int, g2: int, a: int, b: int)
    requires IsGcd(g1, a, b) && IsGcd(g2, a, b)
    ensures g1 == g2
  {
    if g1 == 0 && g2 > 0 {
      assert Divides(g2 + 1, g1);
      ModUnique(g2, g2 + 1, 0, g2);
      assert false;
    } else if g2 == 0 && g1 > 0 {
      assert Divides(g1 + 1, g2);
      ModUnique(g1, g1 + 1, 0, g1);
      assert false;
    } else if g1 > 0 && g2 > 0 {
      ModUnique(g1, g1, 1, 0);
      ModUnique(g2, g2, 1, 0);
      assert Divides(g1, g1) && Divides(g2, g2);
      DividesLe(g1, g2);
      DividesLe(g2, g1);
    }
  }

  /** gcd(a, 0) == |a|, and so gcd(0, 0) == 0. */
  lemma GcdWithZero(g: int, a: int)
    requires IsGcd(g, a, 0)
    ensures g == Abs(a)
  {
    forall d | d >= 1
      ensures Divides(d, Abs(a)) <==> Divides(d, a) && Divides(d, 0)
    {
      DividesNeg(d, a);
    }
    assert IsGcd(Abs(a), a, 0);
    GcdUnique(g, Abs(a), a, 0);
  }

  /** gcd ignores argument order and the signs of both arguments. */
  lemma GcdSymmetries(g: int, a: int, b: int)
    requires IsGcd(g, a, b)
    ensures IsGcd(g, b, a) && IsGcd(g, -a, b) && IsGcd(g, a, -b)
  {
    forall d | d >= 1
      ensures (Divides(d, -a) <==> Divides(d, a)) && (Divides(d, -b) <==> Divides(d, b))
    {
      DividesNeg(d, a);
      DividesNeg(d, b);
    }
  }

  /** Instantiates the definition of `IsGcd` at one divisor. */
  lemma GcdDivisor(g: int, a: int, b: int, d: int)
    requires IsGcd(g, a, b) && d >= 1
    ensures Divides(d, g) <==> Divides(d, a) && Divides(d, b)
  {
  }

  /** The greatest common divisor is 0 exactly when both arguments are 0. */
  lemma GcdZeroIff(g: int, a: int, b: int)
    requires IsGcd(g, a, b)
    ensures g == 0 <==> a == 0 && b == 0
  {
    if b == 0 {
      GcdWithZero(g, a);
    } else if g == 0 {
      var e := Abs(b) + 1;
      ModUnique(Abs(b), e, 0, Abs(b));
      DividesNeg(e, b);
      GcdDivisor(g, a, b, e);
      assert false;
    }
  }

  /** A positive greatest common divisor is at least every common divisor. */
  lemma GcdIsGreatest(g: int, a: int, b: int, d: int)
    requires IsGcd(g, a, b) && g > 0
    requires d >= 1 && Divides(d, a) && Divides(d, b)
    ensures d <= g
  {
    GcdDivisor(g, a, b, d);
    DividesLe(d, g);
  }
}
