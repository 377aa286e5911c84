/**
 * The determinant of src/lib/math/matrix.ts:114-136: cofactor expansion along
 * the first row, with the 1×1 and 2×2 cases written out, and what it has to do
 * with `mod`.
 */
module Determinant {
  import opened Wrappers
  import opened Algebra
  import opened Grids

  /** As many cells in every row as there are rows. */
  predicate IsSquare(g: Grid) {
    forall i :: 0 <= i < |g| ==> |g[i]| == |g|
  }

  /**
   * The sub-grid that `determinantRecursive` builds for column `c`: the rows
   * after the first (`slice(1)`), each without its cell at index `c` (`filter`).
   */
  function Minor(g: Grid, c: nat): (r: Grid)
    requires |g| >= 2 && IsSquare(g) && c < |g|
    ensures |r| == |g| - 1 && IsSquare(r)
    ensures forall i, j :: 0 <= i < |r| && 0 <= j < |r| ==> r[i][j] == g[i + 1][if j < c then j else j + 1]
  {
    DeleteColumnOf(g[1..], c)
  }

  /** `i % 2 === 0 ? 1 : -1`. */
  function Sign(i: nat): int {
    if i % 2 == 0 then 1 else -1
  }

  /** The signs of the cofactors alternate, starting with +1. */
  lemma SignAlternates(i: nat)
    ensures Sign(0) == 1 && Sign(i + 1) == -Sign(i)
  {
  }

  /** `determinantRecursive`: the entry itself for 1×1, `ad - bc` for 2×2, the cofactor sum otherwise. */
  function Det(g: Grid): int
    requires |g| >= 1 && IsSquare(g)
    decreases |g|, 1, 0
  {
    if |g| == 1 then g[0][0]
    else if |g| == 2 then g[0][0] * g[1][1] - g[0][1] * g[1][0]
    else CofactorSum(g, |g|)
  }

  /** The loop's accumulator `det` after the columns `0 .. k-1` of the first row. */
  function CofactorSum(g: Grid, k: nat): int
    requires |g| >= 2 && IsSquare(g) && k <= |g|
    decreases |g|, 0, k
  {
    if k == 0 then 0
    else CofactorSum(g, k - 1) + Cofactor(g, k - 1)
  }

  /** The term the loop adds for column `c`: the cell, the determinant of its minor, and the sign. */
  function Cofactor(g: Grid, c: nat): int
    requires |g| >= 2 && IsSquare(g) && c < |g|
    decreases |g|, 0, 0
  {
    g[0][c] * Det(Minor(g, c)) * Sign(c)
  }

  /**
   * The 2×2 shortcut agrees with the cofactor expansion, so at every size
   * above 1 the determinant is the expansion along the first row.
   */
  lemma DetIsCofactorExpansion(g: Grid)
    requires |g| >= 2 && IsSquare(g)
    ensures Det(g) == CofactorSum(g, |g|)
  {
    if |g| == 2 {
      var m0, m1 := Minor(g, 0), Minor(g, 1);
      assert |m0| == 1 && m0[0][0] == g[1][1];
      assert |m1| == 1 && m1[0][0] == g[1][0];
      assert Det(m0) == g[1][1] && Det(m1) == g[1][0];
      assert Cofactor(g, 0) == g[0][0] * g[1][1];
      assert Cofactor(g, 1) == -(g[0][1] * g[1][0]);
      assert CofactorSum(g, 1) == Cofactor(g, 0);
    }
  }

  /** The accumulator stays 0 while the cells of the first row it has passed are 0. */
  lemma {:induction false} CofactorSumOfZeroPrefix(g: Grid, k: nat)
    requires |g| >= 2 && IsSquare(g) && k <= |g|
    requires forall c :: 0 <= c < k ==> g[0][c] == 0
    ensures CofactorSum(g, k) == 0
  {
    if k > 0 {
      CofactorSumOfZeroPrefix(g, k - 1);
    }
  }

  // ---------------------------------------------------------------------------
  // Determinants of the named grids
  // ---------------------------------------------------------------------------

  /** When the first row is 0 past its first cell, only the first cofactor remains. */
  lemma {:induction false} CofactorSumLeading(g: Grid, k: nat)
    requires |g| >= 2 && IsSquare(g) && 1 <= k <= |g|
    requires forall c :: 1 <= c < |g| ==> g[0][c] == 0
    ensures CofactorSum(g, k) == g[0][0] * Det(Minor(g, 0))
  {
    if k > 1 {
      CofactorSumLeading(g, k - 1);
    }
  }

  /** When every minor has determinant 0, so has the cofactor sum. */
  lemma {:induction false} CofactorSumOfSingularMinors(g: Grid, k: nat)
    requires |g| >= 2 && IsSquare(g) && k <= |g|
    requires forall c :: 0 <= c < |g| ==> Det(Minor(g, c)) == 0
    ensures CofactorSum(g, k) == 0
  {
    if k > 0 {
      CofactorSumOfSingularMinors(g, k - 1);
    }
  }

  /** The identity has determinant 1 at every size. */
  lemma {:induction false} DetIdentity(n: nat)
    requires n >= 1
    ensures Det(IdentityGrid(n)) == 1
  {
    if n >= 3 {
      var g := IdentityGrid(n);
      var minor := Minor(g, 0);
      forall i | 0 <= i < n - 1
        ensures minor[i] == IdentityGrid(n - 1)[i]
      {
      }
      assert minor == IdentityGrid(n - 1);
      DetIdentity(n - 1);
      CofactorSumLeading(g, n);
    }
  }

  /** A square grid of ones larger than 1×1 has determinant 0. */
  lemma {:induction false} DetOnes(n: nat)
    requires n >= 2
    ensures Det(OnesGrid(n, None)) == 0
  {
    if n >= 3 {
      var g := OnesGrid(n, None);
      forall c | 0 <= c < n
        ensures Det(Minor(g, c)) == 0
      {
        var minor := Minor(g, c);
        forall i | 0 <= i < n - 1
          ensures minor[i] == OnesGrid(n - 1, None)[i]
        {
        }
        assert minor == OnesGrid(n - 1, None);
        DetOnes(n - 1);
      }
      CofactorSumOfSingularMinors(g, n);
    }
  }

  // ---------------------------------------------------------------------------
  // The determinant and mod
  // ---------------------------------------------------------------------------

  /** The difference of the cells at `(i, j)`; the quantifier below is triggered on it alone. */
  function CellDiff(a: Grid, b: Grid, i: nat, j: nat): int
    requires i < |a| && j < |a[i]| && i < |b| && j < |b[i]|
  {
    a[i][j] - b[i][j]
  }

  /** Cell-wise congruent square grids of one size. */
  ghost predicate CongruentGrids(a: Grid, b: Grid, m: int)
    requires m >= 1
  {
    |a| == |b| && IsSquare(a) && IsSquare(b) &&
    forall i, j :: 0 <= i < |a| && 0 <= j < |a| ==> Divides(m, CellDiff(a, b, i, j))
  }

  /** Cell-wise congruent grids have congruent determinants. */
  lemma {:induction false} DetCongruent(a: Grid, b: Grid, m: int)
    requires m >= 1 && |a| >= 1 && CongruentGrids(a, b, m)
    ensures Divides(m, Det(a) - Det(b))
    decreases |a|, 1, 0
  {
    assert Divides(m, CellDiff(a, b, 0, 0));
    if |a| == 2 {
      assert Divides(m, CellDiff(a, b, 0, 1)) && Divides(m, CellDiff(a, b, 1, 0)) && Divides(m, CellDiff(a, b, 1, 1));
      CongruentMul(a[0][0], b[0][0], a[1][1], b[1][1], m);
      CongruentMul(a[0][1], b[0][1], a[1][0], b[1][0], m);
      CongruentSub(a[0][0] * a[1][1], b[0][0] * b[1][1], a[0][1] * a[1][0], b[0][1] * b[1][0], m);
    } else if |a| > 2 {
      CofactorSumCongruent(a, b, m, |a|);
    }
  }

  lemma {:induction false} CofactorSumCongruent(a: Grid, b: Grid, m: int, k: nat)
    requires m >= 1 && |a| >= 2 && CongruentGrids(a, b, m) && k <= |a|
    ensures Divides(m, CofactorSum(a, k) - CofactorSum(b, k))
    decreases |a|, 0, k
  {
    if k > 0 {
      CofactorSumCongruent(a, b, m, k - 1);
      CofactorCongruent(a, b, m, k - 1);
      CongruentAdd(CofactorSum(a, k - 1), CofactorSum(b, k - 1), Cofactor(a, k - 1), Cofactor(b, k - 1), m);
    }
  }

  /** One term of the expansion: congruent grids give congruent cofactors. */
  lemma {:induction false} CofactorCongruent(a: Grid, b: Grid, m: int, c: nat)
    requires m >= 1 && |a| >= 2 && CongruentGrids(a, b, m) && c < |a|
    ensures Divides(m, Cofactor(a, c) - Cofactor(b, c))
    decreases |a|, 0, 0
  {
    var ma, mb := Minor(a, c), Minor(b, c);
    forall i, j | 0 <= i < |ma| && 0 <= j < |ma|
      ensures Divides(m, CellDiff(ma, mb, i, j))
    {
      var j' := if j < c then j else j + 1;
      assert CellDiff(ma, mb, i, j) == CellDiff(a, b, i + 1, j');
    }
    assert CongruentGrids(ma, mb, m);
    DetCongruent(ma, mb, m);
    assert Divides(m, CellDiff(a, b, 0, c));
    var da, db := Det(ma), Det(mb);
    CongruentMul(a[0][c], b[0][c], da, db, m);
    CongruentMul(a[0][c] * da, b[0][c] * db, Sign(c), Sign(c), m);
  }

  /**
   * Reducing every cell first does not change the determinant's representative:
   * the determinant of a ModularMatrix is `mod` of the determinant of the grid
   * it was built from.
   */
  lemma DetOfReduced(g: Grid, m: int)
    requires m >= 1 && |g| >= 1 && IsSquare(g)
    ensures IsSquare(Reduced(g, Some(m)))
    ensures Reduce(Det(Reduced(g, Some(m))), Some(m)) == Reduce(Det(g), Some(m))
  {
    var r := Reduced(g, Some(m));
    forall i, j | 0 <= i < |g| && 0 <= j < |g|
      ensures Divides(m, CellDiff(g, r, i, j))
    {
      ModCongruent(g[i][j], m);
    }
    DetCongruent(g, r, m);
    ModOfCongruent(Det(g), Det(r), m);
  }
}
