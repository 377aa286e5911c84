/**
 * Integer grids (`number[][]` in src/lib/math/matrix.ts) and the functions on
 * them that specify what the Matrix methods compute: cell-wise maps, sums,
 * products, transposition, row and column removal, and the named grids
 * `identity` and `ones`.
 */
module Grids {
  import opened Wrappers
  import opened Algebra

  type Grid = seq<seq<int>>

  /** Every row is as long as the first; a grid without rows qualifies. */
  predicate Rectangular(g: Grid) {
    forall i :: 0 <= i < |g| ==> |g[i]| == |g[0]|
  }

  /** `g` has `h` rows of `w` cells each. */
  predicate HasShape(g: Grid, h: nat, w: nat) {
    |g| == h && forall i :: 0 <= i < |g| ==> |g[i]| == w
  }

  // ---------------------------------------------------------------------------
  // Matrix.check (src/lib/math/matrix.ts:164-171)
  // ---------------------------------------------------------------------------

  /** The scan of `check`: it stops at the first row whose length is not `len`. */
  function AllRowsHaveLength(rows: Grid, len: nat): (b: bool)
    ensures b <==> forall i :: 0 <= i < |rows| ==> |rows[i]| == len
  {
    if |rows| == 0 then true
    else if |rows[0]| != len then false
    else AllRowsHaveLength(rows[1..], len)
  }

  /** `Matrix.check`: compares every row with the first one's length; a grid without rows passes. */
  function Check(g: Grid): (b: bool)
    ensures b <==> Rectangular(g)
  {
    if |g| == 0 then true else AllRowsHaveLength(g, |g[0]|)
  }

  // ---------------------------------------------------------------------------
  // Cell-wise functions
  // ---------------------------------------------------------------------------

  /** Every cell replaced by `f(cell, row, column)`: what `transform` leaves behind. */
  function Mapped(g: Grid, f: (int, nat, nat) -> int): Grid {
    seq(|g|, i requires 0 <= i < |g| => seq(|g[i]|, j requires 0 <= j < |g[i]| => f(g[i][j], i, j)))
  }

  /** The cell-wise sum of two grids of the same shape. */
  function Sum(a: Grid, b: Grid): Grid
    requires |a| == |b| && forall i :: 0 <= i < |a| ==> |a[i]| == |b[i]|
  {
    seq(|a|, i requires 0 <= i < |a| => seq(|a[i]|, j requires 0 <= j < |a[i]| => a[i][j] + b[i][j]))
  }

  /** Every cell multiplied by `n`. */
  function Scaled(g: Grid, n: int): Grid {
    seq(|g|, i requires 0 <= i < |g| => seq(|g[i]|, j requires 0 <= j < |g[i]| => g[i][j] * n))
  }

  /** Every cell sent through `mod` with an accepted modulus. */
  function Reduced(g: Grid, modulo: Option<int>): Grid
    requires ValidModulus(modulo)
  {
    seq(|g|, i requires 0 <= i < |g| => seq(|g[i]|, j requires 0 <= j < |g[i]| => Reduce(g[i][j], modulo)))
  }

  /** Every cell lies in `[0, m)`: the invariant of a ModularMatrix. */
  predicate InRange(g: Grid, m: int) {
    forall i, j :: 0 <= i < |g| && 0 <= j < |g[i]| ==> 0 <= g[i][j] < m
  }

  /** Without a modulus, reduction leaves the grid as it is. */
  lemma ReducedWithoutModulus(g: Grid)
    ensures Reduced(g, None) == g
  {
    forall i | 0 <= i < |g|
      ensures Reduced(g, None)[i] == g[i]
    {
    }
  }

  /** Reduction keeps the shape and puts every cell in `[0, m)`; reducing again changes nothing. */
  lemma ReducedIsCanonical(g: Grid, m: int)
    requires m >= 1
    ensures InRange(Reduced(g, Some(m)), m)
    ensures Reduced(Reduced(g, Some(m)), Some(m)) == Reduced(g, Some(m))
  {
    var r := Reduced(g, Some(m));
    forall i | 0 <= i < |g|
      ensures Reduced(r, Some(m))[i] == r[i]
    {
      forall j | 0 <= j < |g[i]|
        ensures Reduced(r, Some(m))[i][j] == r[i][j]
      {
        ModIdempotent(g[i][j], m);
      }
    }
  }

  /** A grid already in `[0, m)` is left alone by reduction. */
  lemma ReducedFixesInRange(g: Grid, m: int)
    requires m >= 1 && InRange(g, m)
    ensures Reduced(g, Some(m)) == g
  {
    forall i | 0 <= i < |g|
      ensures Reduced(g, Some(m))[i] == g[i]
    {
      forall j | 0 <= j < |g[i]|
        ensures Reduced(g, Some(m))[i][j] == g[i][j]
      {
        ModIsEuclidean(g[i][j], m);
        ModUnique(g[i][j], m, 0, g[i][j]);
      }
    }
  }

  /** Adding `b` and then `b` scaled by -1 gives back the original grid. */
  lemma SumThenSubtract(a: Grid, b: Grid)
    requires |a| == |b| && forall i :: 0 <= i < |a| ==> |a[i]| == |b[i]|
    ensures Sum(Sum(a, b), Scaled(b, -1)) == a
  {
    var s := Sum(Sum(a, b), Scaled(b, -1));
    forall i | 0 <= i < |a|
      ensures s[i] == a[i]
    {
    }
  }

  // ---------------------------------------------------------------------------
  // Rows and columns
  // ---------------------------------------------------------------------------

  /** `s` without the element at index `k` (`splice(k, 1)` on a row, or `filter` on the index). */
  function RemoveAt(s: seq<int>, k: nat): seq<int>
    requires k < |s|
  {
    s[..k] + s[k + 1..]
  }

  /** The cell at `(i, j)`, or 0 outside the grid. */
  function Entry(g: Grid, i: nat, j: nat): int {
    if i < |g| && j < |g[i]| then g[i][j] else 0
  }

  /**
   * `push(row)` when no position is given, `splice(p, 0, row)` otherwise;
   * `splice` clamps a position past the end to the end.
   */
  function Inserted(g: Grid, row: seq<int>, position: Option<nat>): (r: Grid)
    ensures var p := if position.Some? && position.value < |g| then position.value else |g|;
      |r| == |g| + 1 && r[p] == row &&
      (forall i :: 0 <= i < p ==> r[i] == g[i]) &&
      (forall i :: p <= i < |g| ==> r[i + 1] == g[i])
  {
    if position.Some? && position.value < |g| then g[..position.value] + [row] + g[position.value..]
    else g + [row]
  }

  /** `splice(k, 1)` on the rows: row `k` goes and the rows below move up; an index past the end removes nothing. */
  function RemovedRow(g: Grid, k: nat): (r: Grid)
    ensures k < |g| ==> |r| == |g| - 1
    ensures k < |g| ==> forall i :: 0 <= i < |r| ==> r[i] == g[if i < k then i else i + 1]
    ensures k >= |g| ==> r == g
  {
    if k < |g| then g[..k] + g[k + 1..] else g
  }

  /** Every row without its `k`-th cell. */
  function DeleteColumnOf(g: Grid, k: nat): Grid
    requires forall i :: 0 <= i < |g| ==> k < |g[i]|
  {
    seq(|g|, i requires 0 <= i < |g| => RemoveAt(g[i], k))
  }

  /** Removing column `k` narrows every row by one and shifts the cells right of `k` one place left. */
  lemma DeleteColumnShifts(g: Grid, k: nat)
    requires Rectangular(g) && |g| > 0 && k < |g[0]|
    ensures HasShape(DeleteColumnOf(g, k), |g|, |g[0]| - 1)
    ensures forall i, j :: 0 <= i < |g| && 0 <= j < |g[0]| - 1 ==>
      DeleteColumnOf(g, k)[i][j] == g[i][if j < k then j else j + 1]
  {
  }

  // ---------------------------------------------------------------------------
  // Product (src/lib/math/matrix.ts:82-99)
  // ---------------------------------------------------------------------------

  /** The inner accumulator of `product`: the first `k` terms of row `row` times column `j` of `b`. */
  function DotUpTo(row: seq<int>, b: Grid, j: nat, k: nat): int
    requires k <= |row| && k <= |b| && forall t :: 0 <= t < k ==> j < |b[t]|
  {
    if k == 0 then 0 else DotUpTo(row, b, j, k - 1) + row[k - 1] * b[k - 1][j]
  }

  /** The grids `product` accepts: every row of `a` as long as `b` has rows, `b` rectangular and not empty. */
  predicate Multipliable(a: Grid, b: Grid) {
    |b| > 0 && Rectangular(b) && forall i :: 0 <= i < |a| ==> |a[i]| == |b|
  }

  /** The matrix product: one row per row of `a`, one column per column of `b`. */
  function Product(a: Grid, b: Grid): Grid
    requires Multipliable(a, b)
  {
    seq(|a|, i requires 0 <= i < |a| => seq(|b[0]|, j requires 0 <= j < |b[0]| => DotUpTo(a[i], b, j, |b|)))
  }

  // ---------------------------------------------------------------------------
  // Transpose (src/lib/math/matrix.ts:101-112)
  // ---------------------------------------------------------------------------

  /** Columns become rows: a `h`×`w` grid becomes `w`×`h`. */
  function Transposed(g: Grid): Grid
    requires |g| > 0 && Rectangular(g)
  {
    seq(|g[0]|, i requires 0 <= i < |g[0]| => seq(|g|, j requires 0 <= j < |g| => g[j][i]))
  }

  /** Transposing swaps the shape and the indices of every cell. */
  lemma TransposedShape(g: Grid)
    requires |g| > 0 && Rectangular(g)
    ensures HasShape(Transposed(g), |g[0]|, |g|) && Rectangular(Transposed(g))
    ensures forall i, j :: 0 <= i < |g[0]| && 0 <= j < |g| ==> Transposed(g)[i][j] == g[j][i]
  {
  }

  /**
   * Transposing twice gives back the original grid, for any grid with at least
   * one row and one column (a grid whose rows are empty transposes to a grid
   * without rows, whose width can no longer be read).
   */
  lemma TransposeTwice(g: Grid)
    requires |g| > 0 && Rectangular(g) && |g[0]| > 0
    ensures Transposed(Transposed(g)) == g
  {
    var t := Transposed(g);
    assert |t| > 0 && Rectangular(t);
    var tt := Transposed(t);
    forall i | 0 <= i < |g|
      ensures tt[i] == g[i]
    {
    }
  }

  // ---------------------------------------------------------------------------
  // identity and ones (src/lib/math/matrix.ts:173-187)
  // ---------------------------------------------------------------------------

  /** The `n`×`n` grid with 1 on the diagonal and 0 elsewhere. */
  function IdentityGrid(n: nat): (r: Grid)
    ensures HasShape(r, n, n)
    ensures forall i, j :: 0 <= i < n && 0 <= j < n ==> (r[i][j] == 1 <==> i == j) && (r[i][j] == 0 <==> i != j)
  {
    seq(n, i requires 0 <= i < n => seq(n, j requires 0 <= j < n => if i == j then 1 else 0))
  }

  /** `ones(rows, columns ?? rows)`: `rows` rows of 1s, each `columns` long (`rows` when omitted). */
  function OnesGrid(rows: nat, columns: Option<nat>): (r: Grid)
    ensures HasShape(r, rows, if columns.Some? then columns.value else rows)
    ensures forall i, j :: 0 <= i < |r| && 0 <= j < |r[i]| ==> r[i][j] == 1
  {
    var c := match columns case Some(c) => c case None => rows;
    seq(rows, i => seq(c, j => 1))
  }

  /** Column `j` of the identity picks out cell `j` of a row. */
  lemma {:induction false} DotWithIdentityColumn(row: seq<int>, n: nat, j: nat, k: nat)
    requires k <= |row| == n && j < n
    ensures DotUpTo(row, IdentityGrid(n), j, k) == if j < k then row[j] else 0
  {
    if k > 0 {
      DotWithIdentityColumn(row, n, j, k - 1);
    }
  }

  /** Row `i` of the identity picks out row `i` of `b`. */
  lemma {:induction false} DotWithIdentityRow(b: Grid, n: nat, i: nat, j: nat, k: nat)
    requires n > 0 && |b| == n && Rectangular(b) && i < n && j < |b[0]| && k <= n
    ensures DotUpTo(IdentityGrid(n)[i], b, j, k) == if i < k then b[i][j] else 0
  {
    if k > 0 {
      DotWithIdentityRow(b, n, i, j, k - 1);
    }
  }

  /** The identity is neutral for the product on the right, for every grid with a column. */
  lemma ProductWithIdentityRight(a: Grid)
    requires |a| > 0 && Rectangular(a) && |a[0]| > 0
    ensures Multipliable(a, IdentityGrid(|a[0]|)) && Product(a, IdentityGrid(|a[0]|)) == a
  {
    var w := |a[0]|;
    var right := Product(a, IdentityGrid(w));
    forall i | 0 <= i < |a|
      ensures right[i] == a[i]
    {
      forall j | 0 <= j < w
        ensures right[i][j] == a[i][j]
      {
        DotWithIdentityColumn(a[i], w, j, w);
      }
    }
  }

  /** The identity is neutral for the product on the left, rows without cells included. */
  lemma ProductWithIdentityLeft(a: Grid)
    requires |a| > 0 && Rectangular(a)
    ensures Multipliable(IdentityGrid(|a|), a) && Product(IdentityGrid(|a|), a) == a
  {
    var h := |a|;
    var left := Product(IdentityGrid(h), a);
    forall i | 0 <= i < h
      ensures left[i] == a[i]
    {
      forall j | 0 <= j < |a[0]|
        ensures left[i][j] == a[i][j]
      {
        DotWithIdentityRow(a, h, i, j, h);
      }
    }
  }

  /** The product has one row per row of `a` and one column per column of `b`. */
  lemma ProductShape(a: Grid, b: Grid)
    requires Multipliable(a, b)
    ensures HasShape(Product(a, b), |a|, |b[0]|) && Rectangular(Product(a, b))
  {
  }
}
