# mathtools: modular arithmetic and integer matrices, in Dafny

A model of the arithmetic core of the `mathtools` TypeScript library, with
proofs of what it computes:

- `src/lib/math/algebra.ts`: `mod(value, modulo?)`, the representative of a
  value in `[0, modulo)` (or the value itself without a modulus), and
  `gcd(a, b)`, Euclid's loop followed by an absolute value. Both use
  JavaScript's `%`, which truncates toward zero. `Algebra.TruncRem` models that
  operator, and the lemmas relate it to Dafny's Euclidean `%`.
- `src/lib/math/matrix.ts`: class `Matrix`, whose one field `value` (an
  integer grid) is changed in place by its methods, and class `ModularMatrix`,
  which fixes a modulus and sends every value it produces through `mod`.

Files:

| file | contents |
|---|---|
| `wrappers.dfy` | `Option` for the optional parameters; `Result`/`Outcome` with one `Error` per kind of exception thrown |
| `algebra.dfy` | `TruncRem`, `Mod`, the `Gcd` loop, and divisibility and congruence lemmas |
| `grids.dfy` | `Grid = seq<seq<int>>`, `check`, and the functions that specify each matrix operation (`Mapped`, `Sum`, `Scaled`, `Reduced`, `Product`, `Transposed`, `Inserted`, `RemovedRow`, `DeleteColumnOf`, `IdentityGrid`, `OnesGrid`) with their lemmas |
| `determinant.dfy` | the recursive determinant (`Det` and `CofactorSum`, one call per step of the source's summing loop), its values on named grids, and its behaviour under `mod` |
| `matrix.dfy` | `class Matrix` and `class ModularMatrix`: imperative methods with loops, each proved against the functions of `grids.dfy` |
| `cases.dfy` | the concrete values that `algebra.spec.ts` and `matrix.spec.ts` expect, derived from the contracts |

Modelling conventions:

- Numbers are unbounded `int`s. An exception is an `Err`/`Fail` result, and
  every method that can fail is shown to leave the grid untouched when it does.
- `size` reads the length of the first row, so it throws on a grid without
  rows. Every method that reads `size` (`insertRow`, `transform`, `add`,
  `scalar`, `product`, `transpose`, `determinant`) requires at least one row.
  The constructor reads `size` only when a modulus is given, so
  `Matrix.Create([], Some(m))` is `Err(EmptyGrid)` while `Matrix.Create([], None)`
  succeeds.
- `mod` throws only when it is called. A rejected modulus therefore raises
  nothing when no cell is visited: a grid whose rows are empty, an empty row
  passed to `insertRow`, or a product whose right operand has no columns.
  The contracts state these cases.
- `ModularMatrix` extends `Matrix` in the source. Here it holds its `Matrix` as
  `base`, and every override and every inherited mutator is a method of its
  own. Its invariant `Valid()` says the modulus is at least 1 and every cell
  lies in `[0, modulo)`.
  - `add` and `scalar` are inherited methods that call the overriding
    `transform`, so each cell is reduced twice. `ModularMatrix.Add` and
    `ModularMatrix.Scalar` do the same. Their contracts state a single
    reduction, which holds because `mod` is idempotent (`Algebra.ModIdempotent`).
  - The source constructor calls the overriding `transform` before the
    `modulo` field is set. The inner `mod` then reduces each cell and the outer
    one, called without a modulus, leaves it alone. `ModularMatrix.Create`
    states the resulting single reduction.
- `splice` with an index past the end removes nothing, and inserts at the end.
  `Inserted`, `RemovedRow` and `Matrix.DeleteColumn` follow that.

Behaviour of the code that the model keeps:

- An empty matrix rejects every `insertRow`, because `insertRow` compares the
  row with `size` (src/lib/math/matrix.ts:36), and `size` reads `value[0]`
  (src/lib/math/matrix.ts:143). The model requires a row.
- `clone` passes the live array to a new instance (src/lib/math/matrix.ts:15),
  and the constructor keeps the array it is given (src/lib/math/matrix.ts:9).
  The model claims only that the cells are equal.
- A constructor given a modulus throws on a grid without rows. Its `mod` pass
  goes through `transform`, which reads `size` (src/lib/math/matrix.ts:11, 61,
  143). The same happens to `ModularMatrix.clone` once every row has been
  deleted.

## Model

| member | source | states |
|---|---|---|
| Algebra.Abs | src/lib/math/algebra.ts:20 | `Math.abs`: non-negative, and equal to the argument or its negation |
| Algebra.TruncRem | src/lib/math/algebra.ts:9-11 | JavaScript's `%`: the remainder has the dividend's sign, is smaller than the divisor in absolute value, and differs from the dividend by a multiple of the divisor |
| Algebra.Mod | src/lib/math/algebra.ts:2-12 | without a modulus the value comes back unchanged; a modulus below 1 is `InvalidModulus`, exactly then; otherwise the result lies in `[0, modulo)` |
| Algebra.ModIsEuclidean | src/lib/math/algebra.ts:8-11 | for every value and modulus `m >= 1`, including negative values, `mod` equals Dafny's Euclidean `v % m`, although it is built from the truncating remainder |
| Algebra.ModCongruent | src/lib/math/algebra.ts:8-11 | `mod(v, m)` differs from `v` by a multiple of `m` |
| Algebra.ModIdempotent | src/lib/math/algebra.ts:8-11 | `mod(mod(v, m), m) == mod(v, m)` |
| Algebra.ModOfCongruent | src/lib/math/algebra.ts:8-11 | values that differ by a multiple of `m` have the same `mod` |
| Algebra.Gcd | src/lib/math/algebra.ts:14-21 | the loop terminates (the absolute value of `b` decreases) and returns the non-negative number whose positive divisors are exactly the common divisors of `a` and `b` |
| Algebra.GcdUnique | src/lib/math/algebra.ts:14-21 | at most one number has that divisor property, so the result of `gcd` is determined |
| Algebra.GcdWithZero | src/lib/math/algebra.ts:15-20 | `gcd(a, 0) == |a|`, hence `gcd(0, 0) == 0` |
| Algebra.GcdSymmetries | src/lib/math/algebra.ts:15-20 | `gcd` ignores argument order and the sign of either argument |
| Algebra.GcdZeroIff | src/lib/math/algebra.ts:14-21 | `gcd` is 0 exactly when both arguments are 0 |
| Algebra.GcdIsGreatest | src/lib/math/algebra.ts:14-21 | a positive `gcd` is at least every common positive divisor |
| Grids.AllRowsHaveLength | src/lib/math/matrix.ts:166-170 | the loop of `check` is true exactly when every row has the given length |
| Grids.Check | src/lib/math/matrix.ts:164-171 | `check` is true exactly when every row is as long as the first, so a grid without rows passes |
| Grids.ReducedWithoutModulus | src/lib/math/matrix.ts:10-11 | without a modulus the `mod` pass leaves every cell unchanged |
| Grids.ReducedIsCanonical | src/lib/math/matrix.ts:10-11 | the `mod` pass puts every cell in `[0, m)`, and running it again changes nothing |
| Grids.ReducedFixesInRange | src/lib/math/matrix.ts:200-202 | a grid whose cells are already in `[0, m)` is left unchanged by the `mod` pass, which is why cloning a ModularMatrix keeps its cells |
| Grids.Inserted | src/lib/math/matrix.ts:40-43 | the new row sits at the position, or at the end when none is given or it is past the end; the rows before it keep their index and the rows after it move down one |
| Grids.RemovedRow | src/lib/math/matrix.ts:48-51 | row `k` goes and later rows move up one; an index past the end changes nothing |
| Grids.DeleteColumnShifts | src/lib/math/matrix.ts:53-58 | removing column `k` narrows every row by one and moves the cells right of `k` one place left |
| Grids.SumThenSubtract | src/lib/math/matrix.ts:69-80 | adding `b` and then `b` scaled by -1 gives back the original grid |
| Grids.TransposedShape | src/lib/math/matrix.ts:101-112 | transposing an `h`×`w` grid gives a `w`×`h` grid with cell `(i, j)` equal to the old `(j, i)` |
| Grids.TransposeTwice | src/lib/math/matrix.ts:101-112 | transposing twice gives back the original grid when it has at least one row and one column |
| Grids.IdentityGrid | src/lib/math/matrix.ts:173-183 | `identity(n)` is `n`×`n`, with 1 exactly on the diagonal and 0 exactly off it |
| Grids.OnesGrid | src/lib/math/matrix.ts:185-187 | `ones(r, c)` has `r` rows of `c` cells (`r` cells when `c` is omitted), all 1 |
| Grids.DotWithIdentityColumn | src/lib/math/matrix.ts:90-92 | the accumulator of `product` against a column of the identity picks out one cell of the row |
| Grids.DotWithIdentityRow | src/lib/math/matrix.ts:90-92 | the accumulator of `product` with a row of the identity picks out one cell of the column |
| Grids.ProductWithIdentityRight | src/lib/math/matrix.ts:82-99 | the identity on the right leaves every grid with at least one column unchanged |
| Grids.ProductWithIdentityLeft | src/lib/math/matrix.ts:82-99 | the identity on the left leaves every grid with at least one row unchanged, including grids whose rows are empty |
| Grids.ProductShape | src/lib/math/matrix.ts:82-99 | the product has one row per row of the left operand and one column per column of the right one |
| Determinant.Det | src/lib/math/matrix.ts:118-132 | the entry for 1×1, `ad − bc` for 2×2, otherwise the cofactor sum; its properties are stated by DetIsCofactorExpansion, DetIdentity, DetOnes and DetCongruent |
| Determinant.CofactorSum | src/lib/math/matrix.ts:126-131 | the accumulator `det` after the first `k` columns of the first row; its properties are stated by CofactorSumOfZeroPrefix, CofactorSumLeading and CofactorSumCongruent |
| Determinant.Cofactor | src/lib/math/matrix.ts:129 | the term the loop adds for column `i`: cell, minor's determinant and sign; its congruence is stated by CofactorCongruent |
| Determinant.DetIsCofactorExpansion | src/lib/math/matrix.ts:118-132 | the 2×2 shortcut agrees with the cofactor expansion, so every determinant larger than 1×1 is the expansion along the first row |
| Determinant.SignAlternates | src/lib/math/matrix.ts:129 | the cofactor signs start at +1 and alternate |
| Determinant.CofactorSumOfZeroPrefix | src/lib/math/matrix.ts:126-131 | the accumulator stays 0 while the first-row cells it has passed are 0 |
| Determinant.Minor | src/lib/math/matrix.ts:128 | the sub-grid is square, one smaller, and holds the cells below the first row without column `c` |
| Determinant.CofactorSumLeading | src/lib/math/matrix.ts:126-131 | when the first row is 0 after its first cell, the cofactor sum is the first cell times the first minor's determinant |
| Determinant.CofactorSumOfSingularMinors | src/lib/math/matrix.ts:126-131 | when every minor has determinant 0, so does the cofactor sum |
| Determinant.DetIdentity | src/lib/math/matrix.ts:118-132 | the identity of every size has determinant 1 |
| Determinant.DetOnes | src/lib/math/matrix.ts:118-132 | a square grid of ones larger than 1×1 has determinant 0 |
| Determinant.DetCongruent | src/lib/math/matrix.ts:118-132 | grids congruent cell by cell modulo `m` have determinants congruent modulo `m` |
| Determinant.CofactorSumCongruent | src/lib/math/matrix.ts:126-131 | the same for every partial sum of the cofactor loop |
| Determinant.CofactorCongruent | src/lib/math/matrix.ts:128-129 | the same for one term `a[0][i] · det(minor) · sign` of the loop |
| Determinant.DetOfReduced | src/lib/math/matrix.ts:231-233 | `mod` of the determinant of the reduced grid equals `mod` of the determinant of the original grid |
| Matrices.ModRow | src/lib/math/matrix.ts:38-39 | the row's `map` through `mod` fails exactly when the row is not empty and the modulus is rejected; otherwise it reduces every cell |
| Matrices.Matrix.constructor | src/lib/math/matrix.ts:6-12 | a grid that `check` accepted becomes the matrix's value |
| Matrices.Matrix.Create | src/lib/math/matrix.ts:6-12 | a ragged grid is `ShapeError`; with a modulus, a grid without rows is `EmptyGrid` and a rejected modulus with some cell is `InvalidModulus`; exactly the other inputs succeed, with every cell reduced |
| Matrices.Matrix.Clone | src/lib/math/matrix.ts:14-16 | a new matrix with the same cells |
| Matrices.Matrix.Identity | src/lib/math/matrix.ts:173-183 | a new matrix whose value is `IdentityGrid(n)` |
| Matrices.Matrix.Ones | src/lib/math/matrix.ts:185-187 | a new matrix whose value is `OnesGrid(rows, columns)` |
| Matrices.Matrix.GetRow | src/lib/math/matrix.ts:26-28 | every row is as long as the first |
| Matrices.Matrix.Get | src/lib/math/matrix.ts:22-24 | the cell is the `j`-th entry of row `i` |
| Matrices.Matrix.Size | src/lib/math/matrix.ts:142-144 | the height and the first row's width are the shape of the whole grid |
| Matrices.Matrix.Set | src/lib/math/matrix.ts:30-33 | stores `mod(v, modulo)` at `(i, j)` and nothing else changes; a rejected modulus fails and leaves the grid alone |
| Matrices.Matrix.InsertRow | src/lib/math/matrix.ts:35-46 | a row of the wrong length is `ShapeError` and a rejected modulus is `InvalidModulus`, with the grid untouched; otherwise the reduced row is inserted as `Inserted` says |
| Matrices.Matrix.DeleteRow | src/lib/math/matrix.ts:48-51 | the grid becomes `RemovedRow` of the old grid and stays rectangular |
| Matrices.Matrix.DeleteColumn | src/lib/math/matrix.ts:53-58 | every row loses cell `k`, or nothing changes when `k` is past the width; the grid stays rectangular |
| Matrices.Matrix.Transform | src/lib/math/matrix.ts:60-67 | the shape is kept and cell `(i, j)` becomes `f(old cell, i, j)` |
| Matrices.Matrix.Add | src/lib/math/matrix.ts:69-75 | different shapes are `ShapeError`; otherwise cell `(i, j)` becomes `mod(a[i][j] + b[i][j], modulo)`; every failure leaves the grid untouched |
| Matrices.Matrix.Scalar | src/lib/math/matrix.ts:77-80 | cell `(i, j)` becomes `mod(a[i][j] * n, modulo)`; a rejected modulus fails before any cell is written |
| Matrices.Matrix.Product | src/lib/math/matrix.ts:82-99 | fails with `DimensionError` exactly when the width differs from the other's height; otherwise the grid becomes the product with `mod` applied once per cell |
| Matrices.Matrix.Transpose | src/lib/math/matrix.ts:101-112 | the grid becomes its transpose |
| Matrices.Matrix.Determinant | src/lib/math/matrix.ts:114-136 | `NotSquare` unless the grid is square; otherwise `mod` of the cofactor-expansion determinant; the grid is not changed |
| Matrices.ModularMatrix.constructor | src/lib/math/matrix.ts:191-198 | wraps a matrix whose cells are in `[0, modulo)` and establishes the invariant |
| Matrices.ModularMatrix.Create | src/lib/math/matrix.ts:193-198 | a modulus below 1 is rejected before the grid is looked at; otherwise exactly the non-empty rectangular grids succeed, with every cell reduced once and the invariant established |
| Matrices.ModularMatrix.Clone | src/lib/math/matrix.ts:200-202 | a new ModularMatrix with the same cells and modulus; a matrix whose rows were all deleted fails with `EmptyGrid` |
| Matrices.ModularMatrix.Set | src/lib/math/matrix.ts:203-206 | stores `mod(v, modulo)` at `(i, j)`, nothing else changes, and the invariant is kept |
| Matrices.ModularMatrix.InsertRow | src/lib/math/matrix.ts:207-210 | a row of the wrong length fails with the grid untouched; otherwise the reduced row is inserted; the invariant is kept |
| Matrices.ModularMatrix.Transform | src/lib/math/matrix.ts:211-218 | cell `(i, j)` becomes `mod(f(old cell, i, j), modulo)`; the invariant is kept |
| Matrices.ModularMatrix.Add | src/lib/math/matrix.ts:219-222 | different shapes fail with the grid untouched; otherwise cells become `mod(a + b, modulo)`: the double reduction is one reduction |
| Matrices.ModularMatrix.Scalar | src/lib/math/matrix.ts:223-226 | cells become `mod(a * n, modulo)`: the double reduction is one reduction; the invariant is kept |
| Matrices.ModularMatrix.Product | src/lib/math/matrix.ts:227-230 | fails exactly on mismatched dimensions; otherwise the grid is the product reduced once per cell, and the invariant is kept |
| Matrices.ModularMatrix.Transpose | src/lib/math/matrix.ts:101-112 | the inherited `transpose` keeps the invariant |
| Matrices.ModularMatrix.DeleteRow | src/lib/math/matrix.ts:48-51 | the inherited `deleteRow` keeps the invariant |
| Matrices.ModularMatrix.DeleteColumn | src/lib/math/matrix.ts:53-58 | the inherited `deleteColumn` keeps the invariant |
| Matrices.ModularMatrix.Determinant | src/lib/math/matrix.ts:231-233 | `NotSquare` unless square; otherwise `mod` of the plain determinant, a value in `[0, modulo)` |
| Cases.ModCases | src/lib/math/algebra.spec.ts:4-30 | the values of `mod` that the tests expect, including the rejected moduli |
| Cases.ConstructionCases | src/lib/math/matrix.spec.ts:5-55 | `check` on ragged, empty and singleton grids, `identity(3)`, `identity(1)`, `ones(3)`, `ones(1)`, `ones(5, 2)` and the reduced ModularMatrix grid |
| Cases.OperationCases | src/lib/math/matrix.spec.ts:161-233 | the expected sum, scaled grid and product, and the product whose dimensions do not match |
| Cases.TransposeCases | src/lib/math/matrix.spec.ts:234-285 | the expected transposes of a 2×3, a square, a single-row and a single-column grid |
| Cases.DeterminantCases | src/lib/math/matrix.spec.ts:286-314 | the expected 1×1, 2×2 and 3×3 determinants, and the grid that is not square |
| Cases.ModularOperands | src/lib/math/matrix.spec.ts:347-365 | the cells that the operands of the modular operation tests hold after construction |
| Cases.ModularAddCase | src/lib/math/matrix.spec.ts:351-354 | `add` of the two 3-modular matrices, built from their reduced cells, gives `[[0, 0], [0, 0]]` |
| Cases.ModularScalarCase | src/lib/math/matrix.spec.ts:355-359 | `scalar(2)` on the reduced cells gives `[[2, 1], [0, 2]]` |
| Cases.ModularProductCase | src/lib/math/matrix.spec.ts:360-365 | the product of the reduced cells, reduced once, gives `[[1, 1], [1, 2]]` |
| Cases.ModularDeterminantCases | src/lib/math/matrix.spec.ts:366-394 | the determinants of the reduced 1×1 grid mod 3, 2×2 grid mod 5 and 3×3 grid mod 7, and the grid that is not square |
| Cases.ModularSetCase | src/lib/math/matrix.spec.ts:333-336 | `set(0, 0, 5)` on the 3-modular matrix stores 2 |
| Cases.ModularInsertCase | src/lib/math/matrix.spec.ts:337-340 | `insertRow([5, 6], 1)` on the 3-modular matrix inserts `[2, 0]` |
| Cases.ModularTransformCase | src/lib/math/matrix.spec.ts:341-344 | `transform(v => v + 1)` on the 3-modular matrix gives `[[0, 0], [0, 1], [1, 2]]` |

## Left out

- `[Symbol.iterator]` (src/lib/math/matrix.ts:146-150) only yields the rows, which `GetRow` already gives.
- `toString` (src/lib/math/matrix.ts:152-162) is not modelled, because its output depends on how JavaScript formats numbers.
- `toArray` (src/lib/math/matrix.ts:18-20) is the field `value` itself.
- `inverse` (src/lib/math/matrix.ts:138-140) has an empty body, so there is nothing to model.
- Reference sharing is not modelled. The constructor keeps the caller's array, and `clone`, `toArray` and `getRow` hand out the live grid. Here grids are values, so no caller can change a matrix behind its back.
- Matrices.Matrix.Clone: states equal cells only. A deep copy is not claimed, because the source does not make one.
- JavaScript numbers are doubles, so precision is lost above 2^53. All values here are unbounded integers.
- A non-integer modulus is rejected by `Number.isInteger` in the source. It cannot be written over `int`, so that case does not exist here.
- Matrices.Matrix.Get: requires indices inside the grid. The source would return `undefined` or throw outside it.
- Matrices.Matrix.Set: requires indices inside the grid. JavaScript would instead grow a row, or throw on a missing one.
- Negative indices to `splice`, which count from the end, are not modelled: positions and indices are `nat`.
- Matrices.Matrix.Transform: requires a transformer that does not throw, and whose result is an integer. If the transformer threw partway, the source would leave some cells written; that case is not modelled.
- Matrices.Matrix.Product: when the modulus is rejected and the right operand has no columns, the contract states only the new shape (height × 0). It does not state the cells, because no cell exists.
- Grids.TransposeTwice: requires at least one column. A grid with empty rows transposes to a grid without rows, and the source cannot transpose that back, because it reads `size`.
- A method on a matrix without rows, other than `deleteRow`, `deleteColumn` and `get`/`getRow`, is not modelled: the source throws a `TypeError` from `size`, and the model requires a row instead.
- `ModularMatrix.get`, `getRow`, `size` and `toArray` are the inherited methods, applied to `base`.
