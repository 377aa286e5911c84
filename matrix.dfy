/**
 * The matrix engine of src/lib/math/matrix.ts: class `Matrix`, whose field
 * `value` is changed in place by its methods, and class `ModularMatrix`,
 * which fixes a modulus and sends every value it produces through `mod`.
 *
 * Every method that reads `size` needs at least one row (`size` reads the
 * length of the first row); that is a precondition here. A thrown exception
 * is a `Fail` or `Err` result, and no method changes the grid before it fails.
 */
module Matrices {
  import opened Wrappers
  import opened Algebra
  import opened Grids
  import opened Determinant

  /** `row.map(i => mod(i, modulo))`: fails on the first cell when the modulus is not accepted. */
  function ModRow(row: seq<int>, modulo: Option<int>): (r: Result<seq<int>>)
    ensures r.Err? <==> |row| > 0 && !ValidModulus(modulo)
    ensures r.Err? ==> r.error == InvalidModulus
    ensures r.Ok? ==> (|r.value| == |row| &&
      forall k :: 0 <= k < |row| ==> ValidModulus(modulo) && r.value[k] == Reduce(row[k], modulo))
  {
    if |row| == 0 then Ok([])
    else match Mod(row[0], modulo)
      case Err(e) => Err(e)
      case Ok(first) =>
        match ModRow(row[1..], modulo)
        case Err(e) => Err(e)
        case Ok(rest) => Ok([first] + rest)
  }

  class Matrix {
    var value: Grid

    /** The rectangularity invariant. */
    ghost predicate Valid()
      reads this
    {
      Rectangular(value)
    }

    /** Takes a grid that `check` has accepted; `Create` is the constructor as the library exposes it. */
    constructor (initialData: Grid)
      requires Rectangular(initialData)
      ensures Valid() && value == initialData
    {
      value := initialData;
    }

    /**
     * `new Matrix(initialData, modulo?)`: throws unless `check` passes, then
     * sends every cell through `mod` when a modulus is given. That pass reads
     * `size`, so a grid without rows fails with a modulus; with a modulus
     * that `mod` rejects it fails only if some cell is visited.
     */
    static method Create(initialData: Grid, modulo: Option<int>) returns (r: Result<Matrix>)
      ensures !Rectangular(initialData) ==> r == Err(ShapeError)
      ensures Rectangular(initialData) && modulo.Some? && |initialData| == 0 ==> r == Err(EmptyGrid)
      ensures Rectangular(initialData) && |initialData| > 0 && |initialData[0]| > 0 && !ValidModulus(modulo) ==>
        r == Err(InvalidModulus)
      ensures r.Ok? <==> (Rectangular(initialData) && (modulo.None? || |initialData| > 0) &&
        (ValidModulus(modulo) || |initialData[0]| == 0))
      ensures r.Ok? && ValidModulus(modulo) ==>
        fresh(r.value) && r.value.Valid() && r.value.value == Reduced(initialData, modulo)
      ensures r.Ok? && !ValidModulus(modulo) ==> fresh(r.value) && r.value.Valid() && r.value.value == initialData
    {
      if !Check(initialData) {
        return Err(ShapeError);
      }
      var m := new Matrix(initialData);
      if modulo.Some? {
        if |m.value| == 0 {
          return Err(EmptyGrid);
        }
        if !ValidModulus(modulo) {
          if |m.value[0]| > 0 {
            return Err(InvalidModulus);
          }
          // a grid whose rows are empty: the pass visits no cell and calls no `mod`
          return Ok(m);
        }
        m.Transform((v, i, j) => Reduce(v, modulo));
        assert m.value == Reduced(initialData, modulo) by {
          forall i | 0 <= i < |initialData|
            ensures m.value[i] == Reduced(initialData, modulo)[i]
          {
          }
        }
      } else {
        ReducedWithoutModulus(initialData);
      }
      return Ok(m);
    }

    /** `clone()`: a new matrix over the same cells. */
    method Clone() returns (c: Matrix)
      requires Valid()
      ensures fresh(c) && c.Valid() && c.value == value
    {
      c := new Matrix(value);
    }

    /** `identity(n)`. */
    static method Identity(n: nat) returns (m: Matrix)
      ensures fresh(m) && m.Valid() && m.value == IdentityGrid(n)
    {
      m := new Matrix(IdentityGrid(n));
    }

    /** `ones(rows, columns?)`. */
    static method Ones(rows: nat, columns: Option<nat>) returns (m: Matrix)
      ensures fresh(m) && m.Valid() && m.value == OnesGrid(rows, columns)
    {
      m := new Matrix(OnesGrid(rows, columns));
    }

    /** `getRow(i)`: every row is as long as the first. */
    function GetRow(i: nat): (row: seq<int>)
      reads this
      requires Valid() && i < |value|
      ensures |row| == |value[0]|
    {
      value[i]
    }

    /** `get(i, j)`: cell `j` of row `i`. */
    function Get(i: nat, j: nat): (v: int)
      reads this
      requires Valid() && i < |value| && j < |value[0]|
      ensures v == GetRow(i)[j]
    {
      value[i][j]
    }

    /** `size`: the height and the width read off the first row, which is the shape of the whole grid. */
    function Size(): (s: (nat, nat))
      reads this
      requires Valid() && |value| > 0
      ensures HasShape(value, s.0, s.1)
    {
      (|value|, |value[0]|)
    }

    /** `set(i, j, v, modulo?)`: stores `mod(v, modulo)` at `(i, j)`. */
    method Set(i: nat, j: nat, v: int, modulo: Option<int>) returns (o: Outcome)
      requires Valid() && i < |value| && j < |value[i]|
      modifies this
      ensures Valid()
      ensures o == if ValidModulus(modulo) then Pass else Fail(InvalidModulus)
      ensures o.Pass? ==> value == old(value)[i := old(value)[i][j := Reduce(v, modulo)]]
      ensures o.Fail? ==> value == old(value)
    {
      var r := Mod(v, modulo);
      if r.Err? {
        return Fail(r.error);
      }
      value := value[i := value[i][j := r.value]];
      return Pass;
    }

    /**
     * `insertRow(row, position?, modulo?)`: the row must be as long as the
     * others; its cells go through `mod` when a modulus is given; it is
     * appended, or inserted before the row at `position`.
     */
    method InsertRow(row: seq<int>, position: Option<nat>, modulo: Option<int>) returns (o: Outcome)
      requires Valid() && |value| > 0
      modifies this
      ensures Valid()
      ensures o == if |row| != |old(value)[0]| then Fail(ShapeError)
                   else if ModRow(row, modulo).Err? then Fail(InvalidModulus)
                   else Pass
      ensures o.Fail? ==> value == old(value)
      ensures o.Pass? ==> value == Inserted(old(value), ModRow(row, modulo).value, position)
    {
      if |row| != Size().1 {
        return Fail(ShapeError);
      }
      var canonical := row;
      if modulo.Some? {
        var r := ModRow(row, modulo);
        if r.Err? {
          return Fail(r.error);
        }
        canonical := r.value;
      } else {
        assert ModRow(row, modulo).value == row;
      }
      value := Inserted(value, canonical, position);
      return Pass;
    }

    /** `deleteRow(k)`: removes row `k`; the rows below move up. */
    method DeleteRow(k: nat)
      requires Valid()
      modifies this
      ensures Valid() && value == RemovedRow(old(value), k)
    {
      if k < |value| {
        value := value[..k] + value[k + 1..];
      }
    }

    /**
     * `deleteColumn(k)`: removes cell `k` from every row, one row at a time;
     * `splice` past the end of a row removes nothing.
     */
    method DeleteColumn(k: nat)
      requires Valid()
      modifies this
      ensures Valid()
      ensures |old(value)| > 0 && k < |old(value)[0]| ==> value == DeleteColumnOf(old(value), k)
      ensures |old(value)| == 0 || k >= |old(value)[0]| ==> value == old(value)
    {
      ghost var g := value;
      var i := 0;
      while i < |value|
        invariant 0 <= i <= |value| == |g|
        invariant forall r :: 0 <= r < i ==> |g[r]| > k ==> value[r] == RemoveAt(g[r], k)
        invariant forall r :: 0 <= r < i ==> |g[r]| <= k ==> value[r] == g[r]
        invariant forall r :: i <= r < |g| ==> value[r] == g[r]
      {
        if k < |value[i]| {
          value := value[i := RemoveAt(value[i], k)];
        }
        i := i + 1;
      }
      if |g| > 0 && k < |g[0]| {
        assert value == DeleteColumnOf(g, k);
      } else {
        assert value == g;
      }
    }

    /** `transform(f)`: replaces every cell, row by row, with `f(cell, row, column)`. */
    method Transform(f: (int, nat, nat) -> int)
      requires Valid() && |value| > 0
      modifies this
      ensures Valid() && value == Mapped(old(value), f)
    {
      ghost var g := value;
      var i := 0;
      while i < |value|
        invariant 0 <= i <= |value| == |g|
        invariant forall r :: 0 <= r < i ==> value[r] == Mapped(g, f)[r]
        invariant forall r :: i <= r < |g| ==> value[r] == g[r]
      {
        var j := 0;
        while j < |value[0]|
          invariant |value| == |g| && 0 <= j <= |g[i]|
          invariant |value[0]| == |g[0]|
          invariant forall r :: 0 <= r < i ==> value[r] == Mapped(g, f)[r]
          invariant forall r :: i < r < |g| ==> value[r] == g[r]
          invariant |value[i]| == |g[i]|
          invariant forall c :: 0 <= c < j ==> value[i][c] == f(g[i][c], i, c)
          invariant forall c :: j <= c < |g[i]| ==> value[i][c] == g[i][c]
        {
          value := value[i := value[i][j := f(value[i][j], i, j)]];
          j := j + 1;
        }
        assert value[i] == Mapped(g, f)[i];
        i := i + 1;
      }
      assert value == Mapped(g, f);
    }

    /**
     * `add(other, modulo?)`: the shapes must agree; then every cell becomes
     * `mod(cell + other's cell, modulo)`.
     */
    method Add(other: Matrix, modulo: Option<int>) returns (o: Outcome)
      requires Valid() && other.Valid() && |value| > 0 && |other.value| > 0
      modifies this
      ensures Valid()
      ensures o == if |old(value)| != |old(other.value)| || |old(value)[0]| != |old(other.value)[0]| then Fail(ShapeError)
                   else if !ValidModulus(modulo) && |old(value)[0]| > 0 then Fail(InvalidModulus)
                   else Pass
      ensures o.Fail? ==> value == old(value)
      ensures o.Pass? && ValidModulus(modulo) ==> value == Reduced(Sum(old(value), old(other.value)), modulo)
      ensures o.Pass? && !ValidModulus(modulo) ==> value == old(value)
    {
      if Size().0 != other.Size().0 || Size().1 != other.Size().1 {
        return Fail(ShapeError);
      }
      if !ValidModulus(modulo) {
        if |value[0]| > 0 {
          return Fail(InvalidModulus);
        }
        // rows without cells: `transform` calls no `mod`
        return Pass;
      }
      ghost var a := value;
      var b := other.value;
      var f := (v: int, i: nat, j: nat) => Reduce(v + Entry(b, i, j), modulo);
      Transform(f);
      assert value == Reduced(Sum(a, b), modulo) by {
        forall i | 0 <= i < |a|
          ensures value[i] == Reduced(Sum(a, b), modulo)[i]
        {
        }
      }
      return Pass;
    }

    /** `scalar(n, modulo?)`: every cell becomes `mod(cell * n, modulo)`. */
    method Scalar(n: int, modulo: Option<int>) returns (o: Outcome)
      requires Valid() && |value| > 0
      modifies this
      ensures Valid()
      ensures o == if !ValidModulus(modulo) && |old(value)[0]| > 0 then Fail(InvalidModulus) else Pass
      ensures o.Fail? ==> value == old(value)
      ensures o.Pass? && ValidModulus(modulo) ==> value == Reduced(Scaled(old(value), n), modulo)
      ensures o.Pass? && !ValidModulus(modulo) ==> value == old(value)
    {
      if !ValidModulus(modulo) {
        if |value[0]| > 0 {
          return Fail(InvalidModulus);
        }
        return Pass;
      }
      ghost var a := value;
      Transform((v: int, i: nat, j: nat) => Reduce(v * n, modulo));
      assert value == Reduced(Scaled(a, n), modulo) by {
        forall i | 0 <= i < |a|
          ensures value[i] == Reduced(Scaled(a, n), modulo)[i]
        {
        }
      }
      return Pass;
    }

    /**
     * `product(other, modulo?)`: the width must equal the other's height; the
     * grid becomes the product, each accumulated dot product sent through
     * `mod` once. The new grid is assigned only after it is complete.
     */
    method Product(other: Matrix, modulo: Option<int>) returns (o: Outcome)
      requires Valid() && other.Valid() && |value| > 0 && |other.value| > 0
      modifies this
      ensures Valid()
      ensures o == if |old(value)[0]| != |old(other.value)| then Fail(DimensionError)
                   else if !ValidModulus(modulo) && |old(other.value)[0]| > 0 then Fail(InvalidModulus)
                   else Pass
      ensures o.Fail? ==> value == old(value)
      ensures o.Pass? ==> Multipliable(old(value), old(other.value))
      ensures o.Pass? && ValidModulus(modulo) ==> value == Reduced(Grids.Product(old(value), old(other.value)), modulo)
      ensures o.Pass? && !ValidModulus(modulo) ==> HasShape(value, |old(value)|, 0)
    {
      if Size().1 != other.Size().0 {
        return Fail(DimensionError);
      }
      // `this.value` and `m2.value` are only read until the final assignment
      var a, b := value, other.value;
      var result: Grid := [];
      var i := 0;
      while i < |a|
        invariant value == a
        invariant 0 <= i <= |a| && |result| == i
        invariant i > 0 && |b[0]| > 0 ==> ValidModulus(modulo)
        invariant forall r :: 0 <= r < i ==> |result[r]| == |b[0]|
        invariant forall r, c :: 0 <= r < i && 0 <= c < |b[0]| ==>
          ValidModulus(modulo) && result[r][c] == Reduce(DotUpTo(a[r], b, c, |b|), modulo)
      {
        var row: seq<int> := [];
        var j := 0;
        while j < |b[0]|
          invariant value == a
          invariant 0 <= j <= |b[0]| && |row| == j
          invariant j > 0 ==> ValidModulus(modulo)
          invariant forall c :: 0 <= c < j ==> ValidModulus(modulo) && row[c] == Reduce(DotUpTo(a[i], b, c, |b|), modulo)
        {
          var acc := 0;
          var k := 0;
          while k < |a[0]|
            invariant 0 <= k <= |b| && acc == DotUpTo(a[i], b, j, k)
          {
            acc := acc + a[i][k] * b[k][j];
            k := k + 1;
          }
          var r := Mod(acc, modulo);
          if r.Err? {
            return Fail(r.error);
          }
          row := row + [r.value];
          j := j + 1;
        }
        result := result + [row];
        i := i + 1;
      }
      value := result;
      if ValidModulus(modulo) {
        assert value == Reduced(Grids.Product(a, b), modulo) by {
          forall r | 0 <= r < |a|
            ensures value[r] == Reduced(Grids.Product(a, b), modulo)[r]
          {
          }
        }
      }
      return Pass;
    }

    /** `transpose()`: builds the grid of columns, then replaces `value` with it. */
    method Transpose()
      requires Valid() && |value| > 0
      modifies this
      ensures Valid() && value == Transposed(old(value))
    {
      var transposed: Grid := [];
      var i := 0;
      while i < |value[0]|
        invariant value == old(value)
        invariant 0 <= i <= |value[0]| && |transposed| == i
        invariant forall r :: 0 <= r < i ==> transposed[r] == Transposed(value)[r]
      {
        var row: seq<int> := [];
        var j := 0;
        while j < |value|
          invariant 0 <= j <= |value| && |row| == j
          invariant forall c :: 0 <= c < j ==> row[c] == value[c][i]
        {
          row := row + [value[j][i]];
          j := j + 1;
        }
        transposed := transposed + [row];
        i := i + 1;
      }
      TransposedShape(value);
      value := transposed;
    }

    /** `determinant(modulo?)`: only for square matrices; the cofactor expansion, sent through `mod` once. */
    method Determinant(modulo: Option<int>) returns (r: Result<int>)
      requires Valid() && |value| > 0
      ensures |value| != |value[0]| ==> r == Err(NotSquare)
      ensures |value| == |value[0]| ==> IsSquare(value) && r == Mod(Det(value), modulo)
    {
      if Size().0 != Size().1 {
        return Err(NotSquare);
      }
      var det := Det(value);
      r := Mod(det, modulo);
    }
  }

  /**
   * `ModularMatrix`: a matrix with a fixed modulus whose every cell lies in
   * `[0, modulo)`. The subclass is modelled by composition: `base` is the
   * matrix the inherited methods act on, and each override is a method here.
   */
  class ModularMatrix {
    const modulo: int
    const base: Matrix

    /** The class invariant: an accepted modulus and every cell in `[0, modulo)`. */
    ghost predicate Valid()
      reads this, base
    {
      modulo >= 1 && base.Valid() && InRange(base.value, modulo)
    }

    /** Wraps a matrix whose cells are reduced already; `Create` is the constructor as the library exposes it. */
    constructor (base: Matrix, modulo: int)
      requires modulo >= 1 && base.Valid() && InRange(base.value, modulo)
      ensures this.base == base && this.modulo == modulo && Valid()
    {
      this.base := base;
      this.modulo := modulo;
    }

    /**
     * `new ModularMatrix(initialValues, modulo)`: rejects a modulus below 1
     * before anything else, then runs the Matrix constructor with the modulus.
     * That constructor's pass calls the overriding `transform` while the
     * `modulo` field is still unset, so the inner `mod` reduces each cell and
     * the outer one, without a modulus, leaves it as it is: one reduction.
     */
    static method Create(initialValues: Grid, modulo: int) returns (r: Result<ModularMatrix>)
      ensures modulo < 1 ==> r == Err(InvalidModulus)
      ensures modulo >= 1 && !Rectangular(initialValues) ==> r == Err(ShapeError)
      ensures modulo >= 1 && Rectangular(initialValues) && |initialValues| == 0 ==> r == Err(EmptyGrid)
      ensures r.Ok? <==> modulo >= 1 && Rectangular(initialValues) && |initialValues| > 0
      ensures r.Ok? ==> (fresh(r.value) && fresh(r.value.base) && r.value.Valid() && r.value.modulo == modulo &&
        r.value.base.value == Reduced(initialValues, Some(modulo)))
    {
      if modulo < 1 {
        return Err(InvalidModulus);
      }
      var m := Matrix.Create(initialValues, Some(modulo));
      if m.Err? {
        return Err(m.error);
      }
      ReducedIsCanonical(initialValues, modulo);
      var mm := new ModularMatrix(m.value, modulo);
      return Ok(mm);
    }

    /**
     * `clone()`: a new ModularMatrix built from these cells with the same
     * modulus. Reducing them again changes nothing; like the constructor, it
     * fails on a matrix whose rows have all been deleted.
     */
    method Clone() returns (r: Result<ModularMatrix>)
      requires Valid()
      ensures r.Ok? <==> |base.value| > 0
      ensures r.Err? ==> r.error == EmptyGrid
      ensures r.Ok? ==> (fresh(r.value) && fresh(r.value.base) && r.value.Valid() && r.value.modulo == modulo &&
        r.value.base.value == base.value)
    {
      ReducedFixesInRange(base.value, modulo);
      r := Create(base.value, modulo);
    }

    /** `set(i, j, v)`: stores `mod(v, modulo)`. */
    method Set(i: nat, j: nat, v: int)
      requires Valid() && i < |base.value| && j < |base.value[i]|
      modifies base
      ensures Valid()
      ensures base.value == old(base.value)[i := old(base.value)[i][j := Reduce(v, Some(modulo))]]
    {
      var o := base.Set(i, j, v, Some(modulo));
    }

    /** `insertRow(row, position?)`: the row's cells go through `mod` before insertion. */
    method InsertRow(row: seq<int>, position: Option<nat>) returns (o: Outcome)
      requires Valid() && |base.value| > 0
      modifies base
      ensures Valid()
      ensures o == if |row| != |old(base.value)[0]| then Fail(ShapeError) else Pass
      ensures o.Fail? ==> base.value == old(base.value)
      ensures o.Pass? ==> base.value == Inserted(old(base.value), Reduced([row], Some(modulo))[0], position)
    {
      o := base.InsertRow(row, position, Some(modulo));
      if o.Pass? {
        assert ModRow(row, Some(modulo)).value == Reduced([row], Some(modulo))[0];
        ReducedIsCanonical([row], modulo);
      }
    }

    /** The overriding `transform(f)`: every cell becomes `mod(f(cell, row, column), modulo)`. */
    method Transform(f: (int, nat, nat) -> int)
      requires Valid() && |base.value| > 0
      modifies base
      ensures Valid()
      ensures base.value == Reduced(Mapped(old(base.value), f), Some(modulo))
    {
      ghost var g := base.value;
      var m := modulo;
      base.Transform((v: int, i: nat, j: nat) => Reduce(f(v, i, j), Some(m)));
      assert base.value == Reduced(Mapped(g, f), Some(modulo)) by {
        forall i | 0 <= i < |g|
          ensures base.value[i] == Reduced(Mapped(g, f), Some(modulo))[i]
        {
        }
      }
      ReducedIsCanonical(Mapped(g, f), modulo);
    }

    /**
     * `add(other)`: `Matrix.add` with the modulus, whose cell function
     * `mod(cell + other's cell, modulo)` the overriding `transform` reduces a
     * second time; the result is a single reduction because `mod` is idempotent.
     */
    method Add(other: Matrix) returns (o: Outcome)
      requires Valid() && other.Valid() && |base.value| > 0 && |other.value| > 0
      modifies base
      ensures Valid()
      ensures o == if |old(base.value)| != |old(other.value)| || |old(base.value)[0]| != |old(other.value)[0]|
                   then Fail(ShapeError) else Pass
      ensures o.Fail? ==> base.value == old(base.value)
      ensures o.Pass? ==> base.value == Reduced(Sum(old(base.value), old(other.value)), Some(modulo))
    {
      var a, b := base.value, other.value;
      if base.Size().0 != other.Size().0 || base.Size().1 != other.Size().1 {
        return Fail(ShapeError);
      }
      var m := modulo;
      var f := (v: int, i: nat, j: nat) => Reduce(v + Entry(b, i, j), Some(m));
      Transform(f);
      assert base.value == Reduced(Sum(a, b), Some(modulo)) by {
        forall i | 0 <= i < |a|
          ensures base.value[i] == Reduced(Sum(a, b), Some(modulo))[i]
        {
          forall j | 0 <= j < |a[i]|
            ensures base.value[i][j] == Reduced(Sum(a, b), Some(modulo))[i][j]
          {
            ModIdempotent(a[i][j] + b[i][j], modulo);
          }
        }
      }
      return Pass;
    }

    /** `scalar(n)`: as `add`, reduced twice by way of the overriding `transform`, once in effect. */
    method Scalar(n: int)
      requires Valid() && |base.value| > 0
      modifies base
      ensures Valid()
      ensures base.value == Reduced(Scaled(old(base.value), n), Some(modulo))
    {
      ghost var a := base.value;
      var m := modulo;
      Transform((v: int, i: nat, j: nat) => Reduce(v * n, Some(m)));
      assert base.value == Reduced(Scaled(a, n), Some(modulo)) by {
        forall i | 0 <= i < |a|
          ensures base.value[i] == Reduced(Scaled(a, n), Some(modulo))[i]
        {
          forall j | 0 <= j < |a[i]|
            ensures base.value[i][j] == Reduced(Scaled(a, n), Some(modulo))[i][j]
          {
            ModIdempotent(a[i][j] * n, modulo);
          }
        }
      }
    }

    /** `product(other)`: `Matrix.product` with the modulus, which reduces each cell once. */
    method Product(other: Matrix) returns (o: Outcome)
      requires Valid() && other.Valid() && |base.value| > 0 && |other.value| > 0
      modifies base
      ensures Valid()
      ensures o == if |old(base.value)[0]| != |old(other.value)| then Fail(DimensionError) else Pass
      ensures o.Fail? ==> base.value == old(base.value)
      ensures o.Pass? ==> (Multipliable(old(base.value), old(other.value)) &&
        base.value == Reduced(Grids.Product(old(base.value), old(other.value)), Some(modulo)))
    {
      ghost var a, b := base.value, other.value;
      o := base.Product(other, Some(modulo));
      if o.Pass? {
        ReducedIsCanonical(Grids.Product(a, b), modulo);
      }
    }

    /** The inherited `transpose()`: a rearrangement, so every cell stays in range. */
    method Transpose()
      requires Valid() && |base.value| > 0
      modifies base
      ensures Valid() && base.value == Transposed(old(base.value))
    {
      base.Transpose();
    }

    /** The inherited `deleteRow(k)`. */
    method DeleteRow(k: nat)
      requires Valid()
      modifies base
      ensures Valid() && base.value == RemovedRow(old(base.value), k)
    {
      base.DeleteRow(k);
    }

    /** The inherited `deleteColumn(k)`. */
    method DeleteColumn(k: nat)
      requires Valid()
      modifies base
      ensures Valid()
      ensures |old(base.value)| > 0 && k < |old(base.value)[0]| ==> base.value == DeleteColumnOf(old(base.value), k)
      ensures |old(base.value)| == 0 || k >= |old(base.value)[0]| ==> base.value == old(base.value)
    {
      base.DeleteColumn(k);
    }

    /** `determinant()`: the plain determinant of the cells, sent through `mod` once. */
    method Determinant() returns (r: Result<int>)
      requires Valid() && |base.value| > 0
      ensures |base.value| != |base.value[0]| ==> r == Err(NotSquare)
      ensures |base.value| == |base.value[0]| ==>
        IsSquare(base.value) && r == Ok(Reduce(Det(base.value), Some(modulo))) && 0 <= r.value < modulo
    {
      r := base.Determinant(Some(modulo));
    }
  }
}
