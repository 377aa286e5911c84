/**
 * Concrete values that src/lib/math/algebra.spec.ts and
 * src/lib/math/matrix.spec.ts expect, derived from the model.
 */
module Cases {
  import opened Wrappers
  import opened Algebra
  import opened Grids
  import opened Determinant
  import opened Matrices

  /** `mod` on positive and negative values, without a modulus, and with rejected moduli. */
  lemma ModCases()
    ensures Mod(10, Some(3)) == Ok(1) && Mod(25, Some(7)) == Ok(4) && Mod(100, Some(10)) == Ok(0)
    ensures Mod(-10, Some(3)) == Ok(2) && Mod(-25, Some(7)) == Ok(3) && Mod(-100, Some(10)) == Ok(0)
    ensures Mod(-25, Some(25)) == Ok(0) && Mod(-26, Some(25)) == Ok(24)
    ensures Mod(10, Some(0)) == Err(InvalidModulus) && Mod(10, Some(-3)) == Err(InvalidModulus)
    ensures Mod(10, None) == Ok(10) && Mod(-10, None) == Ok(-10) && Mod(0, None) == Ok(0)
  {
  }

  /** `gcd` with a zero argument, with negative arguments and with equal arguments. */
  method GcdCases() {
    var g := Gcd(0, 5);
    GcdSymmetries(g, 0, 5);
    GcdWithZero(g, 5);
    assert g == 5;
    g := Gcd(5, 0);
    GcdWithZero(g, 5);
    assert g == 5;
    g := Gcd(0, 0);
    GcdWithZero(g, 0);
    assert g == 0;
    var plain := Gcd(48, 18);
    var negated := Gcd(-48, 18);
    GcdSymmetries(negated, -48, 18);
    assert -(-48) == 48;
    GcdUnique(plain, negated, 48, 18);
    assert negated == plain;
    g := Gcd(7, 7);
    GcdUnique(g, 7, 7, 7);
    assert g == 7;
    g := Gcd(-7, -7);
    GcdSymmetries(g, -7, -7);
    GcdSymmetries(g, 7, -7);
    GcdUnique(g, 7, 7, 7);
    assert g == 7;
  }

  /** `check`, `identity` and `ones` on the grids of the constructor tests. */
  lemma ConstructionCases()
    ensures !Check([[1], [2, 3]]) && Check([]) && Check([[1]])
    ensures Check([[1, 2, 3], [4, 5, 6], [7, 8, 9]]) && !Check([[1, 2], [3, 4, 5]])
    ensures IdentityGrid(3) == [[1, 0, 0], [0, 1, 0], [0, 0, 1]] && IdentityGrid(1) == [[1]]
    ensures OnesGrid(3, None) == [[1, 1, 1], [1, 1, 1], [1, 1, 1]] && OnesGrid(1, None) == [[1]]
    ensures OnesGrid(5, Some(2)) == [[1, 1], [1, 1], [1, 1], [1, 1], [1, 1]]
    ensures Reduced([[1, 2], [3, 4]], Some(3)) == [[1, 2], [0, 1]]
  {
    var id := IdentityGrid(3);
    assert id[0] == [1, 0, 0] && id[1] == [0, 1, 0] && id[2] == [0, 0, 1];
    assert IdentityGrid(1)[0] == [1];
    var ones3 := OnesGrid(3, None);
    assert forall i | 0 <= i < 3 :: ones3[i] == [1, 1, 1];
    assert OnesGrid(1, None)[0] == [1];
    var ones := OnesGrid(5, Some(2));
    assert forall i | 0 <= i < 5 :: ones[i] == [1, 1];
    var r := Reduced([[1, 2], [3, 4]], Some(3));
    assert r[0] == [1, 2] && r[1] == [0, 1];
  }

  /** Sum, scalar multiple and product on the grids of the operation tests. */
  lemma OperationCases()
    ensures Sum([[1, 2, 3], [4, 5, 6], [7, 8, 9]], [[9, 8, 7], [6, 5, 4], [3, 2, 1]]) == [[10, 10, 10], [10, 10, 10], [10, 10, 10]]
    ensures Scaled([[1, 2, 3], [4, 5, 6], [7, 8, 9]], 2) == [[2, 4, 6], [8, 10, 12], [14, 16, 18]]
    ensures Multipliable([[1, 2], [3, 4]], [[2, 0], [1, 2]])
    ensures Grids.Product([[1, 2], [3, 4]], [[2, 0], [1, 2]]) == [[4, 4], [10, 8]]
    ensures !Multipliable([[1, 2], [3, 4]], [[1, 2, 3], [4, 5, 6], [7, 8, 9]])
  {
    var s := Sum([[1, 2, 3], [4, 5, 6], [7, 8, 9]], [[9, 8, 7], [6, 5, 4], [3, 2, 1]]);
    assert s[0] == [10, 10, 10] && s[1] == [10, 10, 10] && s[2] == [10, 10, 10];
    var k := Scaled([[1, 2, 3], [4, 5, 6], [7, 8, 9]], 2);
    assert k[0] == [2, 4, 6] && k[1] == [8, 10, 12] && k[2] == [14, 16, 18];
    var p := Grids.Product([[1, 2], [3, 4]], [[2, 0], [1, 2]]);
    assert p[0] == [4, 4] && p[1] == [10, 8];
    assert |[[1, 2], [3, 4]][0]| != |[[1, 2, 3], [4, 5, 6], [7, 8, 9]]|;
  }

  /** The transposes of a 2×3, a square, a single-row and a single-column grid. */
  lemma TransposeCases()
    ensures Transposed([[1, 2, 3], [4, 5, 6]]) == [[1, 4], [2, 5], [3, 6]]
    ensures Transposed([[1, 2], [3, 4]]) == [[1, 3], [2, 4]]
    ensures Transposed([[1, 2, 3]]) == [[1], [2], [3]] && Transposed([[1], [2], [3]]) == [[1, 2, 3]]
  {
    var t := Transposed([[1, 2, 3], [4, 5, 6]]);
    assert t[0] == [1, 4] && t[1] == [2, 5] && t[2] == [3, 6];
    var sq := Transposed([[1, 2], [3, 4]]);
    assert sq[0] == [1, 3] && sq[1] == [2, 4];
    var t1 := Transposed([[1, 2, 3]]);
    assert t1[0] == [1] && t1[1] == [2] && t1[2] == [3];
    var t2 := Transposed([[1], [2], [3]]);
    assert t2[0] == [1, 2, 3];
  }

  /** Determinants of the 1×1, 2×2 and 3×3 tests, and the grid that is not square. */
  lemma DeterminantCases()
    ensures Det([[5]]) == 5
    ensures Det([[1, 2], [3, 4]]) == -2
    ensures IsSquare([[1, 2, 3], [4, 5, 6], [7, 8, 9]]) && Det([[1, 2, 3], [4, 5, 6], [7, 8, 9]]) == 0
    ensures !IsSquare([[1, 2, 3], [4, 5, 6]])
  {
    var g := [[1, 2, 3], [4, 5, 6], [7, 8, 9]];
    var m0, m1, m2 := Minor(g, 0), Minor(g, 1), Minor(g, 2);
    assert m0[0] == [5, 6] && m0[1] == [8, 9];
    assert m1[0] == [4, 6] && m1[1] == [7, 9];
    assert m2[0] == [4, 5] && m2[1] == [7, 8];
    assert Det(m0) == -3 && Det(m1) == -6 && Det(m2) == -3;
    assert |[[1, 2, 3], [4, 5, 6]][0]| != |[[1, 2, 3], [4, 5, 6]]|;
  }

  /** The cells the operand `[[2, 1], [0, 2]]` of the modular tests holds: already in range. */
  lemma ModularOperands()
    ensures Reduced([[1, 2], [3, 4]], Some(3)) == [[1, 2], [0, 1]]
    ensures Reduced([[2, 1], [0, 2]], Some(3)) == [[2, 1], [0, 2]]
    ensures Reduced([[2, 0], [1, 2]], Some(3)) == [[2, 0], [1, 2]]
  {
    ConstructionCases();
    ReducedFixesInRange([[2, 1], [0, 2]], 3);
    ReducedFixesInRange([[2, 0], [1, 2]], 3);
  }

  /** `add` of the 3-modular `[[1, 2], [3, 4]]` and `[[2, 1], [0, 2]]`. */
  lemma ModularAddCase()
    ensures Reduced(Sum(Reduced([[1, 2], [3, 4]], Some(3)), Reduced([[2, 1], [0, 2]], Some(3))), Some(3)) == [[0, 0], [0, 0]]
  {
    ModularOperands();
    var sum := Sum([[1, 2], [0, 1]], [[2, 1], [0, 2]]);
    assert sum[0] == [3, 3] && sum[1] == [0, 3];
    var r := Reduced(sum, Some(3));
    assert r[0] == [0, 0] && r[1] == [0, 0];
  }

  /** `scalar(2)` on the 3-modular `[[1, 2], [3, 4]]`. */
  lemma ModularScalarCase()
    ensures Reduced(Scaled(Reduced([[1, 2], [3, 4]], Some(3)), 2), Some(3)) == [[2, 1], [0, 2]]
  {
    ModularOperands();
    var scaled := Scaled([[1, 2], [0, 1]], 2);
    assert scaled[0] == [2, 4] && scaled[1] == [0, 2];
    var r := Reduced(scaled, Some(3));
    assert r[0] == [2, 1] && r[1] == [0, 2];
  }

  /** `product` of the 3-modular `[[1, 2], [3, 4]]` and `[[2, 0], [1, 2]]`. */
  lemma ModularProductCase()
    ensures Multipliable(Reduced([[1, 2], [3, 4]], Some(3)), Reduced([[2, 0], [1, 2]], Some(3)))
    ensures Reduced(Grids.Product(Reduced([[1, 2], [3, 4]], Some(3)), Reduced([[2, 0], [1, 2]], Some(3))), Some(3)) == [[1, 1], [1, 2]]
  {
    ModularOperands();
    var p := Grids.Product([[1, 2], [0, 1]], [[2, 0], [1, 2]]);
    assert p[0] == [4, 4] && p[1] == [1, 2];
    var r := Reduced(p, Some(3));
    assert r[0] == [1, 1] && r[1] == [1, 2];
  }

  /**
   * The determinant tests of `ModularMatrix`: the determinant of the reduced
   * cells, reduced once.
   */
  lemma ModularDeterminantCases()
    ensures Reduce(Det(Reduced([[5]], Some(3))), Some(3)) == 2
    ensures Reduce(Det(Reduced([[1, 2], [3, 4]], Some(5))), Some(5)) == 3
    ensures Reduce(Det(Reduced([[1, 2, 3], [4, 5, 6], [7, 8, 9]], Some(7))), Some(7)) == 0
    ensures !IsSquare(Reduced([[1, 2, 3], [4, 5, 6]], Some(3)))
  {
    DeterminantCases();
    DetOfReduced([[5]], 3);
    DetOfReduced([[1, 2], [3, 4]], 5);
    DetOfReduced([[1, 2, 3], [4, 5, 6], [7, 8, 9]], 7);
    ModIsEuclidean(5, 3);
    ModIsEuclidean(-2, 5);
    ModIsEuclidean(0, 7);
    assert |Reduced([[1, 2, 3], [4, 5, 6]], Some(3))[0]| == 3;
  }

  /** `set(0, 0, 5)` on the 3-modular `[[1, 2], [0, 1]]`. */
  lemma ModularSetCase()
    ensures [[1, 2], [0, 1]][0 := [[1, 2], [0, 1]][0][0 := Reduce(5, Some(3))]] == [[2, 2], [0, 1]]
  {
    ModIsEuclidean(5, 3);
    assert Reduce(5, Some(3)) == 2;
    var row := [[1, 2], [0, 1]][0][0 := 2];
    assert row == [2, 2];
    var grid := [[1, 2], [0, 1]][0 := row];
    assert grid[0] == [2, 2] && grid[1] == [0, 1];
  }

  /** `insertRow([5, 6], 1)` on the 3-modular `[[2, 2], [0, 1]]`. */
  lemma ModularInsertCase()
    ensures Inserted([[2, 2], [0, 1]], Reduced([[5, 6]], Some(3))[0], Some(1)) == [[2, 2], [2, 0], [0, 1]]
  {
    var row := Reduced([[5, 6]], Some(3));
    assert row[0] == [2, 0];
  }

  /** `transform(v => v + 1)` on the 3-modular `[[2, 2], [2, 0], [0, 1]]`. */
  lemma ModularTransformCase()
    ensures Reduced(Mapped([[2, 2], [2, 0], [0, 1]], (v: int, i: nat, j: nat) => v + 1), Some(3)) == [[0, 0], [0, 1], [1, 2]]
  {
    var plus := Mapped([[2, 2], [2, 0], [0, 1]], (v: int, i: nat, j: nat) => v + 1);
    assert plus[0] == [3, 3] && plus[1] == [3, 1] && plus[2] == [1, 2];
    var done := Reduced(plus, Some(3));
    assert done[0] == [0, 0] && done[1] == [0, 1] && done[2] == [1, 2];
  }

  /** The mutation tests of `ModularMatrix`, restated through the method contracts. */
  method ModularMutationScenario() {
    ConstructionCases();
    var created := ModularMatrix.Create([[1, 2], [3, 4]], 3);
    var m := created.value;
    assert m.base.value == [[1, 2], [0, 1]];
    ModularSetCase();
    m.Set(0, 0, 5);
    assert m.base.value == [[2, 2], [0, 1]];
    ModularInsertCase();
    var inserted := m.InsertRow([5, 6], Some(1));
    assert m.base.value == [[2, 2], [2, 0], [0, 1]];
    ModularTransformCase();
    m.Transform((v: int, i: nat, j: nat) => v + 1);
    assert m.base.value == [[0, 0], [0, 1], [1, 2]];
  }
}
