/** Gauss-Jordan inversion over a field, in place on the rows of [A | I]
    (arm_sve.rs invert_gf_matrix, isal.rs invert_matrix). */
module GaussJordan {
  import opened Common
  import opened Fields

  /** The vector v solves m · v = 0. */
  ghost predicate Kills<T>(F: Field<T>, m: Matrix<T>, v: Row<T>)
    requires forall i | 0 <= i < |m| :: |m[i]| == |v|
  {
    forall i | 0 <= i < |m| :: Dot(F, m[i], v, |v|) == F.zero
  }

  /** Two systems of equations have the same solutions. Every row operation keeps this. */
  ghost predicate SameSolutions<T(!new)>(F: Field<T>, m: Matrix<T>, m': Matrix<T>, cols: nat)
    requires Rectangular(m, |m|, cols) && Rectangular(m', |m'|, cols)
  {
    forall v: Row<T> | |v| == cols :: Kills(F, m, v) <==> Kills(F, m', v)
  }

  /** [A | I] */
  function Augmented<T>(F: Field<T>, a: Matrix<T>): (m: Matrix<T>)
    requires forall i | 0 <= i < |a| :: |a[i]| == |a|
    ensures Rectangular(m, |a|, 2 * |a|)
  {
    seq(|a|, i requires 0 <= i < |a| => a[i] + UnitRow(F, i, |a|))
  }

  function UnitRow<T>(F: Field<T>, i: nat, n: nat): (r: Row<T>)
    ensures |r| == n
  {
    seq(n, j => if j == i then F.one else F.zero)
  }

  /** b undoes a and a undoes b, as maps on vectors. */
  ghost predicate Inverse<T(!new)>(F: Field<T>, a: Matrix<T>, b: Matrix<T>, n: nat)
    requires Rectangular(a, n, n) && Rectangular(b, n, n)
  {
    forall x: Row<T> | |x| == n :: Apply(F, b, Apply(F, a, x)) == x && Apply(F, a, Apply(F, b, x)) == x
  }

  lemma InverseRecovers<T(!new)>(F: Field<T>, a: Matrix<T>, b: Matrix<T>, n: nat, x: Row<T>, y: Row<T>, i: nat)
    requires Rectangular(a, n, n) && Rectangular(b, n, n) && Inverse(F, a, b, n)
    requires |x| == |y| == n && i < n
    requires forall r | 0 <= r < n :: y[r] == Dot(F, a[r], x, n)
    ensures Dot(F, b[i], y, n) == x[i]
  {
    assert y == Apply(F, a, x);
    assert Apply(F, b, y)[i] == x[i];
  }

  // ---- row operations keep the solutions ----

  lemma SwapKeeps<T(!new)>(F: Field<T>, m: Matrix<T>, p: nat, q: nat, cols: nat)
    requires Rectangular(m, |m|, cols) && p < |m| && q < |m|
    ensures SameSolutions(F, m, m[p := m[q]][q := m[p]], cols)
  {
    var m' := m[p := m[q]][q := m[p]];
    forall v: Row<T> | |v| == cols ensures Kills(F, m, v) <==> Kills(F, m', v) {
      assert m[p] == m'[q] && m[q] == m'[p];
      assert forall i | 0 <= i < |m| && i != p && i != q :: m[i] == m'[i];
    }
  }

  lemma ScaleKeeps<T(!new)>(F: Field<T>, m: Matrix<T>, p: nat, a: T, cols: nat)
    requires Laws(F) && Rectangular(m, |m|, cols) && p < |m| && a != F.zero
    ensures SameSolutions(F, m, m[p := Scaled(F, m[p], a)], cols)
  {
    var m' := m[p := Scaled(F, m[p], a)];
    forall v: Row<T> | |v| == cols ensures Kills(F, m, v) <==> Kills(F, m', v) {
      DotScaled(F, m[p], a, v, cols);
      Units(F, a);
      if Kills(F, m', v) {
        assert Dot(F, m'[p], v, cols) == F.zero;
        NoZeroDivisors(F, a, Dot(F, m[p], v, cols));
      }
      assert forall i | 0 <= i < |m| && i != p :: m[i] == m'[i];
    }
  }

  lemma EliminateKeeps<T(!new)>(F: Field<T>, m: Matrix<T>, r: nat, f: T, p: nat, cols: nat)
    requires Laws(F) && Rectangular(m, |m|, cols) && r < |m| && p < |m| && r != p
    ensures SameSolutions(F, m, m[r := PlusScaled(F, m[r], f, m[p])], cols)
  {
    var m' := m[r := PlusScaled(F, m[r], f, m[p])];
    forall v: Row<T> | |v| == cols ensures Kills(F, m, v) <==> Kills(F, m', v) {
      DotPlusScaled(F, m[r], f, m[p], v, cols);
      assert forall i | 0 <= i < |m| && i != r :: m[i] == m'[i];
      if Kills(F, m, v) || Kills(F, m', v) {
        assert m[p] == m'[p] && Dot(F, m[p], v, cols) == F.zero;
        Units(F, f);
        AddUnit(F, Dot(F, m[r], v, cols));
        assert forall i | 0 <= i < |m| :: Dot(F, m[i], v, cols) == Dot(F, m'[i], v, cols);
      }
    }
  }

  // ---- reading the answer off the reduced system ----

  /** The first c columns are those of the identity. */
  ghost predicate Reduced<T>(F: Field<T>, m: Matrix<T>, c: nat)
    requires forall i | 0 <= i < |m| :: c <= |m[i]|
  {
    forall i, j | 0 <= i < |m| && 0 <= j < c :: m[i][j] == if i == j then F.one else F.zero
  }

  function RightHalf<T>(m: Matrix<T>): (b: Matrix<T>)
    requires Rectangular(m, |m|, 2 * |m|)
    ensures Rectangular(b, |m|, |m|)
  {
    seq(|m|, i requires 0 <= i < |m| => m[i][|m|..])
  }

  // [A | I] kills (x, y) exactly when y is the image of x.
  lemma AugmentedKills<T(!new)>(F: Field<T>, a: Matrix<T>, x: Row<T>, y: Row<T>)
    requires Laws(F) && Rectangular(a, |a|, |a|) && |x| == |y| == |a|
    ensures Kills(F, Augmented(F, a), x + y) <==> Apply(F, a, x) == y
  {
    var n, m := |a|, Augmented(F, a);
    forall i | 0 <= i < n
      ensures Dot(F, m[i], x + y, 2 * n) == F.add(Apply(F, a, x)[i], y[i])
    {
      DotConcat(F, m[i], x, y, 2 * n);
      DotAgrees(F, m[i], a[i], x, x, n);
      assert m[i][n..] == UnitRow(F, i, n);
      DotUnit(F, m[i][n..], i, y, n);
    }
    forall i | 0 <= i < n
      ensures Dot(F, m[i], x + y, 2 * n) == F.zero <==> Apply(F, a, x)[i] == y[i]
    {
      AddCancels(F, Apply(F, a, x)[i], y[i]);
    }
  }

  // [I | B] kills (x, y) exactly when x is B · y.
  lemma ReducedKills<T(!new)>(F: Field<T>, m: Matrix<T>, x: Row<T>, y: Row<T>)
    requires Laws(F) && Rectangular(m, |m|, 2 * |m|) && |x| == |y| == |m|
    requires Reduced(F, m, |m|)
    ensures Kills(F, m, x + y) <==> Apply(F, RightHalf(m), y) == x
  {
    var n, b := |m|, RightHalf(m);
    forall i | 0 <= i < n
      ensures Dot(F, m[i], x + y, 2 * n) == F.add(x[i], Apply(F, b, y)[i])
    {
      DotConcat(F, m[i], x, y, 2 * n);
      DotUnit(F, m[i], i, x, n);
    }
    forall i | 0 <= i < n
      ensures Dot(F, m[i], x + y, 2 * n) == F.zero <==> x[i] == Apply(F, b, y)[i]
    {
      AddCancels(F, x[i], Apply(F, b, y)[i]);
    }
  }

  // Once the left half is the identity, the right half is the inverse.
  lemma ReducedGivesInverse<T(!new)>(F: Field<T>, a: Matrix<T>, m: Matrix<T>)
    requires Laws(F) && Rectangular(a, |a|, |a|) && Rectangular(m, |a|, 2 * |a|)
    requires SameSolutions(F, Augmented(F, a), m, 2 * |a|)
    requires Reduced(F, m, |a|)
    ensures Inverse(F, a, RightHalf(m), |a|)
  {
    var n, b := |a|, RightHalf(m);
    forall x: Row<T> | |x| == n
      ensures Apply(F, b, Apply(F, a, x)) == x && Apply(F, a, Apply(F, b, x)) == x
    {
      var y := Apply(F, a, x);
      AugmentedKills(F, a, x, y);
      ReducedKills(F, m, x, y);
      assert |x + y| == 2 * n;
      var z := Apply(F, b, x);
      ReducedKills(F, m, z, x);
      AugmentedKills(F, a, z, x);
      assert |z + x| == 2 * n;
    }
  }

  /** The kernel vector read off a column without a pivot. */
  function Witness<T>(F: Field<T>, m: Matrix<T>, c: nat): (v: Row<T>)
    requires Rectangular(m, |m|, 2 * |m|) && c < |m|
    ensures |v| == |m|
  {
    seq(|m|, j requires 0 <= j < |m| => if j == c then F.one else if j < c then m[j][c] else F.zero)
  }

  lemma WitnessKills<T(!new)>(F: Field<T>, m: Matrix<T>, c: nat, i: nat)
    requires Laws(F) && Rectangular(m, |m|, 2 * |m|) && c < |m| && i < |m|
    requires Reduced(F, m, c)
    requires forall r | c <= r < |m| :: m[r][c] == F.zero
    ensures Dot(F, m[i], Witness(F, m, c), |m|) == F.zero
  {
    var n, v := |m|, Witness(F, m, c);
    DotBreaks(F, m[i], v, c + 1, n);
    DotZero(F, m[i][c + 1..], v[c + 1..], n - c - 1);
    WitnessHead(F, m, c, i);
    AddUnit(F, F.zero);
  }

  // A product splits at any point of the row.
  lemma DotBreaks<T(!new)>(F: Field<T>, r: Row<T>, v: Row<T>, c: nat, n: nat)
    requires Laws(F) && c <= n == |v| && n <= |r|
    ensures Dot(F, r, v, n) == F.add(Dot(F, r, v, c), Dot(F, r[c..], v[c..], n - c))
  {
    assert v == v[..c] + v[c..];
    DotConcat(F, r, v[..c], v[c..], n);
    DotAgrees(F, r, r, v[..c], v, c);
  }

  lemma WitnessHead<T(!new)>(F: Field<T>, m: Matrix<T>, c: nat, i: nat)
    requires Laws(F) && Rectangular(m, |m|, 2 * |m|) && c < |m| && i < |m|
    requires Reduced(F, m, c)
    requires forall r | c <= r < |m| :: m[r][c] == F.zero
    ensures Dot(F, m[i], Witness(F, m, c), c + 1) == F.zero
  {
    DotUnit(F, m[i], i, Witness(F, m, c), c);
    Units(F, m[i][c]);
    AddUnit(F, m[i][c]);
    AddUnit(F, F.zero);
  }

  lemma NoPivotGivesKernel<T(!new)>(F: Field<T>, a: Matrix<T>, m: Matrix<T>, c: nat) returns (v: Row<T>)
    requires Laws(F) && Rectangular(a, |a|, |a|) && Rectangular(m, |a|, 2 * |a|) && c < |a|
    requires SameSolutions(F, Augmented(F, a), m, 2 * |a|)
    requires Reduced(F, m, c)
    requires forall r | c <= r < |a| :: m[r][c] == F.zero
    ensures |v| == |a| && !IsZero(F, v) && Kills(F, a, v)
  {
    var n := |a|;
    v := Witness(F, m, c);
    assert v[c] == F.one;
    var zeros := seq(n, j => F.zero);
    forall i | 0 <= i < n ensures Dot(F, m[i], v + zeros, 2 * n) == F.zero {
      DotConcat(F, m[i], v, zeros, 2 * n);
      WitnessKills(F, m, c, i);
      DotZero(F, m[i][n..], zeros, n);
      AddUnit(F, F.zero);
    }
    assert |v + zeros| == 2 * n && Kills(F, m, v + zeros);
    AugmentedKills(F, a, v, zeros);
    forall i | 0 <= i < n ensures Dot(F, a[i], v, n) == F.zero {
      assert Apply(F, a, v)[i] == zeros[i];
    }
  }

  /** A matrix with only the zero vector in its kernel. */
  ghost predicate Nonsingular<T(!new)>(F: Field<T>, a: Matrix<T>)
    requires Rectangular(a, |a|, |a|)
  {
    forall v: Row<T> | |v| == |a| && Kills(F, a, v) :: IsZero(F, v)
  }

  /** Inverts a square matrix, or reports that it is singular. */
  method Invert<T(!new, ==)>(F: Field<T>, a: Matrix<T>) returns (result: Option<Matrix<T>>)
    requires Laws(F)
    requires Rectangular(a, |a|, |a|)
    ensures result.Some? ==> Rectangular(result.value, |a|, |a|) && Inverse(F, a, result.value, |a|)
    ensures result.Some? <==> Nonsingular(F, a)
  {
    var n := |a|;
    if n == 0 {
      return Some([]);
    }
    var start := Augmented(F, a);
    var aug := new Row<T>[n](i requires 0 <= i < n => start[i]);
    assert aug[..] == start;
    for col := 0 to n
      invariant Rectangular(aug[..], n, 2 * n)
      invariant SameSolutions(F, start, aug[..], 2 * n)
      invariant Reduced(F, aug[..], col)
    {
      var pivot := col;
      while pivot < n && aug[pivot][col] == F.zero
        invariant col <= pivot <= n
        invariant forall r | col <= r < pivot :: aug[r][col] == F.zero
      {
        pivot := pivot + 1;
      }
      if pivot == n {
        ghost var v := NoPivotGivesKernel(F, a, aug[..], col);
        return None;
      }
      PivotStep(F, aug, col, pivot, n);
    }
    ReducedGivesInverse(F, a, aug[..]);
    result := Some(RightHalf(aug[..]));
    InverseIsNonsingular(F, a, result.value);
  }

  // A matrix with an inverse kills nothing else than zero.
  lemma InverseIsNonsingular<T(!new)>(F: Field<T>, a: Matrix<T>, b: Matrix<T>)
    requires Laws(F) && Rectangular(a, |a|, |a|) && Rectangular(b, |a|, |a|)
    requires Inverse(F, a, b, |a|)
    ensures Nonsingular(F, a)
  {
    forall v: Row<T> | |v| == |a| && Kills(F, a, v) ensures IsZero(F, v) {
      var w := Apply(F, a, v);
      forall i | 0 <= i < |v| ensures v[i] == F.zero {
        assert Apply(F, b, w) == v;
        DotZero(F, b[i], w, |w|);
      }
    }
  }

  /** Brings a pivot into place and clears its column. */
  method PivotStep<T(!new, ==)>(F: Field<T>, aug: array<Row<T>>, col: nat, pivot: nat, n: nat)
    requires Laws(F)
    requires aug.Length == n && col <= pivot < n && Rectangular(aug[..], n, 2 * n)
    requires Reduced(F, aug[..], col) && aug[pivot][col] != F.zero
    modifies aug
    ensures Rectangular(aug[..], n, 2 * n)
    ensures SameSolutions(F, old(aug[..]), aug[..], 2 * n)
    ensures Reduced(F, aug[..], col + 1)
  {
    ghost var m0 := aug[..];
    SwapKeeps(F, m0, col, pivot, 2 * n);
    aug[col], aug[pivot] := aug[pivot], aug[col];
    ghost var m1 := aug[..];
    assert m1 == m0[col := m0[pivot]][pivot := m0[col]];
    ghost var inv := F.inv(m1[col][col]);
    Inverts(F, m1[col][col]);
    ScaleKeeps(F, m1, col, inv, 2 * n);
    Normalize(F, aug, col, n);
    ghost var m2 := aug[..];
    Eliminate(F, aug, col, n);
    StepReduces(F, m1, m2, aug[..], col);
  }

  lemma StepReduces<T(!new)>(F: Field<T>, m1: Matrix<T>, m2: Matrix<T>, m3: Matrix<T>, col: nat)
    requires Laws(F) && Rectangular(m1, |m1|, 2 * |m1|) && col < |m1|
    requires Reduced(F, m1, col) && m1[col][col] != F.zero
    requires m2 == m1[col := Scaled(F, m1[col], F.inv(m1[col][col]))]
    requires Rectangular(m3, |m1|, 2 * |m1|)
    requires forall i | 0 <= i < |m1| ::
      m3[i] == if i == col then m2[i] else PlusScaled(F, m2[i], m2[i][col], m2[col])
    ensures Reduced(F, m3, col + 1)
  {
    Inverts(F, m1[col][col]);
    Units(F, F.inv(m1[col][col]));
    forall i, j | 0 <= i < |m1| && 0 <= j < col + 1
      ensures m3[i][j] == if i == j then F.one else F.zero
    {
      Units(F, m2[i][col]);
      AddUnit(F, m2[i][j]);
    }
  }

  /** Divides the pivot row by its pivot. */
  method Normalize<T(!new, ==)>(F: Field<T>, aug: array<Row<T>>, col: nat, n: nat)
    requires Laws(F)
    requires aug.Length == n && col < n && Rectangular(aug[..], n, 2 * n)
    requires aug[col][col] != F.zero
    modifies aug
    ensures aug[..] == old(aug[..])[col := Scaled(F, old(aug[col]), F.inv(old(aug[col][col])))]
  {
    var inv := F.inv(aug[col][col]);
    for j := 0 to 2 * n
      invariant forall i | 0 <= i < n && i != col :: aug[i] == old(aug[i])
      invariant |aug[col]| == 2 * n
      invariant forall t | 0 <= t < j :: aug[col][t] == F.mul(old(aug[col])[t], inv)
      invariant forall t | j <= t < 2 * n :: aug[col][t] == old(aug[col])[t]
    {
      aug[col] := aug[col][j := F.mul(aug[col][j], inv)];
    }
    assert aug[col] == Scaled(F, old(aug[col]), inv);
  }

  /** Clears a column in every row but the pivot row. */
  method Eliminate<T(!new, ==)>(F: Field<T>, aug: array<Row<T>>, col: nat, n: nat)
    requires Laws(F)
    requires aug.Length == n && col < n && Rectangular(aug[..], n, 2 * n)
    modifies aug
    ensures Rectangular(aug[..], n, 2 * n)
    ensures SameSolutions(F, old(aug[..]), aug[..], 2 * n)
    ensures forall i | 0 <= i < n ::
      aug[i] == if i == col then old(aug[i]) else PlusScaled(F, old(aug[i]), old(aug[i][col]), old(aug[col]))
  {
    for row := 0 to n
      invariant Rectangular(aug[..], n, 2 * n)
      invariant SameSolutions(F, old(aug[..]), aug[..], 2 * n)
      invariant aug[col] == old(aug[col])
      invariant forall i | 0 <= i < row && i != col ::
        aug[i] == PlusScaled(F, old(aug[i]), old(aug[i][col]), old(aug[col]))
      invariant forall i | row <= i < n :: aug[i] == old(aug[i])
    {
      if row != col {
        EliminateKeeps(F, aug[..], row, aug[row][col], col, 2 * n);
        ghost var before := aug[..];
        AddMultiple(F, aug, row, col, n);
        assert aug[..] == before[row := PlusScaled(F, before[row], before[row][col], before[col])];
      }
    }
  }

  /** Adds the multiple of the pivot row that clears this row's entry in the column. */
  method AddMultiple<T(!new, ==)>(F: Field<T>, aug: array<Row<T>>, row: nat, col: nat, n: nat)
    requires Laws(F)
    requires aug.Length == n && col < n && row < n && row != col && Rectangular(aug[..], n, 2 * n)
    modifies aug
    ensures aug[..] == old(aug[..])[row := PlusScaled(F, old(aug[row]), old(aug[row][col]), old(aug[col]))]
  {
    var factor := aug[row][col];
    if factor != F.zero {
      for j := 0 to 2 * n
        invariant forall i | 0 <= i < n && i != row :: aug[i] == old(aug[i])
        invariant |aug[row]| == 2 * n
        invariant forall t | 0 <= t < j :: aug[row][t] == F.add(old(aug[row])[t], F.mul(factor, old(aug[col])[t]))
        invariant forall t | j <= t < 2 * n :: aug[row][t] == old(aug[row])[t]
      {
        aug[row] := aug[row][j := F.add(aug[row][j], F.mul(factor, aug[col][j]))];
      }
    } else {
      forall t | 0 <= t < 2 * n
        ensures aug[row][t] == F.add(aug[row][t], F.mul(factor, aug[col][t]))
      {
        Units(F, aug[col][t]);
        AddUnit(F, aug[row][t]);
      }
    }
    assert aug[row] == PlusScaled(F, old(aug[row]), factor, old(aug[col]));
  }
}
