/** Vectors over a field of characteristic two, independent of how the field computes.

    The operations are parameters, so the linear algebra below rests on the field
    laws alone and never on the contents of a multiplication table. */
module Fields {

  datatype Field<!T> = Field(zero: T, one: T, add: (T, T) -> T, mul: (T, T) -> T, inv: T -> T)

  type Row<T> = seq<T>
  type Matrix<T> = seq<Row<T>>

  // Marks the elements at which the laws are wanted; they fire on nothing else.
  predicate At<T>(a: T, b: T, c: T) { true }

  /** The field laws at three elements, with every element its own negative. */
  ghost predicate LawsAt<T>(F: Field<T>, a: T, b: T, c: T) {
    && F.add(a, b) == F.add(b, a)
    && F.add(a, F.add(b, c)) == F.add(F.add(a, b), c)
    && F.add(a, F.zero) == a
    && F.add(a, a) == F.zero
    && F.mul(a, b) == F.mul(b, a)
    && F.mul(a, F.mul(b, c)) == F.mul(F.mul(a, b), c)
    && F.mul(a, F.add(b, c)) == F.add(F.mul(a, b), F.mul(a, c))
    && F.mul(a, F.one) == a
    && (a != F.zero ==> F.mul(a, F.inv(a)) == F.one)
  }

  /** The field laws. The inverse of zero is zero, as arm_sve.rs defines it; the inverse of
      gf/mod.rs refuses zero and agrees everywhere else. */
  ghost predicate Laws<T(!new)>(F: Field<T>) {
    && (forall a, b, c {:trigger At(a, b, c)} :: At(a, b, c) ==> LawsAt(F, a, b, c))
    && F.inv(F.zero) == F.zero
    && F.one != F.zero
  }

  lemma AddCommutes<T(!new)>(F: Field<T>, a: T, b: T)
    requires Laws(F)
    ensures F.add(a, b) == F.add(b, a)
  {
    assert At(a, b, F.zero);
  }

  lemma AddAssociates<T(!new)>(F: Field<T>, a: T, b: T, c: T)
    requires Laws(F)
    ensures F.add(a, F.add(b, c)) == F.add(F.add(a, b), c)
  {
    assert At(a, b, c);
  }

  lemma AddUnit<T(!new)>(F: Field<T>, a: T)
    requires Laws(F)
    ensures F.add(a, F.zero) == F.add(F.zero, a) == a
    ensures F.add(a, a) == F.zero
  {
    assert At(a, F.zero, F.zero);
  }

  // Adding the same element twice cancels.
  lemma AddCancels<T(!new)>(F: Field<T>, a: T, b: T)
    requires Laws(F)
    ensures F.add(F.add(a, b), b) == a
    ensures F.add(a, b) == F.zero <==> a == b
  {
    AddAssociates(F, a, b, b);
    AddUnit(F, a);
    AddUnit(F, b);
  }

  lemma Interchange<T(!new)>(F: Field<T>, a: T, b: T, c: T, d: T)
    requires Laws(F)
    ensures F.add(F.add(a, b), F.add(c, d)) == F.add(F.add(a, c), F.add(b, d))
  {
    AddAssociates(F, F.add(a, b), c, d);
    AddAssociates(F, a, b, c);
    AddCommutes(F, b, c);
    AddAssociates(F, a, c, b);
    AddAssociates(F, F.add(a, c), b, d);
  }

  lemma Commutes<T(!new)>(F: Field<T>, a: T, b: T)
    requires Laws(F)
    ensures F.mul(a, b) == F.mul(b, a)
  {
    assert At(a, b, F.zero);
  }

  lemma Associates<T(!new)>(F: Field<T>, a: T, b: T, c: T)
    requires Laws(F)
    ensures F.mul(a, F.mul(b, c)) == F.mul(F.mul(a, b), c)
  {
    assert At(a, b, c);
  }

  lemma Distributes<T(!new)>(F: Field<T>, a: T, b: T, c: T)
    requires Laws(F)
    ensures F.mul(a, F.add(b, c)) == F.add(F.mul(a, b), F.mul(a, c))
    ensures F.mul(F.add(b, c), a) == F.add(F.mul(b, a), F.mul(c, a))
  {
    assert At(a, b, c);
    Commutes(F, a, F.add(b, c));
    Commutes(F, a, b);
    Commutes(F, a, c);
  }

  lemma Units<T(!new)>(F: Field<T>, a: T)
    requires Laws(F)
    ensures F.mul(a, F.one) == F.mul(F.one, a) == a
    ensures F.mul(a, F.zero) == F.mul(F.zero, a) == F.zero
  {
    assert At(a, F.one, F.zero);
    AddUnit(F, F.zero);
    Distributes(F, a, F.zero, F.zero);
    AddCancels(F, F.mul(a, F.zero), F.mul(a, F.zero));
    Commutes(F, a, F.zero);
  }

  lemma Inverts<T(!new)>(F: Field<T>, a: T)
    requires Laws(F)
    requires a != F.zero
    ensures F.mul(a, F.inv(a)) == F.mul(F.inv(a), a) == F.one
    ensures F.inv(a) != F.zero
  {
    assert At(a, F.zero, F.zero);
    Commutes(F, a, F.inv(a));
    Units(F, a);
  }

  // A field has no zero divisors.
  lemma NoZeroDivisors<T(!new)>(F: Field<T>, a: T, b: T)
    requires Laws(F)
    requires F.mul(a, b) == F.zero
    ensures a == F.zero || b == F.zero
  {
    if a != F.zero {
      Inverts(F, a);
      Associates(F, F.inv(a), a, b);
      Units(F, b);
      Units(F, F.inv(a));
    }
  }

  /** The sum of the first n products of two rows. */
  function Dot<T>(F: Field<T>, r: Row<T>, v: Row<T>, n: nat): T
    requires n <= |r| && n <= |v|
  {
    if n == 0 then F.zero else F.add(Dot(F, r, v, n - 1), F.mul(r[n - 1], v[n - 1]))
  }

  function Scaled<T>(F: Field<T>, r: Row<T>, a: T): (s: Row<T>)
    ensures |s| == |r|
  {
    seq(|r|, j requires 0 <= j < |r| => F.mul(r[j], a))
  }

  function PlusScaled<T>(F: Field<T>, r: Row<T>, f: T, p: Row<T>): (s: Row<T>)
    requires |p| == |r|
    ensures |s| == |r|
  {
    seq(|r|, j requires 0 <= j < |r| => F.add(r[j], F.mul(f, p[j])))
  }

  lemma {:induction false} DotScaled<T(!new)>(F: Field<T>, r: Row<T>, a: T, v: Row<T>, n: nat)
    requires Laws(F) && n <= |r| && n <= |v|
    ensures Dot(F, Scaled(F, r, a), v, n) == F.mul(a, Dot(F, r, v, n))
  {
    if n == 0 {
      Units(F, a);
    } else {
      DotScaled(F, r, a, v, n - 1);
      Distributes(F, a, Dot(F, r, v, n - 1), F.mul(r[n - 1], v[n - 1]));
      Commutes(F, a, r[n - 1]);
      Associates(F, a, r[n - 1], v[n - 1]);
    }
  }

  lemma {:induction false} DotPlusScaled<T(!new)>(F: Field<T>, r: Row<T>, f: T, p: Row<T>, v: Row<T>, n: nat)
    requires Laws(F) && |p| == |r| && n <= |r| && n <= |v|
    ensures Dot(F, PlusScaled(F, r, f, p), v, n) == F.add(Dot(F, r, v, n), F.mul(f, Dot(F, p, v, n)))
  {
    if n == 0 {
      Units(F, f);
      AddUnit(F, F.zero);
    } else {
      DotPlusScaled(F, r, f, p, v, n - 1);
      var before, term := Dot(F, p, v, n - 1), F.mul(p[n - 1], v[n - 1]);
      Distributes(F, f, before, term);
      Distributes(F, v[n - 1], r[n - 1], F.mul(f, p[n - 1]));
      Associates(F, f, p[n - 1], v[n - 1]);
      Interchange(F, Dot(F, r, v, n - 1), F.mul(f, before), F.mul(r[n - 1], v[n - 1]), F.mul(f, term));
    }
  }

  // Only the first n entries of either row matter.
  lemma {:induction false} DotAgrees<T(!new)>(F: Field<T>, r: Row<T>, r': Row<T>, v: Row<T>, v': Row<T>, n: nat)
    requires n <= |r| && n <= |r'| && n <= |v| && n <= |v'|
    requires forall j | 0 <= j < n :: r[j] == r'[j] && v[j] == v'[j]
    ensures Dot(F, r, v, n) == Dot(F, r', v', n)
  {
    if n > 0 {
      DotAgrees(F, r, r', v, v', n - 1);
    }
  }

  // A row against a concatenation splits at the seam.
  lemma {:induction false} DotConcat<T(!new)>(F: Field<T>, r: Row<T>, v: Row<T>, w: Row<T>, n: nat)
    requires Laws(F)
    requires |v| <= n <= |r| && n <= |v + w|
    ensures Dot(F, r, v + w, n) == F.add(Dot(F, r, v, |v|), Dot(F, r[|v|..], w, n - |v|))
  {
    if n == |v| {
      DotAgrees(F, r, r, v + w, v, n);
      AddUnit(F, Dot(F, r, v, n));
    } else {
      DotConcat(F, r, v, w, n - 1);
      AddAssociates(F, Dot(F, r, v, |v|), Dot(F, r[|v|..], w, n - 1 - |v|), F.mul(r[n - 1], (v + w)[n - 1]));
    }
  }

  // A row with a single one picks out an entry.
  lemma {:induction false} DotUnit<T(!new)>(F: Field<T>, r: Row<T>, i: nat, v: Row<T>, n: nat)
    requires Laws(F) && n <= |r| && n <= |v|
    requires forall j | 0 <= j < n :: r[j] == if j == i then F.one else F.zero
    ensures Dot(F, r, v, n) == if i < n then v[i] else F.zero
  {
    if n > 0 {
      DotUnit(F, r, i, v, n - 1);
      Units(F, v[n - 1]);
      AddUnit(F, Dot(F, r, v, n - 1));
      AddUnit(F, v[n - 1]);
    }
  }

  lemma {:induction false} DotZero<T(!new)>(F: Field<T>, r: Row<T>, v: Row<T>, n: nat)
    requires Laws(F) && n <= |r| && n <= |v|
    requires forall j | 0 <= j < n :: r[j] == F.zero || v[j] == F.zero
    ensures Dot(F, r, v, n) == F.zero
  {
    if n > 0 {
      DotZero(F, r, v, n - 1);
      Units(F, v[n - 1]);
      Units(F, r[n - 1]);
      AddUnit(F, F.zero);
    }
  }

  ghost predicate Rectangular<T>(m: Matrix<T>, rows: nat, cols: nat) {
    |m| == rows && forall i | 0 <= i < rows :: |m[i]| == cols
  }

  /** The matrix-vector product. */
  function Apply<T>(F: Field<T>, m: Matrix<T>, v: Row<T>): (w: Row<T>)
    requires forall i | 0 <= i < |m| :: |m[i]| == |v|
    ensures |w| == |m|
  {
    seq(|m|, i requires 0 <= i < |m| => Dot(F, m[i], v, |v|))
  }

  ghost predicate IsZero<T>(F: Field<T>, v: Row<T>) {
    forall j | 0 <= j < |v| :: v[j] == F.zero
  }
}
