/** A Cauchy system has only the zero solution, by eliminating one unknown and one
    equation at a time; no determinant is needed. */
module Cauchy {
  import opened Common
  import opened Fields

  /** The row 1 / (x_j + y). */
  function CauchyRow<T>(F: Field<T>, xs: Row<T>, y: T): (r: Row<T>)
    ensures |r| == |xs|
  {
    seq(|xs|, j requires 0 <= j < |xs| => F.inv(F.add(xs[j], y)))
  }

  /** How many of the first n entries are nonzero. */
  ghost function Support<T>(F: Field<T>, c: Row<T>, n: nat): nat
    requires n <= |c|
  {
    if n == 0 then 0 else Support(F, c, n - 1) + if c[n - 1] == F.zero then 0 else 1
  }

  lemma {:induction false} SupportShrinks<T(!new)>(F: Field<T>, d: Row<T>, c: Row<T>, n: nat)
    requires n <= |c| && n <= |d|
    requires forall j | 0 <= j < n && c[j] == F.zero :: d[j] == F.zero
    ensures Support(F, d, n) <= Support(F, c, n)
  {
    if n > 0 {
      SupportShrinks(F, d, c, n - 1);
    }
  }

  /** The coefficients of the smaller system: unknown x and equation y are eliminated. */
  function Eliminated<T>(F: Field<T>, c: Row<T>, xs: Row<T>, x: T, y: T, n: nat): (d: Row<T>)
    requires n <= |c| && n <= |xs|
    ensures |d| == n
  {
    seq(n, j requires 0 <= j < n => F.mul(c[j], F.mul(F.add(x, xs[j]), F.inv(F.add(xs[j], y)))))
  }

  lemma AddThrough<T(!new)>(F: Field<T>, a: T, b: T, c: T)
    requires Laws(F)
    ensures F.add(a, b) == F.add(F.add(a, c), F.add(c, b))
  {
    AddAssociates(F, F.add(a, c), c, b);
    AddCancels(F, a, c);
  }

  // (g + u)/u + (g + w)/w = (u + w)/u · g/w, when every element is its own negative.
  lemma PartialFractions<T(!new)>(F: Field<T>, g: T, u: T, w: T)
    requires Laws(F) && u != F.zero && w != F.zero
    ensures F.add(F.mul(F.add(g, u), F.inv(u)), F.mul(F.add(g, w), F.inv(w)))
         == F.mul(F.mul(F.add(u, w), F.inv(u)), F.mul(g, F.inv(w)))
  {
    var p, q := F.inv(u), F.inv(w);
    Inverts(F, u);
    Inverts(F, w);
    // the left side is g p + g q
    Distributes(F, p, g, u);
    Distributes(F, q, g, w);
    Interchange(F, F.mul(g, p), F.one, F.mul(g, q), F.one);
    AddUnit(F, F.one);
    AddUnit(F, F.add(F.mul(g, p), F.mul(g, q)));
    // the right side is (1 + w p) g q = g q + g p
    Distributes(F, p, u, w);
    Distributes(F, F.mul(g, q), F.one, F.mul(w, p));
    Units(F, F.mul(g, q));
    Commutes(F, F.mul(w, p), F.mul(g, q));
    Associates(F, F.mul(g, q), w, p);
    Associates(F, g, q, w);
    Units(F, g);
    AddCommutes(F, F.mul(g, p), F.mul(g, q));
  }

  // One term of the elimination.
  lemma EliminateTerm<T(!new)>(F: Field<T>, c: T, x: T, xj: T, y: T, y': T)
    requires Laws(F) && xj != y && xj != y'
    ensures F.add(F.mul(F.add(x, y), F.mul(F.inv(F.add(xj, y)), c)), F.mul(F.add(x, y'), F.mul(F.inv(F.add(xj, y')), c)))
         == F.mul(F.add(y, y'), F.mul(F.inv(F.add(xj, y)), F.mul(c, F.mul(F.add(x, xj), F.inv(F.add(xj, y'))))))
  {
    var g, u, w := F.add(x, xj), F.add(xj, y), F.add(xj, y');
    var p, q := F.inv(u), F.inv(w);
    AddCancels(F, xj, y);
    AddCancels(F, xj, y');
    AddThrough(F, x, y, xj);
    AddThrough(F, x, y', xj);
    AddCommutes(F, xj, y);
    AddThrough(F, y, y', xj);
    PartialFractions(F, g, u, w);
    Associates(F, F.add(g, u), p, c);
    Associates(F, F.add(g, w), q, c);
    Distributes(F, c, F.mul(F.add(g, u), p), F.mul(F.add(g, w), q));
    Associates(F, F.add(u, w), p, F.mul(c, F.mul(g, q)));
    Commutes(F, c, F.mul(g, q));
    Associates(F, F.mul(F.add(u, w), p), F.mul(g, q), c);
  }

  // The whole elimination: two equations combine into one of the smaller system.
  lemma {:induction false} EliminateSum<T(!new)>(F: Field<T>, c: Row<T>, xs: Row<T>, x: T, y: T, y': T, n: nat)
    requires Laws(F) && n <= |c| && n <= |xs|
    requires forall j | 0 <= j < n :: xs[j] != y && xs[j] != y'
    ensures F.add(F.mul(F.add(x, y), Dot(F, CauchyRow(F, xs, y), c, n)),
                  F.mul(F.add(x, y'), Dot(F, CauchyRow(F, xs, y'), c, n)))
         == F.mul(F.add(y, y'), Dot(F, CauchyRow(F, xs, y), Eliminated(F, c, xs, x, y', n), n))
  {
    if n == 0 {
      Units(F, F.add(x, y));
      Units(F, F.add(x, y'));
      Units(F, F.add(y, y'));
      AddUnit(F, F.zero);
    } else {
      var r, r' := CauchyRow(F, xs, y), CauchyRow(F, xs, y');
      var d := Eliminated(F, c, xs, x, y', n);
      EliminateSum(F, c, xs, x, y, y', n - 1);
      DotAgrees(F, r, r, d, Eliminated(F, c, xs, x, y', n - 1), n - 1);
      EliminateTerm(F, c[n - 1], x, xs[n - 1], y, y');
      var s, s', t, t' := Dot(F, r, c, n - 1), Dot(F, r', c, n - 1), F.mul(r[n - 1], c[n - 1]), F.mul(r'[n - 1], c[n - 1]);
      Distributes(F, F.add(x, y), s, t);
      Distributes(F, F.add(x, y'), s', t');
      Interchange(F, F.mul(F.add(x, y), s), F.mul(F.add(x, y), t), F.mul(F.add(x, y'), s'), F.mul(F.add(x, y'), t'));
      Distributes(F, F.add(y, y'), Dot(F, r, d, n - 1), F.mul(r[n - 1], d[n - 1]));
    }
  }

  // An equation that holds gives the last term as minus the rest.
  lemma LastTerm<T(!new)>(F: Field<T>, c: Row<T>, xs: Row<T>, y: T, n: nat)
    requires Laws(F) && 0 < n <= |c| && n <= |xs| && xs[n - 1] != y
    requires Dot(F, CauchyRow(F, xs, y), c, n) == F.zero
    ensures F.mul(F.add(xs[n - 1], y), Dot(F, CauchyRow(F, xs, y), c, n - 1)) == c[n - 1]
  {
    var r, u := CauchyRow(F, xs, y), F.add(xs[n - 1], y);
    AddCancels(F, Dot(F, r, c, n - 1), F.mul(r[n - 1], c[n - 1]));
    AddCancels(F, xs[n - 1], y);
    Inverts(F, u);
    Associates(F, u, r[n - 1], c[n - 1]);
    Units(F, c[n - 1]);
  }

  /** The first m equations over the first n unknowns hold for c, all nodes differ, and no more of
      the unknowns are nonzero than there are equations. */
  ghost predicate System<T>(F: Field<T>, c: Row<T>, xs: Row<T>, ys: Row<T>, m: nat, n: nat) {
    && n <= |c| && n <= |xs| && m <= |ys|
    && Distinct(xs) && Distinct(ys)
    && (forall j, i | 0 <= j < n && 0 <= i < m :: xs[j] != ys[i])
    && Support(F, c, n) <= m
    && (forall i | 0 <= i < m :: Dot(F, CauchyRow(F, xs, ys[i]), c, n) == F.zero)
  }

  /** With distinct nodes, at least as many equations as nonzero unknowns force every unknown to zero. */
  lemma {:induction false} OnlyZeroSolution<T(!new)>(F: Field<T>, c: Row<T>, xs: Row<T>, ys: Row<T>, m: nat, n: nat)
    requires Laws(F) && System(F, c, xs, ys, m, n)
    ensures forall j | 0 <= j < n :: c[j] == F.zero
    decreases n
  {
    if n == 0 {
    } else if c[n - 1] == F.zero {
      ZeroTermDrops(F, c, xs, ys, m, n);
      OnlyZeroSolution(F, c, xs, ys, m, n - 1);
    } else {
      SystemShrinks(F, c, xs, ys, m, n);
      EliminatedZero(F, c, xs, xs[n - 1], ys[m - 1], n - 1);
      OnlyZeroSolution(F, Eliminated(F, c, xs, xs[n - 1], ys[m - 1], n - 1), xs, ys, m - 1, n - 1);
      LastMustVanish(F, c, xs, ys[m - 1], n);
    }
  }

  // Eliminating the last unknown and the last equation leaves a system again.
  lemma SystemShrinks<T(!new)>(F: Field<T>, c: Row<T>, xs: Row<T>, ys: Row<T>, m: nat, n: nat)
    requires Laws(F) && System(F, c, xs, ys, m, n) && n > 0 && c[n - 1] != F.zero
    ensures m > 0 && System(F, Eliminated(F, c, xs, xs[n - 1], ys[m - 1], n - 1), xs, ys, m - 1, n - 1)
  {
    SmallerSystem(F, c, xs, ys, m, n);
    EliminatedZero(F, c, xs, xs[n - 1], ys[m - 1], n - 1);
    SupportShrinks(F, Eliminated(F, c, xs, xs[n - 1], ys[m - 1], n - 1), c, n - 1);
  }

  lemma ZeroTermDrops<T(!new)>(F: Field<T>, c: Row<T>, xs: Row<T>, ys: Row<T>, m: nat, n: nat)
    requires Laws(F) && System(F, c, xs, ys, m, n) && n > 0 && c[n - 1] == F.zero
    ensures System(F, c, xs, ys, m, n - 1)
  {
    forall i | 0 <= i < m ensures Dot(F, CauchyRow(F, xs, ys[i]), c, n - 1) == F.zero {
      Units(F, CauchyRow(F, xs, ys[i])[n - 1]);
      AddUnit(F, Dot(F, CauchyRow(F, xs, ys[i]), c, n - 1));
    }
  }

  lemma LastMustVanish<T(!new)>(F: Field<T>, c: Row<T>, xs: Row<T>, y: T, n: nat)
    requires Laws(F) && 0 < n <= |c| && n <= |xs| && xs[n - 1] != y
    requires Dot(F, CauchyRow(F, xs, y), c, n) == F.zero
    requires forall j | 0 <= j < n - 1 :: c[j] == F.zero
    ensures c[n - 1] == F.zero
  {
    LastTerm(F, c, xs, y, n);
    DotZero(F, CauchyRow(F, xs, y), c, n - 1);
    Units(F, F.add(xs[n - 1], y));
  }

  lemma SmallerSystem<T(!new)>(F: Field<T>, c: Row<T>, xs: Row<T>, ys: Row<T>, m: nat, n: nat)
    requires Laws(F) && 0 < n <= |c| && n <= |xs| && 0 < m <= |ys|
    requires Distinct(ys)
    requires forall j, i | 0 <= j < n && 0 <= i < m :: xs[j] != ys[i]
    requires forall i | 0 <= i < m :: Dot(F, CauchyRow(F, xs, ys[i]), c, n) == F.zero
    ensures forall i | 0 <= i < m - 1 ::
      Dot(F, CauchyRow(F, xs, ys[i]), Eliminated(F, c, xs, xs[n - 1], ys[m - 1], n - 1), n - 1) == F.zero
  {
    var x, y', d := xs[n - 1], ys[m - 1], Eliminated(F, c, xs, xs[n - 1], ys[m - 1], n - 1);
    LastTerm(F, c, xs, y', n);
    forall i | 0 <= i < m - 1 ensures Dot(F, CauchyRow(F, xs, ys[i]), d, n - 1) == F.zero {
      LastTerm(F, c, xs, ys[i], n);
      EliminateSum(F, c, xs, x, ys[i], y', n - 1);
      AddUnit(F, c[n - 1]);
      NoZeroDivisors(F, F.add(ys[i], y'), Dot(F, CauchyRow(F, xs, ys[i]), d, n - 1));
      AddCancels(F, ys[i], y');
    }
  }

  // An eliminated coefficient is zero exactly when the original was.
  lemma EliminatedZero<T(!new)>(F: Field<T>, c: Row<T>, xs: Row<T>, x: T, y: T, n: nat)
    requires Laws(F) && n <= |c| && n <= |xs|
    requires forall j | 0 <= j < n :: xs[j] != y && xs[j] != x
    ensures forall j | 0 <= j < n :: Eliminated(F, c, xs, x, y, n)[j] == F.zero <==> c[j] == F.zero
  {
    forall j | 0 <= j < n
      ensures Eliminated(F, c, xs, x, y, n)[j] == F.zero <==> c[j] == F.zero
    {
      var g, q := F.add(x, xs[j]), F.inv(F.add(xs[j], y));
      AddCancels(F, x, xs[j]);
      AddCancels(F, xs[j], y);
      Inverts(F, F.add(xs[j], y));
      Units(F, F.mul(g, q));
      if F.mul(g, q) == F.zero {
        NoZeroDivisors(F, g, q);
      }
      if F.mul(c[j], F.mul(g, q)) == F.zero {
        NoZeroDivisors(F, c[j], F.mul(g, q));
      }
    }
  }
}
