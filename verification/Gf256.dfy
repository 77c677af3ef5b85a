/** GF(2^8) multiplication and inversion through logarithm and exponential tables
    (arm_sve.rs gf_mul_portable and gf_inv_portable, gf/mod.rs gf_mul and gf_inv).
    The element 2 generates every nonzero element, which is why the tables make a field. */
module Gf256 {
  import opened Fields
  import opened Gf256Powers

  // ---- the order of 2 is 255 ----

  lemma {:induction false} Periodic(d: nat, q: nat, r: nat)
    requires Alpha(d) == 1
    ensures Alpha(d * q + r) == Alpha(r)
  {
    if q > 0 {
      Periodic(d, q - 1, r);
      IterateAdds(Double, d * (q - 1) + r, d, 1);
      assert d * (q - 1) + r + d == d * q + r;
    }
  }

  // 255 = 3 · 5 · 17, and no proper divisor of it brings 2 back to 1.
  lemma AlphaAtDivisors()
    ensures Alpha(255) == 1
    ensures Alpha(1) != 1 && Alpha(3) != 1 && Alpha(5) != 1 && Alpha(15) != 1
    ensures Alpha(17) != 1 && Alpha(51) != 1 && Alpha(85) != 1
  {
    PowersFrom0();
    PowersFrom34();
    PowersFrom68();
    PowersFrom238();
  }

  lemma SquareBound(d: nat, q: nat)
    requires d >= 16 && q >= 16
    ensures d * q >= 256
  {
    assert d * q >= 16 * q;
  }

  lemma Divisors255(d: nat, q: nat)
    requires d * q == 255 && d < 255
    ensures d == 1 || d == 3 || d == 5 || d == 15 || d == 17 || d == 51 || d == 85
  {
    if d >= 16 && q >= 16 {
      SquareBound(d, q);
    }
  }

  lemma RemainderReturns(d: nat)
    requires 0 < d && Alpha(d) == 1
    ensures Alpha(255 % d) == 1
  {
    var q, r := 255 / d, 255 % d;
    assert 255 == d * q + r;
    Periodic(d, q, r);
    AlphaAtDivisors();
  }

  lemma DivisorFails(d: nat)
    requires 0 < d < 255 && 255 % d == 0
    ensures Alpha(d) != 1
  {
    var q := 255 / d;
    assert d * q == 255;
    Divisors255(d, q);
    AlphaAtDivisors();
  }

  lemma {:induction false} NoSmallerOrder(d: nat)
    requires 0 < d < 255
    ensures Alpha(d) != 1
    decreases d
  {
    if Alpha(d) == 1 {
      RemainderReturns(d);
      if 255 % d == 0 {
        DivisorFails(d);
      } else {
        NoSmallerOrder(255 % d);
      }
    }
  }

  lemma AlphaInjective(i: nat, j: nat)
    requires i < j < 255
    ensures Alpha(i) != Alpha(j)
  {
    if Alpha(i) == Alpha(j) {
      IterateAdds(Double, i, j - i, 1);
      DoubleLinear();
      IterateInjective(Double, i, Alpha(j - i), 1);
      NoSmallerOrder(j - i);
    }
  }

  lemma AlphaNonzero(i: nat)
    ensures Alpha(i) != 0
  {
    DoubleLinear();
    IterateFixed(Double, i, 0);
    if Alpha(i) == 0 {
      IterateInjective(Double, i, 1, 0);
    }
  }

  // ---- every nonzero element is a power of 2 ----

  ghost function Reached(n: nat): set<int> {
    if n == 0 then {} else Reached(n - 1) + {Alpha(n - 1) as int}
  }

  lemma {:induction false} ReachedBy(n: nat, x: int)
    ensures x in Reached(n) <==> exists i :: 0 <= i < n && Alpha(i) as int == x
  {
    if n > 0 {
      ReachedBy(n - 1, x);
      if i :| 0 <= i < n && Alpha(i) as int == x {
        assert i < n - 1 || Alpha(n - 1) as int == x;
      }
    }
  }

  lemma {:induction false} ReachedCount(n: nat)
    requires n <= 255
    ensures |Reached(n)| == n
  {
    if n > 0 {
      ReachedCount(n - 1);
      forall i | 0 <= i < n - 1 ensures Alpha(i) as int != Alpha(n - 1) as int {
        AlphaInjective(i, n - 1);
      }
      ReachedBy(n - 1, Alpha(n - 1) as int);
    }
  }

  ghost function UpTo(n: nat): set<int> {
    if n == 0 then {} else UpTo(n - 1) + {n}
  }

  lemma {:induction false} UpToCount(n: nat)
    ensures |UpTo(n)| == n
    ensures forall i :: i in UpTo(n) <==> 0 < i <= n
  {
    if n > 0 {
      UpToCount(n - 1);
    }
  }

  lemma FullSubset(a: set<int>, b: set<int>)
    requires a <= b && |a| == |b|
    ensures a == b
  {
    assert |b - a| == |b| - |a|;
  }

  lemma EveryNumberReached(n: nat)
    requires n == 255
    ensures forall x | 0 < x <= n :: x in Reached(n)
  {
    ReachedCount(n);
    UpToCount(n);
    forall x | x in Reached(n) ensures x in UpTo(n) {
      ReachedBy(n, x);
      var i :| 0 <= i < n && Alpha(i) as int == x;
      AlphaNonzero(i);
    }
    FullSubset(Reached(n), UpTo(n));
  }

  lemma Generated(a: bv8)
    requires a != 0
    ensures exists i :: 0 <= i < 255 && Alpha(i) == a
  {
    EveryNumberReached(255);
    var x := a as int;
    ReachedBy(255, x);
    var i :| 0 <= i < 255 && Alpha(i) as int == x;
    SameByte(Alpha(i), a);
  }

  lemma SameByte(a: bv8, b: bv8)
    requires a as int == b as int
    ensures a == b
  {
  }

  /** The discrete logarithm to base 2. */
  function Log(a: bv8): (i: nat)
    requires a != 0
    ensures i < 255 && Alpha(i) == a
  {
    Generated(a);
    assert forall i, j | 0 <= i < j < 255 :: Alpha(i) != Alpha(j) by {
      forall i, j | 0 <= i < j < 255 ensures Alpha(i) != Alpha(j) {
        AlphaInjective(i, j);
      }
    }
    var i: nat :| i < 255 && Alpha(i) == a;
    i
  }

  lemma LogAlpha(i: nat)
    requires i < 255
    ensures Alpha(i) != 0 && Log(Alpha(i)) == i
  {
    AlphaNonzero(i);
    var j := Log(Alpha(i));
    if j < i {
      AlphaInjective(j, i);
    } else if i < j {
      AlphaInjective(i, j);
    }
  }

  function GfMul(a: bv8, b: bv8): bv8 {
    if a == 0 || b == 0 then 0 else Alpha((Log(a) + Log(b)) % 255)
  }

  function GfInv(a: bv8): bv8 {
    if a == 0 then 0 else Alpha((255 - Log(a)) % 255)
  }

  // ---- the field laws ----

  lemma AlphaWraps(s: nat)
    ensures Alpha(s % 255) == Alpha(s)
  {
    AlphaAtDivisors();
    Periodic(255, s / 255, s % 255);
  }

  lemma Mod255(x: nat, y: nat, z: nat)
    ensures (x + (y + z) % 255) % 255 == ((x + y) % 255 + z) % 255
  {
  }

  // Multiplying by a is doubling as often as the logarithm of a says.
  lemma MulIsDoubling(a: bv8, b: bv8)
    requires a != 0
    ensures GfMul(a, b) == Iterate(Double, Log(a), b)
  {
    if b == 0 {
      IterateFixed(Double, Log(a), 0);
    } else {
      IterateAdds(Double, Log(a), Log(b), 1);
      AlphaWraps(Log(a) + Log(b));
    }
  }

  lemma MulNonzero(a: bv8, b: bv8)
    requires a != 0 && b != 0
    ensures GfMul(a, b) != 0 && Log(GfMul(a, b)) == (Log(a) + Log(b)) % 255
  {
    LogAlpha((Log(a) + Log(b)) % 255);
  }

  lemma MulAssociates(a: bv8, b: bv8, c: bv8)
    ensures GfMul(a, GfMul(b, c)) == GfMul(GfMul(a, b), c)
  {
    if a != 0 && b != 0 && c != 0 {
      MulNonzero(b, c);
      MulNonzero(a, b);
      Mod255(Log(a), Log(b), Log(c));
    }
  }

  lemma MulDistributes(a: bv8, b: bv8, c: bv8)
    ensures GfMul(a, GfAdd(b, c)) == GfAdd(GfMul(a, b), GfMul(a, c))
  {
    if a != 0 {
      MulIsDoubling(a, GfAdd(b, c));
      MulIsDoubling(a, b);
      MulIsDoubling(a, c);
      DoubleLinear();
      IterateLinear(GfAdd, Double, Log(a), b, c);
    }
  }

  lemma MulInverts(a: bv8)
    requires a != 0
    ensures GfMul(a, GfInv(a)) == 1
  {
    LogAlpha((255 - Log(a)) % 255);
    assert Alpha(0) == 1;
  }

  lemma MulOne(a: bv8)
    ensures GfMul(a, 1) == a
  {
    LogAlpha(0);
    assert Alpha(0) == 1;
  }

  const GF256: Field<bv8> := Field(0, 1, GfAdd, GfMul, GfInv)

  lemma AddLaws(a: bv8, b: bv8, c: bv8)
    ensures GfAdd(a, b) == GfAdd(b, a)
    ensures GfAdd(a, GfAdd(b, c)) == GfAdd(GfAdd(a, b), c)
    ensures GfAdd(a, 0) == a && GfAdd(a, a) == 0
  {
    XorMoves(a, b, c);
  }

  lemma MulLaws(a: bv8, b: bv8, c: bv8)
    ensures GfMul(a, b) == GfMul(b, a) && GfMul(a, GfMul(b, c)) == GfMul(GfMul(a, b), c)
    ensures GfMul(a, GfAdd(b, c)) == GfAdd(GfMul(a, b), GfMul(a, c))
    ensures GfMul(a, 1) == a && (a != 0 ==> GfMul(a, GfInv(a)) == 1)
  {
    MulAssociates(a, b, c);
    MulDistributes(a, b, c);
    MulOne(a);
    if a != 0 {
      MulInverts(a);
    }
  }

  lemma Gf256LawsAt(a: bv8, b: bv8, c: bv8)
    ensures LawsAt(GF256, a, b, c)
  {
    AddLaws(a, b, c);
    MulLaws(a, b, c);
  }

  /** The tables make a field. */
  lemma Gf256Laws()
    ensures Laws(GF256)
  {
    forall a: bv8, b: bv8, c: bv8 | At(a, b, c) ensures LawsAt(GF256, a, b, c) {
      Gf256LawsAt(a, b, c);
    }
  }
}
