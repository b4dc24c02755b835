/** Euclid's algorithm on three rotating slots: `AbstractEuclideanDomain::Gcd` and
    `QuotientRing::MultiplicativeInverse` of algebra.cpp, over the integers.
    `Integer::Divide` leaves a non-negative remainder, as Dafny's division does. */
module Euclid {
  import opened NatBits

  function Abs(x: int): nat { if x < 0 then -x else x }

  // ----- divisibility

  ghost predicate Quotient(n: int, d: int, k: int) { n == d * k }

  ghost predicate Divides(d: int, n: int) { exists k :: Quotient(n, d, k) }

  lemma DividesIntro(d: int, k: int)
    ensures Divides(d, d * k)
  {
    assert Quotient(d * k, d, k);
  }

  /** Divisors of two numbers divide x - c*y. */
  lemma DividesCombination(d: int, x: int, y: int, c: int)
    requires Divides(d, x) && Divides(d, y)
    ensures Divides(d, x - c * y)
  {
    var k :| Quotient(x, d, k);
    var l :| Quotient(y, d, l);
    assert d * (k - c * l) == d * k - c * (d * l);
    DividesIntro(d, k - c * l);
  }

  lemma DividesZero(d: int)
    ensures Divides(d, 0)
  {
    DividesIntro(d, 0);
  }

  lemma DividesSelf(d: int)
    ensures Divides(d, d)
  {
    DividesIntro(d, 1);
  }

  lemma DividesTrans(d: int, e: int, n: int)
    requires Divides(d, e) && Divides(e, n)
    ensures Divides(d, n)
  {
    var k :| Quotient(e, d, k);
    var l :| Quotient(n, e, l);
    assert d * (k * l) == (d * k) * l;
    DividesIntro(d, k * l);
  }

  /** A divisor of a non-zero number is not larger. */
  lemma DividesBound(d: int, n: int)
    requires Divides(d, n) && n != 0
    ensures d != 0 && Abs(d) <= Abs(n)
  {
    var k :| Quotient(n, d, k);
    assert k != 0;
    AbsProduct(d, k);
    if Abs(k) >= 1 { assert Abs(d) * Abs(k) >= Abs(d) by { MulAtLeast(Abs(d), Abs(k)); } }
  }

  lemma AbsProduct(x: int, y: int)
    ensures Abs(x * y) == Abs(x) * Abs(y)
  {
    if x >= 0 && y >= 0 {
    } else if x >= 0 {
      assert x * y == -(x * -y);
    } else if y >= 0 {
      assert x * y == -(-x * y);
    } else {
      assert x * y == -x * -y;
    }
  }

  lemma MulAtLeast(x: nat, y: nat)
    requires y >= 1
    ensures x * y >= x
  {
    assert x * y == x * (y - 1) + x;
  }

  /** Divisibility by a positive number is a zero remainder. */
  lemma DividesMod(m: int, n: int)
    requires m > 0
    ensures Divides(m, n) <==> n % m == 0
  {
    if n % m == 0 {
      DividesIntro(m, n / m);
    }
    if Divides(m, n) {
      var k :| Quotient(n, m, k);
      EuclidUnique(n, m, k, 0);
    }
  }

  // ----- common divisors

  ghost predicate CommonDivisor(d: int, x: int, y: int) { Divides(d, x) && Divides(d, y) }

  /** g is a greatest common divisor: its divisors are exactly the common ones. */
  ghost predicate IsGcd(g: int, x: int, y: int) {
    forall d :: Divides(d, g) <==> CommonDivisor(d, x, y)
  }

  /** Only units divide both. */
  ghost predicate Coprime(x: int, y: int) {
    forall d :: CommonDivisor(d, x, y) ==> Abs(d) == 1
  }

  /** The two pairs have the same common divisors. */
  ghost predicate SameDivisors(x: int, y: int, x': int, y': int) {
    forall d :: CommonDivisor(d, x, y) <==> CommonDivisor(d, x', y')
  }

  lemma EuclidStep(x: int, y: int, q: int)
    ensures SameDivisors(x, y, y, x - q * y)
  {
    forall d ensures CommonDivisor(d, x, y) <==> CommonDivisor(d, y, x - q * y) {
      if CommonDivisor(d, x, y) { DividesCombination(d, x, y, q); }
      if CommonDivisor(d, y, x - q * y) {
        DividesCombination(d, x - q * y, y, -q);
        assert x - q * y - -q * y == x;
      }
    }
  }

  lemma SameDivisorsSwap(x: int, y: int)
    ensures SameDivisors(x, y, y, x)
  {
  }

  /** Replacing (x, y) by (y, x mod y) keeps the common divisors of a and b. */
  lemma EuclidNext(a: int, b: int, x: int, y: int)
    requires SameDivisors(a, b, x, y) && y != 0
    ensures SameDivisors(a, b, y, x % y)
    ensures 0 <= x % y < Abs(y) && x % y == x - (x / y) * y
  {
    var q := x / y;
    assert x % y == x - q * y;
    EuclidStep(x, y, q);
    forall d ensures CommonDivisor(d, a, b) <==> CommonDivisor(d, y, x % y) {
      assert CommonDivisor(d, a, b) <==> CommonDivisor(d, x, y);
    }
  }

  lemma EuclidDone(g: int, x: int, y: int)
    requires SameDivisors(x, y, g, 0)
    ensures IsGcd(g, x, y)
    ensures Coprime(x, y) <==> Abs(g) == 1
  {
    forall d ensures Divides(d, g) <==> CommonDivisor(d, x, y) {
      DividesZero(d);
      assert CommonDivisor(d, x, y) <==> CommonDivisor(d, g, 0);
    }
    DividesSelf(g);
    assert CommonDivisor(g, x, y);
    if Abs(g) == 1 {
      forall d | CommonDivisor(d, x, y) ensures Abs(d) == 1 {
        DividesBound(d, g);
      }
    }
  }

  /** Two greatest common divisors agree up to sign. */
  lemma GcdUnique(g: int, h: int, x: int, y: int)
    requires IsGcd(g, x, y) && IsGcd(h, x, y)
    ensures Abs(g) == Abs(h)
  {
    DividesSelf(g);
    DividesSelf(h);
    assert Divides(g, h) && Divides(h, g);
    if h != 0 { DividesBound(g, h); }
    if g != 0 { DividesBound(h, g); }
  }

  /** `AbstractEuclideanDomain::Gcd` */
  method Gcd(a: int, b: int) returns (result: int)
    ensures IsGcd(result, a, b)
  {
    var g := new int[3](i => if i == 0 then b else if i == 1 then a else 0);
    var i0, i1, i2 := 0, 1, 2;
    SameDivisorsSwap(a, b);
    hide SameDivisors;
    while g[i1] != 0
      invariant {i0, i1, i2} == {0, 1, 2}
      invariant SameDivisors(a, b, g[i0], g[i1])
      decreases Abs(g[i1])
    {
      EuclidNext(a, b, g[i0], g[i1]);
      g[i2] := g[i0] % g[i1];
      i0, i1, i2 := i1, i2, i0;
    }
    EuclidDone(g[i0], a, b);
    result := g[i0];
  }

  /** `QuotientRing::IsUnit` */
  method IsUnit(a: int, modulus: int) returns (unit: bool)
    ensures unit <==> Coprime(a, modulus)
  {
    var d := Gcd(a, modulus);
    if Abs(d) == 1 {
      forall e | CommonDivisor(e, a, modulus) ensures Abs(e) == 1 { DividesBound(e, d); }
    } else {
      DividesSelf(d);
      assert CommonDivisor(d, a, modulus);
    }
    unit := Abs(d) == 1;
  }

  // ----- the inverse

  /** The rotating-slot loop as a recursion. The loop stops when its second number
      is zero in the quotient ring, not only when it is zero. */
  function InverseLoop(m: int, g0: int, g1: int, v0: int, v1: int): int
    requires m != 0
    decreases Abs(g1)
  {
    if g1 % m == 0 then (if Abs(g0) == 1 then v0 / g0 else 0)
    else InverseLoop(m, g1, g0 % g1, v1, v0 - v1 * (g0 / g1))
  }

  lemma LoopUnfolds(m: int, g0: int, g1: int, v0: int, v1: int)
    requires m >= 2
    ensures g1 % m == 0 ==> InverseLoop(m, g0, g1, v0, v1) == if Abs(g0) == 1 then v0 / g0 else 0
    ensures g1 % m != 0 ==> g1 != 0 && Abs(g0 % g1) < Abs(g1)
    ensures g1 % m != 0 ==> InverseLoop(m, g0, g1, v0, v1) == InverseLoop(m, g1, g0 % g1, v1, v0 - v1 * (g0 / g1))
  {
  }

  function Inverse(m: int, a: int): int
    requires m != 0
  {
    InverseLoop(m, m, a, 0, 1)
  }

  /** `QuotientRing::MultiplicativeInverse` computes it on three slots of g and v. */
  method MultiplicativeInverse(m: int, a: int) returns (r: int)
    requires m >= 2
    ensures r == Inverse(m, a)
    ensures IsInverse(m, a, r) <==> Abs(a) < m || !Coprime(a, m)
  {
    InverseExact(m, a);
    hide InverseLoop, IsInverse, Coprime;
    var g := new int[3](i => if i == 0 then m else if i == 1 then a else 0);
    var v := new int[3](i => if i == 1 then 1 else 0);
    var i0, i1, i2 := 0, 1, 2;
    while g[i1] % m != 0
      invariant {i0, i1, i2} == {0, 1, 2}
      invariant Inverse(m, a) == InverseLoop(m, g[i0], g[i1], v[i0], v[i1])
      decreases Abs(g[i1])
    {
      LoopUnfolds(m, g[i0], g[i1], v[i0], v[i1]);
      var y := g[i0] / g[i1];
      g[i2] := g[i0] % g[i1];
      v[i2] := v[i0] - v[i1] * y;
      i0, i1, i2 := i1, i2, i0;
    }
    LoopUnfolds(m, g[i0], g[i1], v[i0], v[i1]);
    r := if Abs(g[i0]) == 1 then v[i0] / g[i0] else 0;
  }

  /** What an inverse routine owes its caller: v*a == 1 in the ring when a is a unit,
      and zero otherwise. */
  ghost predicate IsInverse(m: int, a: int, v: int)
    requires m > 0
  {
    if Coprime(a, m) then v * a % m == 1 else v == 0
  }

  /** Both coefficients stay consistent with their remainders. */
  lemma {:induction false} InverseLoopCorrect(m: int, a: int, g0: int, g1: int, v0: int, v1: int)
    requires m >= 2 && Abs(g1) < m
    requires SameDivisors(a, m, g0, g1)
    requires Divides(m, v0 * a - g0) && Divides(m, v1 * a - g1)
    ensures IsInverse(m, a, InverseLoop(m, g0, g1, v0, v1))
    decreases Abs(g1)
  {
    hide SameDivisors, IsInverse, Divides, InverseLoop;
    LoopUnfolds(m, g0, g1, v0, v1);
    if g1 % m == 0 {
      SmallMultiple(m, g1);
      LoopEnds(m, a, g0, v0);
    } else {
      EuclidNext(a, m, g0, g1);
      LoopKeeps(m, a, g0, g1, v0, v1);
      InverseLoopCorrect(m, a, g1, g0 % g1, v1, v0 - v1 * (g0 / g1));
    }
  }

  lemma SmallMultiple(m: int, g: int)
    requires m > 0 && Abs(g) < m && g % m == 0
    ensures g == 0
  {
    DividesMod(m, g);
    if g != 0 { DividesBound(m, g); }
  }

  lemma LoopEnds(m: int, a: int, g0: int, v0: int)
    requires m >= 2 && SameDivisors(a, m, g0, 0) && Divides(m, v0 * a - g0)
    ensures IsInverse(m, a, if Abs(g0) == 1 then v0 / g0 else 0)
  {
    EuclidDone(g0, a, m);
    if Abs(g0) == 1 { UnitCase(m, a, g0, v0); }
  }

  lemma LoopKeeps(m: int, a: int, g0: int, g1: int, v0: int, v1: int)
    requires g1 != 0 && Divides(m, v0 * a - g0) && Divides(m, v1 * a - g1)
    ensures Divides(m, (v0 - v1 * (g0 / g1)) * a - g0 % g1)
  {
    var q := g0 / g1;
    assert g0 % g1 == g0 - q * g1;
    DividesCombination(m, v0 * a - g0, v1 * a - g1, q);
    Regroup(v0, v1, q, a, g0, g1);
  }

  lemma Regroup(v0: int, v1: int, q: int, a: int, g0: int, g1: int)
    ensures v0 * a - g0 - q * (v1 * a - g1) == (v0 - v1 * q) * a - (g0 - q * g1)
  {
    assert q * (v1 * a - g1) == q * (v1 * a) - q * g1;
    assert (v0 - v1 * q) * a == v0 * a - (v1 * q) * a;
    assert (v1 * q) * a == q * (v1 * a);
  }

  lemma UnitCase(m: int, a: int, g: int, v: int)
    requires m >= 2 && Abs(g) == 1 && Divides(m, v * a - g)
    ensures v / g * a % m == 1
  {
    var w := v / g;
    assert w == if g == 1 then v else -v;
    var k :| Quotient(v * a - g, m, k);
    if g == 1 {
      assert w * a - 1 == m * k;
    } else {
      assert w * a == -(v * a);
      assert w * a - 1 == -(m * k) == m * -k;
      assert Quotient(w * a - 1, m, -k);
    }
    assert Divides(m, w * a - 1);
    DividesMod(m, w * a - 1);
    RemainderOne(w * a, m);
  }

  lemma RemainderOne(x: int, m: int)
    requires m >= 2 && (x - 1) % m == 0
    ensures x % m == 1
  {
    var q, r := x / m, x % m;
    assert x - 1 == q * m + (r - 1);
    if r == 0 {
      assert x - 1 == (q - 1) * m + (m - 1);
      EuclidUnique(x - 1, m, q - 1, m - 1);
    } else {
      EuclidUnique(x - 1, m, q, r - 1);
    }
  }

  /** Exactly when the routine is right: for every a smaller in size than the
      modulus, and for a larger one only if it is not a unit (then the answer is
      zero, which is what the early exit returns). */
  lemma InverseExact(m: int, a: int)
    requires m >= 2
    ensures IsInverse(m, a, Inverse(m, a)) <==> Abs(a) < m || !Coprime(a, m)
  {
    hide InverseLoop, Coprime, Divides, IsInverse;
    if Abs(a) < m {
      SameDivisorsSwap(a, m);
      DividesZero(m);
      DividesIntro(m, -1);
      assert 0 * a - m == m * -1 && 1 * a - a == 0;
      InverseLoopCorrect(m, a, m, a, 0, 1);
    } else {
      LargeArgument(m, a);
      ZeroIsInverse(m, a);
    }
  }

  lemma ZeroIsInverse(m: int, a: int)
    requires m >= 2
    ensures IsInverse(m, a, 0) <==> !Coprime(a, m)
  {
    hide Coprime;
    assert 0 * a % m == 0;
  }

  lemma DivideByLarger(m: int, a: int)
    requires 0 < m < Abs(a)
    ensures m % a == m && m / a == 0
  {
    var q, r := m / a, m % a;
    assert m == q * a + r && 0 <= r < Abs(a);
    if q != 0 {
      AbsProduct(q, a);
      MulAtLeast(Abs(a), Abs(q));
    }
  }

  /** For |a| >= m the routine always answers zero. */
  lemma LargeArgument(m: int, a: int)
    requires m >= 2 && Abs(a) >= m
    ensures Inverse(m, a) == 0
  {
    hide InverseLoop;
    if a % m != 0 {
      DividesMod(m, a);
      DividesSelf(m);
      DividesIntro(m, -1);
      DivideByLarger(m, a);
      DividesMod(m, m);
      LoopUnfolds(m, m, a, 0, 1);
      LoopUnfolds(m, a, m, 1, 0 - 1 * 0);
    } else {
      LoopUnfolds(m, m, a, 0, 1);
    }
  }

  /** The smallest failing call: 4 is a unit modulo 3 but has no inverse here. */
  lemma InverseFailsUnreduced()
    ensures Coprime(4, 3) && Inverse(3, 4) == 0 && !IsInverse(3, 4, Inverse(3, 4))
  {
    forall d | CommonDivisor(d, 4, 3) ensures Abs(d) == 1 {
      DividesCombination(d, 4, 3, 1);
      DividesBound(d, 1);
    }
    LargeArgument(3, 4);
  }
}
