/** Powers, primes, and the theorems of Fermat and Euler, built on Euclid's
    algorithm. */
module NumberTheory {
  import opened NatBits
  import opened Euclid

  // ----- congruence

  /** a and b are congruent modulo m. */
  ghost predicate Congruent(m: int, a: int, b: int) { Divides(m, a - b) }

  lemma CongruentMod(m: int, a: int, b: int)
    requires m > 0
    ensures Congruent(m, a, b) <==> a % m == b % m
  {
    DividesMod(m, a - b);
    var q, r, s, t := a / m, a % m, b / m, b % m;
    assert a - b == (q - s) * m + (r - t);
    if r >= t {
      EuclidUnique(a - b, m, q - s, r - t);
    } else {
      assert (q - s) * m == (q - s - 1) * m + m;
      EuclidUnique(a - b, m, q - s - 1, r - t + m);
    }
  }

  lemma CongruentIntro(m: int, a: int, b: int)
    requires Divides(m, a - b)
    ensures Congruent(m, a, b)
  {
  }

  lemma CongruentRefl(m: int, a: int)
    ensures Congruent(m, a, a)
  {
    DividesZero(m);
  }

  lemma CongruentSym(m: int, a: int, b: int)
    requires Congruent(m, a, b)
    ensures Congruent(m, b, a)
  {
    DividesZero(m);
    DividesCombination(m, 0, a - b, 1);
    assert 0 - 1 * (a - b) == b - a;
  }

  lemma CongruentTrans(m: int, a: int, b: int, c: int)
    requires Congruent(m, a, b) && Congruent(m, b, c)
    ensures Congruent(m, a, c)
  {
    DividesCombination(m, a - b, b - c, -1);
    assert a - b - -1 * (b - c) == a - c;
  }

  lemma CongruentMul(m: int, a: int, b: int, c: int, d: int)
    requires Congruent(m, a, b) && Congruent(m, c, d)
    ensures Congruent(m, a * c, b * d)
  {
    DividesMultiple(m, a - b, c);
    DividesMultiple(m, c - d, b);
    DividesCombination(m, (a - b) * c, (c - d) * b, -1);
    CrossTerms(a, b, c, d);
  }

  lemma CrossTerms(a: int, b: int, c: int, d: int)
    ensures (a - b) * c - -1 * ((c - d) * b) == a * c - b * d
  {
    assert (a - b) * c == a * c - b * c;
    assert (c - d) * b == c * b - d * b;
  }

  lemma DividesMultiple(m: int, a: int, c: int)
    requires Divides(m, a)
    ensures Divides(m, a * c) && Divides(m, c * a)
  {
    DividesIntro(a, c);
    DividesTrans(m, a, a * c);
    assert a * c == c * a;
  }

  // ----- powers

  function Pow(b: int, e: nat): int { if e == 0 then 1 else b * Pow(b, e - 1) }

  lemma {:induction false} PowAdd(b: int, m: nat, n: nat)
    ensures Pow(b, m + n) == Pow(b, m) * Pow(b, n)
    decreases m
  {
    if m > 0 {
      PowAdd(b, m - 1, n);
      assert b * (Pow(b, m - 1) * Pow(b, n)) == (b * Pow(b, m - 1)) * Pow(b, n);
    }
  }

  lemma {:induction false} PowPow(b: int, m: nat, n: nat)
    ensures Pow(b, m * n) == Pow(Pow(b, m), n)
    decreases n
  {
    if n > 0 {
      PowPow(b, m, n - 1);
      assert m * n == m + m * (n - 1);
      PowAdd(b, m, m * (n - 1));
    } else {
      assert m * 0 == 0;
    }
  }

  lemma {:induction false} PowCongruent(m: int, a: int, b: int, e: nat)
    requires Congruent(m, a, b)
    ensures Congruent(m, Pow(a, e), Pow(b, e))
    decreases e
  {
    if e == 0 {
      CongruentRefl(m, 1);
    } else {
      PowCongruent(m, a, b, e - 1);
      CongruentMul(m, a, b, Pow(a, e - 1), Pow(b, e - 1));
    }
  }

  lemma {:induction false} PowOne(e: nat)
    ensures Pow(1, e) == 1
    decreases e
  {
    if e > 0 { PowOne(e - 1); }
  }

  lemma PowDivides(p: int, x: int, e: nat)
    requires Divides(p, x) && e > 0
    ensures Divides(p, Pow(x, e))
  {
    DividesMultiple(p, x, Pow(x, e - 1));
  }

  // ----- primes

  ghost predicate Prime(p: int) {
    p >= 2 && forall d :: Divides(d, p) ==> Abs(d) == 1 || Abs(d) == p
  }

  lemma PrimeAtLeastTwo(p: int)
    requires Prime(p)
    ensures p >= 2
  {
  }

  lemma PrimeCoprime(p: int, a: int)
    requires Prime(p) && !Divides(p, a)
    ensures Coprime(a, p)
  {
    forall d | CommonDivisor(d, a, p) ensures Abs(d) == 1 {
      if Abs(d) == p {
        DividesIntro(p, if d == p then 1 else -1);
        DividesTrans(p, d, a);
      }
    }
  }

  /** Euclid's lemma, from the inverse that Euclid's algorithm computes. */
  lemma EuclidLemma(p: int, a: int, b: int)
    requires Prime(p) && Divides(p, a * b) && !Divides(p, a)
    ensures Divides(p, b)
  {
    var r := a % p;
    CongruentMod(p, a, r);
    RemainderSmall(a, p);
    CongruentSym(p, a, r);
    if Divides(p, r) { DividesCombination(p, r, r - a, 1); }
    PrimeCoprime(p, r);
    InverseExact(p, r);
    var v := Inverse(p, r);
    // v*r == 1, so v*(a*b) == b modulo p
    CongruentMod(p, v * r, 1);
    assert 1 % p == 1 by { EuclidUnique(1, p, 0, 1); }
    CongruentRefl(p, v);
    CongruentMul(p, v, v, a, r);
    CongruentTrans(p, v * a, v * r, 1);
    DividesMultiple(p, v * a - 1, b);
    DividesMultiple(p, a * b, v);
    DividesCombination(p, v * (a * b), (v * a - 1) * b, 1);
    assert v * (a * b) - 1 * ((v * a - 1) * b) == b by { Leftover(v, a, b); }
  }

  lemma Leftover(v: int, a: int, b: int)
    ensures v * (a * b) - 1 * ((v * a - 1) * b) == b
  {
    assert (v * a - 1) * b == v * a * b - b;
    assert v * (a * b) == v * a * b;
  }

  lemma RemainderSmall(a: int, p: int)
    requires p > 0
    ensures 0 <= a % p < p && (a % p) % p == a % p
  {
    EuclidUnique(a % p, p, 0, a % p);
  }

  // ----- binomial coefficients

  function Choose(n: nat, k: nat): nat {
    if k == 0 then 1 else if n == 0 then 0 else Choose(n - 1, k - 1) + Choose(n - 1, k)
  }

  lemma {:induction false} ChooseAbove(n: nat, k: nat)
    requires k > n
    ensures Choose(n, k) == 0
    decreases n
  {
    if n > 0 {
      ChooseAbove(n - 1, k - 1);
      ChooseAbove(n - 1, k);
    }
  }

  /** k * C(n, k) == n * C(n-1, k-1) */
  lemma {:induction false} ChooseAbsorbs(n: nat, k: nat)
    requires n >= 1 && k >= 1
    ensures k * Choose(n, k) == n * Choose(n - 1, k - 1)
    decreases n
  {
    if n == 1 {
      if k > 1 {
        ChooseAbove(1, k);
        ChooseAbove(0, k - 1);
      } else {
        assert Choose(1, 1) == Choose(0, 0) + Choose(0, 1);
      }
    } else {
      var x, y := Choose(n - 1, k - 1), Choose(n - 1, k);
      ChooseAbsorbs(n - 1, k);
      if k == 1 {
        assert Choose(n - 1, 0) == 1 && Choose(n - 2, 0) == 1;
      } else {
        ChooseAbsorbs(n - 1, k - 1);
        AbsorbStep(n, k, x, y, Choose(n - 2, k - 2), Choose(n - 2, k - 1));
      }
    }
  }

  lemma AbsorbStep(n: int, k: int, x: int, y: int, u: int, v: int)
    requires k * y == (n - 1) * v && (k - 1) * x == (n - 1) * u && x == u + v
    ensures k * (x + y) == n * x
  {
    assert k * (x + y) == (k - 1) * x + x + k * y;
    assert (n - 1) * u + (n - 1) * v == (n - 1) * (u + v);
    assert (n - 1) * x + x == n * x;
  }

  /** The partial binomial sum: C(n, i) * a^i for i up to m. */
  ghost function BinomialSum(a: int, n: nat, m: nat): int {
    Choose(n, m) * Pow(a, m) + if m == 0 then 0 else BinomialSum(a, n, m - 1)
  }

  lemma {:induction false} PascalSum(a: int, n: nat, m: nat)
    requires m >= 1
    ensures BinomialSum(a, n + 1, m) == BinomialSum(a, n, m) + a * BinomialSum(a, n, m - 1)
    decreases m
  {
    PascalTerm(a, Choose(n, m - 1), Choose(n, m), Pow(a, m - 1));
    if m == 1 {
      assert BinomialSum(a, n + 1, 0) == 1 && BinomialSum(a, n, 0) == 1;
    } else {
      PascalSum(a, n, m - 1);
      assert a * (Choose(n, m - 1) * Pow(a, m - 1) + BinomialSum(a, n, m - 2))
          == a * (Choose(n, m - 1) * Pow(a, m - 1)) + a * BinomialSum(a, n, m - 2);
    }
  }

  lemma PascalTerm(a: int, c: int, d: int, p: int)
    ensures (c + d) * (a * p) == d * (a * p) + a * (c * p)
  {
    assert (c + d) * (a * p) == c * (a * p) + d * (a * p);
    assert c * (a * p) == a * (c * p);
  }

  /** The binomial theorem for (a + 1)^n. */
  lemma {:induction false} Binomial(a: int, n: nat)
    ensures Pow(a + 1, n) == BinomialSum(a, n, n)
    decreases n
  {
    if n > 0 {
      Binomial(a, n - 1);
      PascalSum(a, n - 1, n);
      ChooseAbove(n - 1, n);
      var s := BinomialSum(a, n - 1, n - 1);
      assert BinomialSum(a, n - 1, n) == 0 * Pow(a, n) + s;
      assert (a + 1) * s == a * s + s;
    }
  }

  /** A prime divides the inner binomial coefficients. */
  lemma PrimeDividesChoose(p: int, k: nat)
    requires Prime(p) && 0 < k < p
    ensures Divides(p, Choose(p, k))
  {
    ChooseAbsorbs(p, k);
    DividesIntro(p, Choose(p - 1, k - 1));
    assert !Divides(p, k) by { if Divides(p, k) { DividesBound(p, k); } }
    EuclidLemma(p, k, Choose(p, k));
  }

  lemma {:induction false} InnerSum(p: int, a: int, m: nat)
    requires Prime(p) && m < p
    ensures Congruent(p, BinomialSum(a, p, m), 1)
    decreases m
  {
    if m == 0 {
      assert BinomialSum(a, p, 0) == 1;
      CongruentRefl(p, 1);
    } else {
      InnerSum(p, a, m - 1);
      PrimeDividesChoose(p, m);
      DividesMultiple(p, Choose(p, m), Pow(a, m));
      DividesCombination(p, Choose(p, m) * Pow(a, m), BinomialSum(a, p, m - 1) - 1, -1);
    }
  }

  /** (a + 1)^p == a^p + 1 modulo p. */
  lemma FreshmansDream(p: int, a: int)
    requires Prime(p)
    ensures Congruent(p, Pow(a + 1, p), Pow(a, p) + 1)
  {
    Binomial(a, p);
    InnerSum(p, a, p - 1);
    ChooseSelf(p);
  }

  lemma {:induction false} ChooseSelf(n: nat)
    ensures Choose(n, n) == 1
  {
    if n > 0 {
      ChooseSelf(n - 1);
      ChooseAbove(n - 1, n);
    }
  }

  // ----- Fermat and Euler

  /** a^p == a modulo p. */
  lemma {:induction false} FermatNat(p: int, a: nat)
    requires Prime(p)
    ensures Congruent(p, Pow(a, p), a)
    decreases a
  {
    if a == 0 {
      assert Pow(0, p) == 0;
      CongruentRefl(p, 0);
    } else {
      FermatNat(p, a - 1);
      FreshmansDream(p, a - 1);
      assert Pow(a - 1, p) + 1 - a == Pow(a - 1, p) - (a - 1);
      CongruentTrans(p, Pow(a, p), Pow(a - 1, p) + 1, a);
    }
  }

  /** Fermat's little theorem. */
  lemma Fermat(p: int, a: nat)
    requires Prime(p) && !Divides(p, a)
    ensures Congruent(p, Pow(a, p - 1), 1)
  {
    FermatNat(p, a);
    assert Pow(a, p) - a == a * (Pow(a, p - 1) - 1);
    EuclidLemma(p, a, Pow(a, p - 1) - 1);
  }

  /** Divisibility by two distinct primes is divisibility by their product. */
  lemma TwoPrimes(p: int, q: int, z: int)
    requires Prime(p) && Prime(q) && p != q && Divides(p, z) && Divides(q, z)
    ensures Divides(p * q, z)
  {
    var k :| Quotient(z, p, k);
    assert !Divides(q, p);
    EuclidLemma(q, p, k);
    var l :| Quotient(k, q, l);
    assert p * (q * l) == p * q * l;
    DividesIntro(p * q, l);
  }

  /** Reducing an exponent modulo (p-1)(q-1) does not change the power modulo p, as
      long as it does not turn a positive exponent into zero or p does not divide x. */
  lemma ReduceModPrime(p: int, k: nat, phi: nat, x: nat, e: nat)
    requires Prime(p) && k >= 1 && phi == (p - 1) * k >= 1
    requires !Divides(p, x) || e % phi != 0
    ensures Congruent(p, Pow(x, e), Pow(x, e % phi))
  {
    hide Prime, Congruent, Pow;
    PrimeAtLeastTwo(p);
    var t, r := e / phi, e % phi;
    if Divides(p, x) {
      PowDivides(p, x, e);
      PowDivides(p, x, r);
      DividesCombination(p, Pow(x, e), Pow(x, r), 1);
      CongruentIntro(p, Pow(x, e), Pow(x, r));
    } else {
      assert e == phi * t + r;
      PowerCycles(p, k, x, t);
      PowAdd(x, phi * t, r);
      CongruentRefl(p, Pow(x, r));
      CongruentMul(p, Pow(x, phi * t), 1, Pow(x, r), Pow(x, r));
    }
  }

  /** Powers return to one after every multiple of p-1 steps. */
  lemma PowerCycles(p: int, k: nat, x: nat, t: nat)
    requires Prime(p) && !Divides(p, x)
    ensures Congruent(p, Pow(x, (p - 1) * k * t), 1)
  {
    hide Prime, Congruent, Pow;
    PrimeAtLeastTwo(p);
    Fermat(p, x);
    PowPow(x, p - 1, k);
    PowCongruent(p, Pow(x, p - 1), 1, k);
    PowOne(k);
    PowPow(x, (p - 1) * k, t);
    PowCongruent(p, Pow(x, (p - 1) * k), 1, t);
    PowOne(t);
  }

  lemma PhiPositive(p: int, k: nat)
    requires p >= 2 && k >= 1
    ensures (p - 1) * k >= 1
  {
    assert (p - 1) * k == (p - 2) * k + k;
  }

  /** Euler's theorem in the form random access needs, with its exact condition: the
      exponent may be reduced modulo (p-1)(q-1) unless that makes it zero while the
      base shares a factor with the modulus. */
  lemma ReducedPower(p: int, q: int, x: nat, e: nat)
    requires Prime(p) && Prime(q) && p != q && e > 0
    ensures (p - 1) * (q - 1) >= 1
    ensures Congruent(p * q, Pow(x, e), Pow(x, e % ((p - 1) * (q - 1))))
       <==> (!Divides(p, x) && !Divides(q, x)) || e % ((p - 1) * (q - 1)) != 0
  {
    PrimeAtLeastTwo(p);
    PrimeAtLeastTwo(q);
    PhiPositive(p, q - 1);
    assert (p - 1) * (q - 1) == (q - 1) * (p - 1) && p * q == q * p;
    ReducedBy(p, q, (p - 1) * (q - 1), x, e);
  }

  lemma ReducedBy(p: int, q: int, phi: nat, x: nat, e: nat)
    requires Prime(p) && Prime(q) && p != q && p >= 2 && q >= 2 && e > 0
    requires phi == (p - 1) * (q - 1) == (q - 1) * (p - 1) >= 1 && p * q == q * p
    ensures Congruent(p * q, Pow(x, e), Pow(x, e % phi)) <==> (!Divides(p, x) && !Divides(q, x)) || e % phi != 0
  {
    hide Prime, Pow, Divides;
    var r := e % phi;
    if (!Divides(p, x) && !Divides(q, x)) || r != 0 {
      ReduceModPrime(p, q - 1, phi, x, e);
      ReduceModPrime(q, p - 1, phi, x, e);
      TwoPrimes(p, q, Pow(x, e) - Pow(x, r));
    } else if Divides(p, x) {
      ZeroExponentFails(p, q, x, e);
      PowZero(x);
    } else {
      ZeroExponentFails(q, p, x, e);
      PowZero(x);
    }
  }

  lemma PowZero(x: nat)
    ensures Pow(x, 0) == 1
  {
  }

  lemma ZeroExponentFails(p: int, q: int, x: nat, e: nat)
    requires Prime(p) && Divides(p, x) && e > 0
    ensures !Congruent(p * q, Pow(x, e), 1)
  {
    if Congruent(p * q, Pow(x, e), 1) {
      DividesIntro(p, q);
      DividesTrans(p, p * q, Pow(x, e) - 1);
      PowDivides(p, x, e);
      DividesCombination(p, Pow(x, e), Pow(x, e) - 1, 1);
      DividesBound(p, 1);
    }
  }
}
