/** Abstract groups (`AbstractGroup<T>` of algebra.h): the operations a concrete
    group supplies, the laws they obey, and the one-line meaning of scalar
    multiplication that the fast algorithms are measured against. */
module Groups {

  datatype Group<!T(!new)> = Group(
    identity: T,
    add: (T, T) -> T,
    inverse: T -> T,
    inversionIsFast: bool)
  {
    // Each law is a predicate of its arguments, so that a proof names the
    // instance it uses.
    ghost predicate Associates(a: T, b: T, c: T) { add(add(a, b), c) == add(a, add(b, c)) }
    ghost predicate HasIdentity(a: T) { add(a, identity) == a && add(identity, a) == a }
    ghost predicate HasInverse(a: T) { add(a, inverse(a)) == identity && add(inverse(a), a) == identity }
    ghost predicate Commutes(a: T, b: T) { add(a, b) == add(b, a) }

    ghost predicate IsGroup() {
      && (forall a, b, c :: Associates(a, b, c))
      && (forall a :: HasIdentity(a))
      && (forall a :: HasInverse(a))
    }

    ghost predicate IsAbelian() {
      && IsGroup()
      && (forall a, b :: Commutes(a, b))
    }

    /** `Double` */
    function Double(a: T): T { add(a, a) }

    /** n*x for any integer n: the specification of scalar multiplication. */
    ghost function Times(n: int, x: T): T
      decreases n < 0, if n < 0 then -n else n
    {
      if n == 0 then identity
      else if n > 0 then add(Times(n - 1, x), x)
      else inverse(Times(-n, x))
    }
  }

  lemma InverseUnique<T(!new)>(g: Group<T>, a: T, b: T)
    requires g.IsGroup() && g.add(a, b) == g.identity
    ensures b == g.inverse(a)
  {
    assert g.Associates(g.inverse(a), a, b) && g.HasInverse(a) && g.HasIdentity(b) && g.HasIdentity(g.inverse(a));
  }

  lemma InverseInverse<T(!new)>(g: Group<T>, a: T)
    requires g.IsGroup()
    ensures g.inverse(g.inverse(a)) == a
  {
    assert g.HasInverse(a);
    InverseUnique(g, g.inverse(a), a);
  }

  lemma InverseOfSum<T(!new)>(g: Group<T>, a: T, b: T)
    requires g.IsGroup()
    ensures g.inverse(g.add(a, b)) == g.add(g.inverse(b), g.inverse(a))
  {
    var i, j := g.inverse(a), g.inverse(b);
    assert g.Associates(a, b, g.add(j, i)) && g.Associates(b, j, i);
    assert g.HasInverse(a) && g.HasInverse(b) && g.HasIdentity(i);
    InverseUnique(g, g.add(a, b), g.add(j, i));
  }

  lemma Cancel<T(!new)>(g: Group<T>, b: T, d: T)
    requires g.IsGroup()
    ensures d == g.add(g.add(d, b), g.inverse(b))
    ensures d == g.add(g.inverse(b), g.add(b, d))
  {
    assert g.Associates(d, b, g.inverse(b)) && g.Associates(g.inverse(b), b, d);
    assert g.HasInverse(b) && g.HasIdentity(d);
  }

  lemma {:induction false} TimesAddNat<T(!new)>(g: Group<T>, m: nat, n: nat, x: T)
    requires g.IsGroup()
    ensures g.Times(m + n, x) == g.add(g.Times(m, x), g.Times(n, x))
    decreases n
  {
    if n == 0 {
      assert g.HasIdentity(g.Times(m, x));
    } else {
      TimesAddNat(g, m, n - 1, x);
      assert g.Associates(g.Times(m, x), g.Times(n - 1, x), x);
    }
  }

  lemma TimesNeg<T(!new)>(g: Group<T>, n: int, x: T)
    requires g.IsGroup()
    ensures g.Times(-n, x) == g.inverse(g.Times(n, x))
  {
    if n == 0 {
      assert g.HasIdentity(g.identity);
      InverseUnique(g, g.identity, g.identity);
    } else if n < 0 {
      InverseInverse(g, g.Times(-n, x));
    }
  }

  /** (m - n)*x for naturals, as a sum on either side. */
  lemma TimesSub<T(!new)>(g: Group<T>, m: nat, n: nat, x: T)
    requires g.IsGroup()
    ensures g.Times(m - n, x) == g.add(g.Times(m, x), g.inverse(g.Times(n, x)))
    ensures g.Times(m - n, x) == g.add(g.inverse(g.Times(n, x)), g.Times(m, x))
    decreases n > m
  {
    if m >= n {
      TimesAddNat(g, m - n, n, x);
      TimesAddNat(g, n, m - n, x);
      Cancel(g, g.Times(n, x), g.Times(m - n, x));
    } else {
      var a, b := g.Times(m, x), g.Times(n, x);
      TimesSub(g, n, m, x);
      TimesNeg(g, n - m, x);
      InverseOfSum(g, b, g.inverse(a));
      InverseOfSum(g, g.inverse(a), b);
      InverseInverse(g, a);
    }
  }

  /** Multiples of one element add like integers, in any group. */
  lemma TimesAdd<T(!new)>(g: Group<T>, m: int, n: int, x: T)
    requires g.IsGroup()
    ensures g.Times(m + n, x) == g.add(g.Times(m, x), g.Times(n, x))
  {
    if m >= 0 && n >= 0 {
      TimesAddNat(g, m, n, x);
    } else if m >= 0 {
      TimesNeg(g, -n, x);
      TimesSub(g, m, -n, x);
    } else if n >= 0 {
      TimesNeg(g, -m, x);
      TimesSub(g, n, -m, x);
    } else {
      TimesAddNat(g, -n, -m, x);
      TimesNeg(g, -m - n, x);
      TimesNeg(g, -m, x);
      TimesNeg(g, -n, x);
      InverseOfSum(g, g.Times(-n, x), g.Times(-m, x));
    }
  }

  lemma TimesOne<T(!new)>(g: Group<T>, x: T)
    requires g.IsGroup()
    ensures g.Times(1, x) == x
  {
    assert g.HasIdentity(x);
    assert g.Times(1, x) == g.add(g.Times(0, x), x);
  }

  lemma TimesDouble<T(!new)>(g: Group<T>, n: int, x: T)
    requires g.IsGroup()
    ensures g.Double(g.Times(n, x)) == g.Times(2 * n, x)
  {
    TimesAdd(g, n, n, x);
  }

  /** Multiples compose: m*(n*x) == (m*n)*x. */
  lemma {:induction false} TimesTimes<T(!new)>(g: Group<T>, m: nat, n: int, x: T)
    requires g.IsGroup()
    ensures g.Times(m, g.Times(n, x)) == g.Times(m * n, x)
    decreases m
  {
    if m > 0 {
      TimesTimes(g, m - 1, n, x);
      TimesAdd(g, (m - 1) * n, n, x);
      assert (m - 1) * n + n == m * n;
    }
  }

  /** In an abelian group a sum of four terms can be regrouped. */
  lemma Interchange<T(!new)>(g: Group<T>, a: T, b: T, c: T, d: T)
    requires g.IsAbelian()
    ensures g.add(g.add(a, b), g.add(c, d)) == g.add(g.add(a, c), g.add(b, d))
  {
    assert g.Associates(a, b, g.add(c, d)) && g.Associates(b, c, d);
    assert g.Associates(a, c, g.add(b, d)) && g.Associates(c, b, d);
    assert g.Commutes(b, c);
  }

  lemma {:induction false} TimesSum<T(!new)>(g: Group<T>, n: nat, x: T, y: T)
    requires g.IsAbelian()
    ensures g.Times(n, g.add(x, y)) == g.add(g.Times(n, x), g.Times(n, y))
    decreases n
  {
    if n == 0 {
      assert g.HasIdentity(g.identity);
    } else {
      TimesSum(g, n - 1, x, y);
      Interchange(g, g.Times(n - 1, x), g.Times(n - 1, y), x, y);
    }
  }
}
