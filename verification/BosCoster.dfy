/** Multi-exponentiation by repeated division on a heap of exponents
    (`GeneralCascadeMultiplication` of algebra.cpp, after Bos and Coster). */
module BosCoster {
  import opened Groups
  import ScalarMultiply
  import CascadeMultiply

  datatype BaseAndExponent<T> = BaseAndExponent(base: T, exponent: nat)

  // ----- sums over a list of pairs

  /** The sum of exponent * base: what the algorithm computes. */
  ghost function Sum<T(!new)>(g: Group<T>, s: seq<BaseAndExponent<T>>): T {
    if s == [] then g.identity
    else g.add(g.Times(s[0].exponent, s[0].base), Sum(g, s[1..]))
  }

  ghost function ExponentSum<T>(s: seq<BaseAndExponent<T>>): nat {
    if s == [] then 0 else s[0].exponent + ExponentSum(s[1..])
  }

  function Without<A>(s: seq<A>, k: nat): seq<A>
    requires k < |s|
  {
    s[..k] + s[k+1..]
  }

  /** Any pair can be taken out of the sums first. */
  lemma {:induction false} TakeOut<T(!new)>(g: Group<T>, s: seq<BaseAndExponent<T>>, k: nat)
    requires g.IsAbelian() && k < |s|
    ensures Sum(g, s) == g.add(g.Times(s[k].exponent, s[k].base), Sum(g, Without(s, k)))
    ensures ExponentSum(s) == s[k].exponent + ExponentSum(Without(s, k))
    decreases |s|
  {
    if k == 0 {
      assert Without(s, 0) == s[1..];
    } else {
      TakeOut(g, s[1..], k - 1);
      assert Without(s, k)[1..] == Without(s[1..], k - 1);
      var a, b := g.Times(s[0].exponent, s[0].base), g.Times(s[k].exponent, s[k].base);
      var c := Sum(g, Without(s[1..], k - 1));
      assert g.Associates(a, b, c) && g.Associates(b, a, c) && g.Commutes(a, b);
    }
  }

  /** Reordering the list changes neither sum. */
  lemma {:induction false} SumPermutes<T(!new)>(g: Group<T>, s: seq<BaseAndExponent<T>>, t: seq<BaseAndExponent<T>>)
    requires g.IsAbelian() && multiset(s) == multiset(t)
    ensures Sum(g, s) == Sum(g, t) && ExponentSum(s) == ExponentSum(t)
    decreases |s|
  {
    assert |s| == |multiset(s)| && |t| == |multiset(t)|;
    if s != [] {
      var k := FindFirst(s, t);
      SumPermutes(g, s[1..], Without(t, k));
      TakeOut(g, t, k);
    }
  }

  lemma FindFirst<A>(s: seq<A>, t: seq<A>) returns (k: nat)
    requires s != [] && multiset(s) == multiset(t)
    ensures k < |t| && t[k] == s[0] && multiset(s[1..]) == multiset(Without(t, k))
  {
    assert s[0] in multiset(t);
    k :| 0 <= k < |t| && t[k] == s[0];
    assert s == [s[0]] + s[1..];
    assert t == t[..k] + [t[k]] + t[k+1..];
    assert multiset(s[1..]) == multiset(s) - multiset{s[0]};
    assert multiset(Without(t, k)) == multiset(t) - multiset{s[0]};
  }

  /** The Bos-Coster step on two pairs: with t == q*b + r, moving q times the first
      base into the second one keeps the sum. */
  lemma DivideStep<T(!new)>(g: Group<T>, x: T, y: T, t: nat, q: nat, b: nat, r: nat)
    requires g.IsAbelian() && t == q * b + r
    ensures g.add(g.Times(r, x), g.Times(b, g.add(y, g.Times(q, x)))) == g.add(g.Times(t, x), g.Times(b, y))
  {
    hide Group.Times;
    TimesSum(g, b, y, g.Times(q, x));
    TimesTimes(g, b, q, x);
    assert b * q == q * b;
    var rx, yb, bqx := g.Times(r, x), g.Times(b, y), g.Times(q * b, x);
    TimesAdd(g, q * b, r, x);
    assert g.Associates(rx, yb, bqx) && g.Associates(rx, bqx, yb) && g.Commutes(yb, bqx) && g.Commutes(rx, bqx);
  }

  // ----- the heap functions of the C++ library, by exponent

  function Parent(k: nat): nat
    requires k > 0
  {
    (k - 1) / 2
  }

  ghost predicate IsHeap<T>(s: seq<BaseAndExponent<T>>, n: nat)
    requires n <= |s|
  {
    forall k :: 0 < k < n ==> s[Parent(k)].exponent >= s[k].exponent
  }

  lemma {:induction false} RootIsLargest<T>(s: seq<BaseAndExponent<T>>, n: nat, k: nat)
    requires n <= |s| && IsHeap(s, n) && k < n
    ensures s[0].exponent >= s[k].exponent
    decreases k
  {
    if k > 0 { RootIsLargest(s, n, Parent(k)); }
  }

  function Swapped<A>(s: seq<A>, i: nat, j: nat): seq<A>
    requires i < |s| && j < |s|
  {
    s[i := s[j]][j := s[i]]
  }

  method Swap<A>(a: array<A>, i: nat, j: nat)
    requires i < a.Length && j < a.Length
    modifies a
    ensures a[..] == Swapped(old(a[..]), i, j)
    ensures multiset(a[..]) == multiset(old(a[..]))
  {
    a[i], a[j] := a[j], a[i];
  }

  /** A heap of n elements except that element i may be too large for its parent. */
  ghost predicate SiftingUp<T>(s: seq<BaseAndExponent<T>>, n: nat, i: nat)
    requires n <= |s|
  {
    && i < n
    && (forall k :: 0 < k < n && k != i ==> s[Parent(k)].exponent >= s[k].exponent)
    && (forall k :: 0 < k < n && Parent(k) == i > 0 ==> s[Parent(i)].exponent >= s[k].exponent)
  }

  lemma SiftUp<T>(s: seq<BaseAndExponent<T>>, n: nat, i: nat)
    requires n <= |s| && SiftingUp(s, n, i) && i > 0 && s[Parent(i)].exponent < s[i].exponent
    ensures SiftingUp(Swapped(s, Parent(i), i), n, Parent(i))
  {
    var s', p := Swapped(s, Parent(i), i), Parent(i);
    forall k | 0 < k < n && k != p ensures s'[Parent(k)].exponent >= s'[k].exponent {
      if k != i && Parent(k) == p { assert s[p].exponent >= s[k].exponent; }
    }
    forall k | 0 < k < n && Parent(k) == p > 0 ensures s'[Parent(p)].exponent >= s'[k].exponent {
      assert s[Parent(p)].exponent >= s[p].exponent;
      if k != i { assert s[p].exponent >= s[k].exponent; }
    }
  }

  /** A heap of m elements except that element i may be too small for its children. */
  ghost predicate SiftingDown<T>(s: seq<BaseAndExponent<T>>, m: nat, i: nat)
    requires m <= |s|
  {
    && (forall k :: 0 < k < m && Parent(k) != i ==> s[Parent(k)].exponent >= s[k].exponent)
    && (forall k :: 0 < k < m && Parent(k) == i > 0 ==> s[Parent(i)].exponent >= s[k].exponent)
  }

  lemma SiftDown<T>(s: seq<BaseAndExponent<T>>, m: nat, i: nat, child: nat)
    requires m <= |s| && SiftingDown(s, m, i) && child < m
    requires child == 2 * i + 1 || child == 2 * i + 2
    requires forall k :: 0 < k < m && Parent(k) == i ==> s[child].exponent >= s[k].exponent
    ensures s[i].exponent >= s[child].exponent ==> IsHeap(s, m)
    ensures s[i].exponent < s[child].exponent ==> SiftingDown(Swapped(s, i, child), m, child)
  {
  }

  lemma SiftRoot<T>(s: seq<BaseAndExponent<T>>, n: nat)
    requires 1 <= n <= |s| && IsHeap(s, n)
    ensures SiftingDown(Swapped(s, 0, n - 1), n - 1, 0)
  {
  }

  lemma SiftedDown<T>(s: seq<BaseAndExponent<T>>, m: nat, i: nat)
    requires m <= |s| && SiftingDown(s, m, i) && 2 * i + 1 >= m
    ensures IsHeap(s, m)
  {
  }

  /** `std::push_heap` on the first n elements: the last of them is sifted up. */
  method PushHeap<T>(a: array<BaseAndExponent<T>>, n: nat)
    requires 1 <= n <= a.Length && IsHeap(a[..], n - 1)
    modifies a
    ensures IsHeap(a[..], n) && multiset(a[..]) == multiset(old(a[..]))
    ensures a[n..] == old(a[n..])
  {
    var i := n - 1;
    while i > 0 && a[Parent(i)].exponent < a[i].exponent
      invariant 0 <= i < n && SiftingUp(a[..], n, i)
      invariant multiset(a[..]) == multiset(old(a[..])) && a[n..] == old(a[n..])
    {
      SiftUp(a[..], n, i);
      Swap(a, Parent(i), i);
      i := Parent(i);
    }
  }

  /** `std::pop_heap` on the first n elements: the largest goes to the end of them. */
  method PopHeap<T>(a: array<BaseAndExponent<T>>, n: nat)
    requires 1 <= n <= a.Length && IsHeap(a[..], n)
    modifies a
    ensures IsHeap(a[..], n - 1) && multiset(a[..]) == multiset(old(a[..]))
    ensures a[n - 1] == old(a[0]) && a[n..] == old(a[n..])
  {
    hide SiftingDown, IsHeap;
    Swap(a, 0, n - 1);
    var m, i := n - 1, 0;
    SiftRoot(old(a[..]), n);
    while 2 * i + 1 < m
      invariant multiset(a[..]) == multiset(old(a[..])) && a[n - 1] == old(a[0]) && a[n..] == old(a[n..])
      invariant 0 <= i && SiftingDown(a[..], m, i)
      decreases m - i
    {
      var child := if 2 * i + 2 < m && a[2 * i + 1].exponent < a[2 * i + 2].exponent then 2 * i + 2 else 2 * i + 1;
      assert forall k :: 0 < k < m && Parent(k) == i ==> a[child].exponent >= a[k].exponent;
      SiftDown(a[..], m, i, child);
      if a[i].exponent >= a[child].exponent {
        return;
      }
      Swap(a, i, child);
      i := child;
    }
    SiftedDown(a[..], m, i);
  }

  /** `std::make_heap` on the whole array. */
  method MakeHeap<T>(a: array<BaseAndExponent<T>>)
    modifies a
    ensures IsHeap(a[..], a.Length) && multiset(a[..]) == multiset(old(a[..]))
  {
    for n := 0 to a.Length
      invariant IsHeap(a[..], n) && multiset(a[..]) == multiset(old(a[..]))
    {
      PushHeap(a, n + 1);
    }
  }

  // ----- the algorithm

  /** The list after one division step on its last and first pairs. */
  ghost function Divided<T(!new)>(g: Group<T>, s: seq<BaseAndExponent<T>>, q: nat, r: nat): seq<BaseAndExponent<T>>
    requires |s| >= 2
  {
    var x, y := s[|s| - 1].base, s[0].base;
    s[|s| - 1 := BaseAndExponent(x, r)][0 := BaseAndExponent(g.add(y, g.Times(q, x)), s[0].exponent)]
  }

  lemma FirstAndLast<T(!new)>(g: Group<T>, s: seq<BaseAndExponent<T>>)
    requires g.IsAbelian() && |s| >= 2
    ensures var n := |s| - 1;
            var mid := s[1..n];
            Sum(g, s) == g.add(g.add(g.Times(s[n].exponent, s[n].base), g.Times(s[0].exponent, s[0].base)), Sum(g, mid))
            && ExponentSum(s) == s[n].exponent + s[0].exponent + ExponentSum(mid)
  {
    var n := |s| - 1;
    TakeOut(g, s, n);
    var front := Without(s, n);
    assert front == s[..n] && front[1..] == s[1..n];
    assert g.Associates(g.Times(s[n].exponent, s[n].base), g.Times(s[0].exponent, s[0].base), Sum(g, s[1..n]));
  }

  /** One step keeps the sum and makes the exponents smaller. */
  lemma StepConserves<T(!new)>(g: Group<T>, s: seq<BaseAndExponent<T>>, q: nat, r: nat)
    requires g.IsAbelian() && |s| >= 2 && 0 < s[0].exponent
    requires s[|s| - 1].exponent == q * s[0].exponent + r && r < s[0].exponent <= s[|s| - 1].exponent
    ensures Sum(g, Divided(g, s, q, r)) == Sum(g, s)
    ensures ExponentSum(Divided(g, s, q, r)) < ExponentSum(s)
  {
    hide Sum, ExponentSum, Group.IsAbelian, Group.Times;
    var n, d := |s| - 1, Divided(g, s, q, r);
    FirstAndLast(g, s);
    FirstAndLast(g, d);
    assert d[1..n] == s[1..n];
    DivideStep(g, s[n].base, s[0].base, s[n].exponent, q, s[0].exponent, r);
  }

  /** When the largest of the other exponents is zero only the last term is left. */
  lemma {:induction false} SumOfZeros<T(!new)>(g: Group<T>, s: seq<BaseAndExponent<T>>)
    requires g.IsAbelian() && forall k :: 0 <= k < |s| ==> s[k].exponent == 0
    ensures Sum(g, s) == g.identity
  {
    if s != [] {
      SumOfZeros(g, s[1..]);
      assert g.HasIdentity(g.identity);
    }
  }

  lemma LastTerm<T(!new)>(g: Group<T>, s: seq<BaseAndExponent<T>>, n: nat)
    requires g.IsAbelian() && |s| == n + 1 && n >= 1 && IsHeap(s, n) && s[0].exponent == 0
    ensures Sum(g, s) == g.Times(s[n].exponent, s[n].base)
  {
    forall k | 0 <= k < n ensures s[k].exponent == 0 { RootIsLargest(s, n, k); }
    TakeOut(g, s, n);
    SumOfZeros(g, Without(s, n));
    assert g.HasIdentity(g.Times(s[n].exponent, s[n].base));
  }

  lemma ShortSum<T(!new)>(g: Group<T>, s: seq<BaseAndExponent<T>>)
    requires g.IsAbelian()
    ensures |s| == 1 ==> Sum(g, s) == g.Times(s[0].exponent, s[0].base)
    ensures |s| == 2 ==> Sum(g, s) == g.add(g.Times(s[0].exponent, s[0].base), g.Times(s[1].exponent, s[1].base))
  {
    if |s| == 1 {
      assert g.HasIdentity(g.Times(s[0].exponent, s[0].base));
    } else if |s| == 2 {
      assert g.HasIdentity(g.Times(s[1].exponent, s[1].base));
      assert Sum(g, s[1..][1..]) == g.identity;
    }
  }

  /** After `pop_heap`: the last pair has the largest exponent, the rest is a heap. */
  ghost predicate Popped<T>(s: seq<BaseAndExponent<T>>) {
    && |s| >= 2 && IsHeap(s, |s| - 1)
    && forall k :: 0 <= k < |s| ==> s[|s| - 1].exponent >= s[k].exponent
  }

  method PopAll<T>(a: array<BaseAndExponent<T>>)
    requires a.Length >= 2 && IsHeap(a[..], a.Length)
    modifies a
    ensures Popped(a[..]) && multiset(a[..]) == multiset(old(a[..]))
  {
    ghost var s := a[..];
    PopHeap(a, a.Length);
    forall k | 0 <= k < a.Length ensures a[a.Length - 1].exponent >= a[k].exponent {
      assert a[..][k] in multiset(s);
      var j :| 0 <= j < |s| && s[j] == a[k];
      RootIsLargest(s, |s|, j);
    }
  }

  /** `GeneralCascadeMultiplication`: the sum of exponent * base over any non-empty
      list; the list is used as working space. */
  method GeneralCascadeMultiplication<T(!new)>(g: Group<T>, a: array<BaseAndExponent<T>>, blank: T) returns (r: T)
    requires g.IsAbelian() && a.Length >= 1
    modifies a
    ensures r == Sum(g, old(a[..]))
  {
    hide *;
    ShortSum(g, a[..]);
    if a.Length == 1 {
      Abelian(g);
      r := ScalarMultiply.Multiply(g, a[0].base, a[0].exponent);
    } else if a.Length == 2 {
      r := CascadeMultiply.CascadeScalarMultiply(g, a[0].base, a[0].exponent, a[1].base, a[1].exponent, blank);
    } else {
      r := BosCosterLoop(g, a);
    }
  }

  lemma Abelian<T(!new)>(g: Group<T>)
    requires g.IsAbelian()
    ensures g.IsGroup()
  {
  }

  /** The division step on the array: the largest exponent is reduced modulo the
      next largest one, whose base takes the quotient. */
  method DivideLast<T(!new)>(g: Group<T>, a: array<BaseAndExponent<T>>)
    requires g.IsAbelian() && a.Length >= 2 && Popped(a[..]) && a[0].exponent != 0
    modifies a
    ensures Sum(g, a[..]) == Sum(g, old(a[..])) && ExponentSum(a[..]) < ExponentSum(old(a[..]))
    ensures IsHeap(a[..], a.Length - 1)
  {
    hide IsHeap, Sum, ExponentSum, Group.IsAbelian, Group.Times;
    Abelian(g);
    ghost var s := a[..];
    var last := a.Length - 1;
    var t, b, x := a[last].exponent, a[0].exponent, a[last].base;
    var q, rem := t / b, t % b;
    StepConserves(g, s, q, rem);
    a[last] := BaseAndExponent(x, rem);
    var qx := x;
    TimesOne(g, x);
    if q != 1 {
      qx := ScalarMultiply.Multiply(g, x, q);
    }
    a[0] := BaseAndExponent(g.add(a[0].base, qx), b);
    assert a[..] == Divided(g, s, q, rem);
    SameHeap(s, a[..], last);
  }

  method BosCosterLoop<T(!new)>(g: Group<T>, a: array<BaseAndExponent<T>>) returns (r: T)
    requires g.IsAbelian() && a.Length >= 2
    modifies a
    ensures r == Sum(g, old(a[..]))
  {
    hide IsHeap, Sum, ExponentSum, Group.IsAbelian, Group.Times;
    Abelian(g);
    var last := a.Length - 1;
    MakeHeap(a);
    PopAll(a);
    SumPermutes(g, a[..], old(a[..]));
    while a[0].exponent != 0
      invariant Popped(a[..]) && Sum(g, a[..]) == Sum(g, old(a[..]))
      decreases ExponentSum(a[..])
    {
      DivideLast(g, a);
      ghost var d := a[..];
      PushHeap(a, last + 1);
      PopAll(a);
      SumPermutes(g, a[..], d);
    }
    LastTerm(g, a[..], last);
    r := ScalarMultiply.Multiply(g, a[last].base, a[last].exponent);
  }

  lemma SameHeap<T>(s: seq<BaseAndExponent<T>>, d: seq<BaseAndExponent<T>>, n: nat)
    requires n <= |s| == |d| && IsHeap(s, n) && forall k :: 0 <= k < n ==> d[k].exponent == s[k].exponent
    ensures IsHeap(d, n)
  {
  }
}
