/** Binary arithmetic on unbounded integers: the operations of `Integer` that the
    group algorithms use on their exponents (shifts, bit tests, bit length). */
module NatBits {

  /** `x << k`, that is x * 2^k */
  function Shl(x: int, k: nat): (r: int)
    ensures x >= 1 ==> r >= x
    ensures x >= 0 ==> r >= 0
    decreases k
  {
    if k == 0 then x else 2 * Shl(x, k - 1)
  }

  /** `1 << k` */
  function Pow2(k: nat): (p: nat)
    ensures p >= 1
  {
    Shl(1, k)
  }

  /** `n >> k` */
  function Shr(n: nat, k: nat): (r: nat)
    ensures r <= n
    decreases k
  {
    if k == 0 then n else Shr(n / 2, k - 1)
  }

  /** `n % (1 << k)`: the bits that `n >> k` drops. */
  function Low(n: nat, k: nat): (r: nat)
    ensures r < Pow2(k)
    ensures k > 0 ==> r % 2 == n % 2
    decreases k
  {
    if k == 0 then 0
    else
      PowStep(k);
      BitBelow(Low(n / 2, k - 1), n);
      2 * Low(n / 2, k - 1) + n % 2
  }

  lemma BitBelow(h: nat, n: nat)
    ensures (2 * h + n % 2) % 2 == n % 2
  {
  }

  lemma PowStep(k: nat)
    requires k > 0
    ensures Pow2(k) == 2 * Pow2(k - 1)
  {
  }

  /** `n.GetBit(i)` */
  function GetBit(n: nat, i: nat): (b: nat)
    ensures b <= 1
  {
    Shr(n, i) % 2
  }

  /** `n.BitCount()` */
  function BitCount(n: nat): (c: nat)
    ensures c == 0 <==> n == 0
  {
    if n == 0 then 0 else 1 + BitCount(n / 2)
  }

  // ----- shifting left is additive and composes

  lemma {:induction false} ShlAdd(x: int, y: int, k: nat)
    ensures Shl(x + y, k) == Shl(x, k) + Shl(y, k)
    decreases k
  {
    if k > 0 { ShlAdd(x, y, k - 1); }
  }

  lemma {:induction false} ShlShl(x: int, a: nat, b: nat)
    ensures Shl(Shl(x, a), b) == Shl(x, a + b)
    decreases b
  {
    if b > 0 { ShlShl(x, a, b - 1); }
  }

  lemma {:induction false} ShlDouble(x: int, k: nat)
    ensures Shl(2 * x, k) == Shl(x, k + 1)
    decreases k
  {
    if k > 0 { ShlDouble(x, k - 1); }
  }

  lemma {:induction false} ShlZero(k: nat)
    ensures Shl(0, k) == 0
    decreases k
  {
    if k > 0 { ShlZero(k - 1); }
  }

  // ----- shifting right

  lemma {:induction false} ShrStep(n: nat, k: nat)
    ensures Shr(n, k + 1) == Shr(n, k) / 2
    decreases k
  {
    if k > 0 { ShrStep(n / 2, k - 1); }
  }

  lemma ShrBit(n: nat, k: nat)
    ensures Shr(n, k) == 2 * Shr(n, k + 1) + GetBit(n, k)
  {
    ShrStep(n, k);
  }

  lemma {:induction false} ShrAdd(n: nat, a: nat, b: nat)
    ensures Shr(n, a + b) == Shr(Shr(n, a), b)
    decreases a
  {
    if a > 0 { ShrAdd(n / 2, a - 1, b); }
  }

  /** Shifting and masking split a number. */
  lemma {:induction false} ShrLow(n: nat, k: nat)
    ensures n == Shl(Shr(n, k), k) + Low(n, k)
    decreases k
  {
    if k > 0 { ShrLow(n / 2, k - 1); }
  }

  lemma {:induction false} ShrAddPow2(n: nat, k: nat)
    ensures Shr(n + Pow2(k), k) == Shr(n, k) + 1
    decreases k
  {
    if k > 0 {
      ShrAddPow2(n / 2, k - 1);
      assert (n + Pow2(k)) / 2 == n / 2 + Pow2(k - 1);
    }
  }

  lemma {:induction false} ShrZero(k: nat)
    ensures Shr(0, k) == 0
  {
    if k > 0 { ShrZero(k - 1); }
  }

  lemma ShrMono(n: nat, a: nat, b: nat)
    requires a <= b
    ensures Shr(n, b) <= Shr(n, a)
  {
    ShrAdd(n, a, b - a);
  }

  /** The bit count is where the shifted value first vanishes. */
  lemma {:induction false} BitCountShr(n: nat, k: nat)
    ensures Shr(n, k) == 0 <==> BitCount(n) <= k
    decreases k
  {
    if k > 0 {
      if n == 0 { ShrZero(k); } else { BitCountShr(n / 2, k - 1); }
    }
  }

  // ----- the same operations as products, quotients and remainders

  lemma {:induction false} ShlMul(x: int, k: nat)
    ensures Shl(x, k) == x * Pow2(k)
    decreases k
  {
    if k > 0 { ShlMul(x, k - 1); }
  }

  /** Quotient and remainder are determined by their defining equation. */
  lemma EuclidUnique(n: int, d: int, q: int, r: int)
    requires d > 0 && n == q * d + r && 0 <= r < d
    ensures n / d == q && n % d == r
  {
    var q0, r0 := n / d, n % d;
    assert n == q0 * d + r0;
    assert (q0 - q) * d == r - r0;
    if q0 - q >= 1 {
      MulMono(1, q0 - q, d);
    } else if q0 - q <= -1 {
      MulMono(q0 - q, -1, d);
    }
  }

  lemma MulMono(a: int, b: int, c: int)
    requires a <= b && c >= 0
    ensures a * c <= b * c
  {
  }

  /** The low bits are those of the number. */
  lemma {:induction false} BitOfLow(x: nat, k: nat, p: nat)
    ensures GetBit(Low(x, k), p) == if p < k then GetBit(x, p) else 0
    decreases k
  {
    if k == 0 {
      ShrZero(p);
    } else if p > 0 {
      BitOfLow(x / 2, k - 1, p - 1);
      assert Low(x, k) / 2 == Low(x / 2, k - 1);
    }
  }
}
