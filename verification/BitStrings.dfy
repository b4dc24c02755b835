/** Strings of bits, most significant first, and their regrouping into digits. */
module BitStrings {
  import opened NatBits

  /** The low n bits of v. */
  function Bits(v: nat, n: nat): (b: seq<nat>)
    ensures |b| == n
    decreases n
  {
    if n == 0 then [] else Bits(v / 2, n - 1) + [v % 2]
  }

  /** The number a bit string denotes. */
  function Num(bits: seq<nat>): nat {
    if bits == [] then 0 else 2 * Num(bits[..|bits| - 1]) + bits[|bits| - 1]
  }

  lemma {:induction false} NumBits(v: nat, n: nat)
    requires v < Pow2(n)
    ensures Num(Bits(v, n)) == v
    decreases n
  {
    if n > 0 {
      NumBits(v / 2, n - 1);
      assert Bits(v, n)[..n - 1] == Bits(v / 2, n - 1);
    }
  }

  ghost predicate IsBits(bits: seq<nat>) { forall i :: 0 <= i < |bits| ==> bits[i] <= 1 }

  lemma {:induction false} BitsNum(bits: seq<nat>)
    requires IsBits(bits)
    ensures Num(bits) < Pow2(|bits|) && Bits(Num(bits), |bits|) == bits
  {
    if bits != [] {
      BitsNum(bits[..|bits| - 1]);
      assert bits == bits[..|bits| - 1] + [bits[|bits| - 1]];
    }
  }

  lemma {:induction false} BitsAreBits(v: nat, n: nat)
    ensures IsBits(Bits(v, n))
    decreases n
  {
    if n > 0 { BitsAreBits(v / 2, n - 1); }
  }

  /** Placing y below x joins their bits. */
  lemma {:induction false} BitsJoin(x: nat, n: nat, y: nat, t: nat)
    requires y < Pow2(t)
    ensures Bits(Shl(x, t) + y, n + t) == Bits(x, n) + Bits(y, t)
    decreases t
  {
    if t > 0 {
      BitsJoin(x, n, y / 2, t - 1);
      Halves(Shl(x, t - 1), y);
    } else {
      assert Bits(x, n) + [] == Bits(x, n);
    }
  }

  lemma Halves(h: nat, y: nat)
    ensures (2 * h + y) / 2 == h + y / 2 && (2 * h + y) % 2 == y % 2
  {
  }

  /** The same, read as taking a number apart. */
  lemma BitsSplit(v: nat, n: nat, t: nat)
    ensures Bits(v, n + t) == Bits(Shr(v, t), n) + Bits(Low(v, t), t)
  {
    ShrLow(v, t);
    BitsJoin(Shr(v, t), n, Low(v, t), t);
  }

  lemma {:induction false} ShrBound(v: nat, n: nat, t: nat)
    requires v < Pow2(n + t)
    ensures Shr(v, t) < Pow2(n)
    decreases t
  {
    if t > 0 { ShrBound(v / 2, n, t - 1); }
  }

  lemma {:induction false} ShlBound(x: nat, n: nat, t: nat)
    requires x < Pow2(n)
    ensures Shl(x, t) + Pow2(t) <= Pow2(n + t)
    decreases t
  {
    if t > 0 { ShlBound(x, n, t - 1); }
  }

  // ----- the bitwise or of numbers without common bits

  /** `a | b` */
  function Or(a: nat, b: nat): nat
    decreases a + b
  {
    if a == 0 then b else if b == 0 then a
    else 2 * Or(a / 2, b / 2) + (if a % 2 == 1 || b % 2 == 1 then 1 else 0)
  }

  /** Below the lowest bit of a shifted number, or is addition. */
  lemma {:induction false} OrBelow(x: nat, t: nat, y: nat)
    requires y < Pow2(t)
    ensures Or(Shl(x, t), y) == Shl(x, t) + y
    decreases t
  {
    if t > 0 && Shl(x, t) != 0 && y != 0 {
      OrBelow(x, t - 1, y / 2);
      Halves(Shl(x, t - 1), 0);
    }
  }

  lemma {:induction false} OrBound(a: nat, b: nat, k: nat)
    requires a < Pow2(k) && b < Pow2(k)
    ensures Or(a, b) < Pow2(k)
    decreases k
  {
    if k > 0 && a != 0 && b != 0 { OrBound(a / 2, b / 2, k - 1); }
  }

  // ----- digits of w bits

  /** The bits of a list of digits. */
  function DigitBits(digits: seq<nat>, w: nat): seq<nat> {
    if digits == [] then []
    else DigitBits(digits[..|digits| - 1], w) + Bits(digits[|digits| - 1], w)
  }

  lemma {:induction false} DigitBitsLength(digits: seq<nat>, w: nat)
    ensures |DigitBits(digits, w)| == |digits| * w
  {
    if digits != [] {
      DigitBitsLength(digits[..|digits| - 1], w);
      assert |digits| * w == (|digits| - 1) * w + w;
    }
  }

  lemma DigitBitsSnoc(digits: seq<nat>, d: nat, w: nat)
    ensures DigitBits(digits + [d], w) == DigitBits(digits, w) + Bits(d, w)
  {
    assert (digits + [d])[..|digits|] == digits;
  }

  lemma {:induction false} DigitBitsAppend(a: seq<nat>, b: seq<nat>, w: nat)
    ensures DigitBits(a + b, w) == DigitBits(a, w) + DigitBits(b, w)
    decreases |b|
  {
    if b == [] {
      assert a + b == a && DigitBits(b, w) == [];
    } else {
      hide DigitBits, Bits;
      var k := |b| - 1;
      var c := b[..k];
      assert b == c + [b[k]] && a + b == (a + c) + [b[k]];
      calc {
        DigitBits(a + b, w);
        { DigitBitsSnoc(a + c, b[k], w); }
        DigitBits(a + c, w) + Bits(b[k], w);
        { DigitBitsAppend(a, c, w); }
        DigitBits(a, w) + DigitBits(c, w) + Bits(b[k], w);
        DigitBits(a, w) + (DigitBits(c, w) + Bits(b[k], w));
        { DigitBitsSnoc(c, b[k], w); }
        DigitBits(a, w) + DigitBits(b, w);
      }
    }
  }

  lemma DigitBitsCons(d: nat, digits: seq<nat>, w: nat)
    ensures DigitBits([d] + digits, w) == Bits(d, w) + DigitBits(digits, w)
  {
    DigitBitsAppend([d], digits, w);
    assert DigitBits([d][..0], w) == [];
  }

  lemma OneDigit(d: nat, w: nat)
    ensures DigitBits([d], w) == Bits(d, w)
  {
    assert [d][..0] == [] && DigitBits([], w) == [];
  }

  function ZeroBits(n: nat): (z: seq<nat>)
    ensures |z| == n
  {
    seq(n, i => 0)
  }

  /** A bit string cut into digits of w bits, the last one completed by zeros. */
  function Digits(bits: seq<nat>, w: nat): seq<nat>
    requires w > 0
    decreases |bits|
  {
    if |bits| == 0 then []
    else if |bits| < w then [Num(bits + ZeroBits(w - |bits|))]
    else [Num(bits[..w])] + Digits(bits[w..], w)
  }

  /** A bit string cut into digits of w bits, an incomplete last one dropped. */
  function WholeDigits(bits: seq<nat>, w: nat): seq<nat>
    requires w > 0
    decreases |bits|
  {
    if |bits| < w then [] else [Num(bits[..w])] + WholeDigits(bits[w..], w)
  }

  ghost predicate AreDigits(digits: seq<nat>, w: nat) { forall i :: 0 <= i < |digits| ==> digits[i] < Pow2(w) }

  lemma FirstDigit(d: nat, rest: seq<nat>, w: nat)
    requires d < Pow2(w)
    ensures Num((Bits(d, w) + rest)[..w]) == d && (Bits(d, w) + rest)[w..] == rest
  {
    NumBits(d, w);
    assert (Bits(d, w) + rest)[..w] == Bits(d, w);
  }

  /** Cutting joined digits gives the digits back. */
  lemma {:induction false} WholeDigitsOfBits(digits: seq<nat>, rest: seq<nat>, w: nat)
    requires w > 0 && AreDigits(digits, w) && |rest| < w
    ensures WholeDigits(DigitBits(digits, w) + rest, w) == digits
    decreases |digits|
  {
    if digits == [] {
      assert DigitBits(digits, w) + rest == rest;
    } else {
      var d, ds := digits[0], digits[1..];
      assert digits == [d] + ds;
      DigitBitsCons(d, ds, w);
      assert DigitBits(digits, w) + rest == Bits(d, w) + (DigitBits(ds, w) + rest);
      FirstDigit(d, DigitBits(ds, w) + rest, w);
      WholeDigitsOfBits(ds, rest, w);
    }
  }

  /** An incomplete digit of r bits is completed by shifting it up. */
  lemma {:induction false} DigitsOfBits(digits: seq<nat>, x: nat, r: nat, w: nat)
    requires AreDigits(digits, w) && r < w && x < Pow2(r)
    ensures Digits(DigitBits(digits, w) + Bits(x, r), w) == digits + if r == 0 then [] else [Shl(x, w - r)]
    decreases |digits|
  {
    hide Bits, Num, Shl;
    if digits == [] {
      assert DigitBits(digits, w) + Bits(x, r) == Bits(x, r);
      if r > 0 { LastDigit(x, r, w); }
    } else {
      hide DigitBits;
      var d, ds := digits[0], digits[1..];
      assert digits == [d] + ds;
      DigitBitsCons(d, ds, w);
      assert DigitBits(digits, w) + Bits(x, r) == Bits(d, w) + (DigitBits(ds, w) + Bits(x, r));
      FirstDigit(d, DigitBits(ds, w) + Bits(x, r), w);
      DigitsOfBits(ds, x, r, w);
    }
  }

  lemma {:induction false} BitsOfZero(n: nat)
    ensures Bits(0, n) == ZeroBits(n)
  {
    if n > 0 { BitsOfZero(n - 1); }
  }

  lemma LastDigit(x: nat, r: nat, w: nat)
    requires 0 < r < w && x < Pow2(r)
    ensures Num(Bits(x, r) + ZeroBits(w - r)) == Shl(x, w - r) < Pow2(w)
  {
    hide Bits, Num, Shl;
    BitsJoin(x, r, 0, w - r);
    BitsOfZero(w - r);
    ShlBound(x, r, w - r);
    NumBits(Shl(x, w - r), w);
  }

  /** The bits of the digits are the string and fewer than w zero bits. */
  lemma {:induction false} BitsOfDigits(bits: seq<nat>, w: nat) returns (z: nat)
    requires w > 0 && IsBits(bits)
    ensures z < w && AreDigits(Digits(bits, w), w)
    ensures DigitBits(Digits(bits, w), w) == bits + ZeroBits(z)
    decreases |bits|
  {
    hide Bits, Num, Shl;
    if |bits| == 0 {
      z := 0;
    } else if |bits| < w {
      z := w - |bits|;
      var all := bits + ZeroBits(z);
      BitsNum(all);
      OneDigit(Num(all), w);
    } else {
      hide DigitBits;
      var d, ds := Num(bits[..w]), Digits(bits[w..], w);
      BitsNum(bits[..w]);
      z := BitsOfDigits(bits[w..], w);
      DigitBitsCons(d, ds, w);
      assert bits[..w] + (bits[w..] + ZeroBits(z)) == bits + ZeroBits(z);
    }
  }

  lemma {:induction false} DigitBitsAreBits(digits: seq<nat>, w: nat)
    ensures IsBits(DigitBits(digits, w))
  {
    if digits != [] {
      DigitBitsAreBits(digits[..|digits| - 1], w);
      BitsAreBits(digits[|digits| - 1], w);
    }
  }

  /** Regrouping digits of v bits into digits of w bits and back loses nothing, when
      w is not larger than v. */
  lemma Regroup(digits: seq<nat>, v: nat, w: nat)
    requires 0 < w <= v && AreDigits(digits, v)
    ensures WholeDigits(DigitBits(Digits(DigitBits(digits, v), w), w), v) == digits
  {
    DigitBitsAreBits(digits, v);
    var z := BitsOfDigits(DigitBits(digits, v), w);
    WholeDigitsOfBits(digits, ZeroBits(z), v);
  }
}
