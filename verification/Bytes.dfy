/** Bytes, exclusive or, and big-endian numbers. */
module Bytes {
  import opened NatBits

  type byte = x: nat | x < 256

  /** The ranges of `lword` and `word32` */
  const LWORD: nat := 0x1_0000_0000_0000_0000
  const WORD32: nat := 0x1_0000_0000

  // ----- exclusive or

  /** Exclusive or of the low k bits. */
  function XorBits(a: nat, b: nat, k: nat): (r: nat)
    ensures r < Pow2(k)
    decreases k
  {
    if k == 0 then 0 else 2 * XorBits(a / 2, b / 2, k - 1) + (a + b) % 2
  }

  lemma XorUnfold(a: nat, b: nat, k: nat)
    requires k > 0
    ensures XorBits(a, b, k) == 2 * XorBits(a / 2, b / 2, k - 1) + (a + b) % 2
  {
  }

  lemma {:induction false} XorBitsCancel(a: nat, b: nat, k: nat)
    requires a < Pow2(k)
    ensures XorBits(XorBits(a, b, k), b, k) == a
    decreases k
  {
    if k > 0 {
      XorBitsCancel(a / 2, b / 2, k - 1);
      BitCancels(a, b, XorBits(a / 2, b / 2, k - 1));
    }
  }

  lemma BitCancels(a: nat, b: nat, h: nat)
    ensures (2 * h + (a + b) % 2) / 2 == h
    ensures (2 * h + (a + b) % 2 + b) % 2 == a % 2
  {
  }

  lemma {:induction false} XorBitsZero(a: nat, k: nat)
    requires a < Pow2(k)
    ensures XorBits(a, 0, k) == a
    decreases k
  {
    if k > 0 { XorBitsZero(a / 2, k - 1); }
  }

  /** `a ^ b` on bytes */
  function Xor(a: byte, b: byte): byte {
    assert Pow2(8) == 256;
    XorBits(a, b, 8)
  }

  lemma XorCancel(a: byte, b: byte)
    ensures Xor(Xor(a, b), b) == a
  {
    assert Pow2(8) == 256;
    XorBitsCancel(a, b, 8);
  }

  lemma XorZero(a: byte)
    ensures Xor(a, 0) == a
  {
    assert Pow2(8) == 256;
    XorBitsZero(a, 8);
  }

  lemma {:induction false} XorBitsCommute(a: nat, b: nat, k: nat)
    ensures XorBits(a, b, k) == XorBits(b, a, k)
    decreases k
  {
    if k > 0 { XorBitsCommute(a / 2, b / 2, k - 1); }
  }

  lemma {:induction false} XorBitsItself(a: nat, k: nat)
    ensures XorBits(a, a, k) == 0
    decreases k
  {
    if k > 0 { XorBitsItself(a / 2, k - 1); }
  }

  lemma XorItself(a: byte)
    ensures Xor(a, a) == 0
  {
    XorBitsItself(a, 8);
  }

  /** Bit by bit, the sum without carry. */
  lemma {:induction false} XorBitsAt(a: nat, b: nat, k: nat, i: nat)
    ensures GetBit(XorBits(a, b, k), i) == if i < k then (GetBit(a, i) + GetBit(b, i)) % 2 else 0
    decreases k
  {
    if k == 0 {
      ShrZero(i);
    } else {
      var rest := XorBits(a / 2, b / 2, k - 1);
      assert XorBits(a, b, k) / 2 == rest;
      if i > 0 { XorBitsAt(a / 2, b / 2, k - 1, i - 1); }
    }
  }

  lemma XorAt(a: byte, b: byte, i: nat)
    ensures GetBit(Xor(a, b), i) == if i < 8 then (GetBit(a, i) + GetBit(b, i)) % 2 else 0
  {
    XorBitsAt(a, b, 8, i);
  }

  /** `xorbuf`: the first |b| bytes of a are combined with b. */
  function XorPrefix(a: seq<byte>, b: seq<byte>): (r: seq<byte>)
    requires |b| <= |a|
    ensures |r| == |a|
  {
    seq(|a|, i requires 0 <= i < |a| => if i < |b| then Xor(a[i], b[i]) else a[i])
  }

  function Zeros(n: nat): (z: seq<byte>)
    ensures |z| == n
  {
    seq(n, i => 0)
  }

  /** Combining with a short block is combining with the block padded by zeros. */
  lemma XorPrefixPadded(a: seq<byte>, b: seq<byte>)
    requires |b| <= |a|
    ensures XorPrefix(a, b) == XorPrefix(a, b + Zeros(|a| - |b|))
  {
    forall i | |b| <= i < |a| ensures a[i] == Xor(a[i], 0) { XorZero(a[i]); }
  }

  // ----- big-endian numbers

  /** The low n bytes of v, most significant first. */
  function BigEndian(v: nat, n: nat): (s: seq<byte>)
    ensures |s| == n
    decreases n
  {
    if n == 0 then [] else BigEndian(v / 256, n - 1) + [v % 256]
  }

  function Value(s: seq<byte>): nat {
    if s == [] then 0 else 256 * Value(s[..|s| - 1]) + s[|s| - 1]
  }

  function Pow256(n: nat): (p: nat)
    ensures p >= 1
  {
    if n == 0 then 1 else 256 * Pow256(n - 1)
  }

  lemma {:induction false} ValueOfBigEndian(v: nat, n: nat)
    requires v < Pow256(n)
    ensures Value(BigEndian(v, n)) == v
    decreases n
  {
    if n > 0 {
      ValueOfBigEndian(v / 256, n - 1);
      var s := BigEndian(v, n);
      assert s[..n - 1] == BigEndian(v / 256, n - 1);
    }
  }

  lemma {:induction false} BigEndianOfValue(s: seq<byte>)
    ensures Value(s) < Pow256(|s|) && BigEndian(Value(s), |s|) == s
  {
    if s != [] {
      BigEndianOfValue(s[..|s| - 1]);
      assert s == s[..|s| - 1] + [s[|s| - 1]];
    }
  }

  /** The low bytes of a wider encoding are the narrower encoding. */
  lemma {:induction false} BigEndianSuffix(v: nat, n: nat, m: nat)
    requires m <= n
    ensures BigEndian(v, n)[n - m..] == BigEndian(v, m)
    decreases m
  {
    if m > 0 {
      BigEndianSuffix(v / 256, n - 1, m - 1);
      var t := BigEndian(v / 256, n - 1);
      assert (t + [v % 256])[n - m..] == t[n - m..] + [v % 256];
    }
  }

  lemma BigEndianPair(a: byte, b: byte)
    ensures BigEndian(a, 1) == [a] && BigEndian(256 * a + b, 2) == [a, b]
  {
    assert BigEndian(a / 256, 0) == [];
    assert BigEndian(256 * a + b, 2) == BigEndian((256 * a + b) / 256, 1) + [b];
  }

  lemma {:induction false} Pow256Mono(a: nat, b: nat)
    requires a <= b
    ensures Pow256(a) <= Pow256(b)
    decreases b
  {
    if a < b { Pow256Mono(a, b - 1); }
  }
}
