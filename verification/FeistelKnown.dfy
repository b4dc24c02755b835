/** The round functions of CAST and Blowfish on simple S-boxes. */
module FeistelKnown {
  import opened NatBits
  import opened Bytes
  import opened Feistel

  // ----- small words

  lemma XorWord(a: Word, b: Word)
    ensures Xor32(a, b) == XorBits(a, b, 32)
  {
    hide XorBits;
  }

  /** Five bits. */
  lemma XorSmall(a: Word, b: Word)
    requires a < 32 && b < 32
    ensures Xor32(a, b)
         == 16 * ((a / 16 + b / 16) % 2) + 8 * ((a / 8 + b / 8) % 2) + 4 * ((a / 4 + b / 4) % 2)
            + 2 * ((a / 2 + b / 2) % 2) + (a + b) % 2
  {
    hide *;
    XorWord(a, b);
    XorNext(a, b, a / 2, b / 2, 32);
    XorNext(a / 2, b / 2, a / 4, b / 4, 31);
    XorNext(a / 4, b / 4, a / 8, b / 8, 30);
    XorNext(a / 8, b / 8, a / 16, b / 16, 29);
    XorNext(a / 16, b / 16, 0, 0, 28);
    XorBitsItself(0, 27);
  }

  lemma XorNext(a: nat, b: nat, c: nat, d: nat, k: nat)
    requires k > 0 && a / 2 == c && b / 2 == d
    ensures XorBits(a, b, k) == 2 * XorBits(c, d, k - 1) + (a + b) % 2
  {
    hide XorBits;
    XorUnfold(a, b, k);
  }

  lemma XorFromZero(x: Word)
    ensures Xor32(0, x) == x && Xor32(x, 0) == x
  {
    FourBytes();
    hide XorBits, Pow2;
    XorBitsZero(x, 32);
    XorBitsCommute(0, x, 32);
  }

  // ----- section 2.2 of RFC 2144

  ghost predicate Constant(s: Boxes, a: Word, b: Word, c: Word, d: Word) {
    forall j :: 0 <= j < 256 ==> s[0][j] == a && s[1][j] == b && s[2][j] == c && s[3][j] == d
  }

  /** Boxes of constants: the order of the operations, whatever the keys and the data. */
  lemma ConstantRounds(s: Boxes, km: Word, kr: Word, x: Word)
    requires Constant(s, 12, 10, 3, 6)
    ensures F1(s, km, kr, x) == 9 && F2(s, km, kr, x) == 3 && F3(s, km, kr, x) == 15 && BlowfishF(s, x) == 27
  {
    hide Xor32, Rotl;
    XorSmall(12, 10);
    XorSmall(5, 6);
    XorSmall(22, 3);
  }

  /** Only box m is not zero, and it is the identity. */
  ghost predicate OnlyBox(s: Boxes, m: nat)
    requires m < 4
  {
    forall i, j :: 0 <= i < 4 && 0 <= j < 256 ==> s[i][j] == if i == m then j else 0
  }

  /** Octet m of a word, the most significant first. */
  function Octet(t: Word, m: nat): byte
    requires m < 4
  {
    if m == 0 then t / 0x100_0000 else if m == 1 then t / 0x1_0000 % 256
    else if m == 2 then t / 0x100 % 256 else t % 256
  }

  /** One box at a time: the masking keys are added, combined and subtracted from, each box takes its
      own octet, and the place of the minus tells the three functions apart. */
  lemma BoxOrder(s: Boxes, m: nat, km: Word, x: Word)
    requires m < 4 && OnlyBox(s, m)
    ensures F1(s, km, 0, x) == if m == 2 then Sub(0, Octet(Add(km, x), m)) else Octet(Add(km, x), m)
    ensures F2(s, km, 0, x) == if m == 1 then Sub(0, Octet(Xor32(km, x), m)) else Octet(Xor32(km, x), m)
    ensures F3(s, km, 0, x) == if m == 3 then Sub(0, Octet(Sub(km, x), m)) else Octet(Sub(km, x), m)
    ensures BlowfishF(s, x) == Octet(x, m)
  {
    hide Xor32, Rotl, Byte0, Byte1, Byte2, Byte3, Octet;
    NoRotation(Add(km, x));
    NoRotation(Xor32(km, x));
    NoRotation(Sub(km, x));
    var t1, t2, t3 := Add(km, x), Xor32(km, x), Sub(km, x);
    Octets(t1);
    Octets(t2);
    Octets(t3);
    Octets(x);
    Nothing(Octet(t1, m));
    Nothing(Octet(t2, m));
    Nothing(Octet(t3, m));
    Nothing(Octet(x, m));
  }

  lemma Octets(t: Word)
    ensures Byte3(t) == Octet(t, 0) && Byte2(t) == Octet(t, 1) && Byte1(t) == Octet(t, 2) && Byte0(t) == Octet(t, 3)
  {
  }

  /** Zero changes nothing. */
  lemma Nothing(v: byte)
    ensures Xor32(0, v) == v == Xor32(v, 0) && Xor32(0, 0) == 0 && Add(0, v) == v == Add(v, 0) == Sub(v, 0)
    ensures Add(0, 0) == 0 == Sub(0, 0) && Add(Sub(0, v), 0) == Sub(0, v)
    ensures Xor32(Sub(0, v), 0) == Sub(0, v)
  {
    hide Xor32;
    XorFromZero(v);
    XorFromZero(0);
    XorFromZero(Sub(0, v));
  }

  lemma {:induction false} ShrSmall(x: nat, k: nat)
    requires x < Pow2(k)
    ensures Shr(x, k) == 0
    decreases k
  {
    if k > 0 {
      PowStep(k);
      ShrSmall(x / 2, k - 1);
    }
  }

  lemma RotlParts(x: Word, k: nat)
    requires k < 32
    ensures Rotl(x, k) == (Shl(x, k) + Shr(x, 32 - k)) % WORD32
  {
    hide Shl, Shr;
    assert k % 32 == k;
  }

  lemma NoRotation(x: Word)
    ensures Rotl(x, 0) == x
  {
    hide Shr, Pow2, Rotl;
    RotlParts(x, 0);
    FourBytes();
    ShrSmall(x, 32);
    assert Shl(x, 0) == x;
  }

  /** A bit moves up by the distance. */
  lemma Rotates(k: nat)
    requires k < 32
    ensures Rotl(1, k) == Pow2(k)
  {
    hide Shr, Rotl;
    RotlParts(1, k);
    BelowWord(k, 32);
    FourBytes();
    PowStep(32 - k);
    ShrSmall(1, 32 - k);
  }

  lemma {:induction false} BelowWord(k: nat, n: nat)
    requires k < n
    ensures Pow2(k) < Pow2(n)
    decreases n
  {
    PowStep(n);
    if k < n - 1 { BelowWord(k, n - 1); }
  }

  // ----- whole rounds

  /** A quad-round of CAST-256 on these boxes: which round function reaches which word. */
  lemma ConstantQuad(s: Boxes, g: Group)
    requires Constant(s, 12, 10, 3, 6)
    ensures Forward(s, g, Quad(0, 0, 0, 0)) == Quad(15, 3, 9, 9)
  {
    hide F1, F2, F3, Xor32, Constant;
    forall km: Word, kr: Word, x: Word
      ensures F1(s, km, kr, x) == 9 && F2(s, km, kr, x) == 3 && F3(s, km, kr, x) == 15
    {
      ConstantRounds(s, km, kr, x);
    }
    XorFromZero(9);
    XorFromZero(3);
    XorFromZero(15);
  }

  /** The first three rounds of CAST-128: one function each, on alternating halves. */
  lemma ConstantHalves(s: Boxes, k: Keys)
    requires Constant(s, 12, 10, 3, 6)
    ensures Rounds(s, k, 3, Pair(0, 0)) == Pair(6, 3)
  {
    hide F1, F2, F3, Xor32, Constant;
    forall km: Word, kr: Word, x: Word
      ensures F1(s, km, kr, x) == 9 && F2(s, km, kr, x) == 3 && F3(s, km, kr, x) == 15
    {
      ConstantRounds(s, km, kr, x);
    }
    XorFromZero(9);
    XorFromZero(3);
    XorSmall(9, 15);
    assert Rounds(s, k, 1, Pair(0, 0)) == Pair(9, 0);
    assert Rounds(s, k, 2, Pair(0, 0)) == Pair(9, 3);
  }

  lemma ZeroF(s: Boxes, x: Word)
    requires Constant(s, 0, 0, 0, 0)
    ensures BlowfishF(s, x) == 0
  {
    hide Xor32;
    XorFromZero(0);
  }

  /** Two rounds of Blowfish without its boxes: which key reaches which half, and the exchange at the end. */
  lemma BlowfishKeys(s: Boxes, p: seq<Word>, q: Pair)
    requires Constant(s, 0, 0, 0, 0) && |p| == 4
    ensures BlowfishCrypt(s, p, q) == Pair(Xor32(Xor32(q.r, p[1]), p[3]), Xor32(Xor32(q.l, p[0]), p[2]))
  {
    hide Xor32, BlowfishF, Constant;
    forall x: Word ensures BlowfishF(s, x) == 0 { ZeroF(s, x); }
    XorFromZero(p[1]);
    XorFromZero(p[2]);
    var start := Pair(Xor32(q.l, p[0]), q.r);
    assert BlowfishRounds(s, p, 0, start) == start;
    assert BlowfishRounds(s, p, 1, start) == Pair(start.l, Xor32(q.r, p[1]));
    assert BlowfishRounds(s, p, 2, start) == Pair(Xor32(start.l, p[2]), Xor32(q.r, p[1]));
  }
}
