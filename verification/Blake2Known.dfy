/** The tables and the block layout of BLAKE2b at the values that RFC 7693 prints. */
module Blake2Known {
  import opened NatBits
  import opened Bytes
  import opened Blake2b
  import opened Blake2Hash

  // ----- the tables

  /** x is the integer part of 2^64 times the fractional part of the square root of p, whose
      integer part is k. */
  ghost predicate RootFraction(x: Word, k: nat, p: nat) {
    var w := 0x1_0000_0000_0000_0000;
    (k * w + x) * (k * w + x) <= p * w * w < (k * w + x + 1) * (k * w + x + 1)
  }

  /** Section 2.6: the initial vector is the square roots of the first eight primes. */
  lemma InitialVector()
    ensures RootFraction(IV[0], 1, 2) && RootFraction(IV[1], 1, 3) && RootFraction(IV[2], 2, 5)
    ensures RootFraction(IV[3], 2, 7) && RootFraction(IV[4], 3, 11) && RootFraction(IV[5], 3, 13)
    ensures RootFraction(IV[6], 4, 17) && RootFraction(IV[7], 4, 19)
  {
  }

  /** A row read as sixteen hexadecimal digits. */
  function Hexadecimal(s: Permutation): nat {
    0x1_0000_0000 * Digits(s[0], s[1], s[2], s[3], s[4], s[5], s[6], s[7])
    + Digits(s[8], s[9], s[10], s[11], s[12], s[13], s[14], s[15])
  }

  function Digits(a: nat, b: nat, c: nat, d: nat, e: nat, f: nat, g: nat, h: nat): nat {
    0x1000_0000 * a + 0x100_0000 * b + 0x10_0000 * c + 0x1_0000 * d + 0x1000 * e + 0x100 * f + 0x10 * g + h
  }

  /** Section 2.7: the rows of the message schedule. */
  lemma MessageSchedule()
    ensures Hexadecimal(Sigma(0)) == 0x0123456789abcdef && Hexadecimal(Sigma(1)) == 0xea489fd61c02b753
    ensures Hexadecimal(Sigma(2)) == 0xb8c052fdae367194 && Hexadecimal(Sigma(3)) == 0x7931dcbe265a40f8
    ensures Hexadecimal(Sigma(4)) == 0x905724afe1bc683d && Hexadecimal(Sigma(5)) == 0x2c6a0b834d75fe19
    ensures Hexadecimal(Sigma(6)) == 0xc51fed4a0763928b && Hexadecimal(Sigma(7)) == 0xdb7ec13950f4862a
    ensures Hexadecimal(Sigma(8)) == 0x6fe9b308c2d714a5 && Hexadecimal(Sigma(9)) == 0xa2847615fb9e3cd0
    ensures Sigma(10) == Sigma(0) && Sigma(11) == Sigma(1)
  {
    hide Hexadecimal, Sigma;
    ScheduleA();
    ScheduleB();
    ScheduleC();
  }

  lemma ScheduleA()
    ensures Hexadecimal(Sigma(0)) == 0x0123456789abcdef && Hexadecimal(Sigma(1)) == 0xea489fd61c02b753
    ensures Hexadecimal(Sigma(2)) == 0xb8c052fdae367194 && Hexadecimal(Sigma(3)) == 0x7931dcbe265a40f8
  {
  }

  lemma ScheduleB()
    ensures Hexadecimal(Sigma(4)) == 0x905724afe1bc683d && Hexadecimal(Sigma(5)) == 0x2c6a0b834d75fe19
    ensures Hexadecimal(Sigma(6)) == 0xc51fed4a0763928b && Hexadecimal(Sigma(7)) == 0xdb7ec13950f4862a
  {
  }

  lemma ScheduleC()
    ensures Hexadecimal(Sigma(8)) == 0x6fe9b308c2d714a5 && Hexadecimal(Sigma(9)) == 0xa2847615fb9e3cd0
    ensures Sigma(10) == Sigma(0) && Sigma(11) == Sigma(1)
  {
  }

  /** Every message word is mixed in each round. */
  lemma SchedulePermutes(r: nat, i: Index)
    requires r < 12
    ensures i in Sigma(r)
  {
    if r < 4 {
      FirstRows(r, i);
    } else if r < 8 {
      MiddleRows(r, i);
    } else {
      LastRows(r, i);
    }
  }

  lemma FirstRows(r: nat, i: Index)
    requires r < 4
    ensures i in Sigma(r)
  {
  }

  lemma MiddleRows(r: nat, i: Index)
    requires 4 <= r < 8
    ensures i in Sigma(r)
  {
  }

  lemma LastRows(r: nat, i: Index)
    requires 8 <= r < 12
    ensures i in Sigma(r)
  {
  }

  // ----- exclusive or by parts

  lemma ShlStep(x: int, k: nat)
    requires k > 0
    ensures Shl(x, k) == 2 * Shl(x, k - 1)
  {
  }

  lemma HalfSum(l: nat, y: nat)
    ensures (l + 2 * y) / 2 == l / 2 + y
  {
  }

  lemma SumParity(l: nat, l': nat, y: nat, y': nat)
    ensures (l + 2 * y + (l' + 2 * y')) % 2 == (l + l') % 2
  {
  }

  /** The low and the high bits apart. */
  lemma {:induction false} XorParts(l: nat, h: nat, l': nat, h': nat, j: nat, k: nat)
    requires l < Pow2(j) && l' < Pow2(j)
    ensures XorBits(l + Shl(h, j), l' + Shl(h', j), j + k) == XorBits(l, l', j) + Shl(XorBits(h, h', k), j)
    decreases j
  {
    hide *;
    if j == 0 {
      NoLowBits(l, h, l', h', k);
    } else {
      var a, b := l + Shl(h, j), l' + Shl(h', j);
      XorUnfold(a, b, j + k);
      XorUnfold(l, l', j);
      ShlStep(h, j);
      ShlStep(h', j);
      ShlStep(XorBits(h, h', k), j);
      PowStep(j);
      HalfSum(l, Shl(h, j - 1));
      HalfSum(l', Shl(h', j - 1));
      SumParity(l, l', Shl(h, j - 1), Shl(h', j - 1));
      XorParts(l / 2, h, l' / 2, h', j - 1, k);
    }
  }

  lemma NoLowBits(l: nat, h: nat, l': nat, h': nat, k: nat)
    requires l < Pow2(0) && l' < Pow2(0)
    ensures XorBits(l + Shl(h, 0), l' + Shl(h', 0), 0 + k) == XorBits(l, l', 0) + Shl(XorBits(h, h', k), 0)
  {
    assert l == 0 && l' == 0;
    assert XorBits(l, l', 0) == 0;
  }

  /** Words without common bits are added. */
  lemma XorApart(l: Word, w: Word, h: nat)
    requires l < 0x1_0000 && h < 0x1_0000_0000_0000 && w == 0x1_0000 * h
    ensures Xor64(l, w) == l + w == Xor64(w, l)
  {
    hide *;
    XorCommutes(l, w);
    XorWord(l, w);
    Powers();
    ShlMul(h, 16);
    XorDisjoint(l, h, 16, 48);
  }

  lemma XorDisjoint(l: nat, h: nat, j: nat, k: nat)
    requires l < Pow2(j) && h < Pow2(k)
    ensures XorBits(l, Shl(h, j), j + k) == l + Shl(h, j)
  {
    hide *;
    ShlZero(j);
    XorParts(l, 0, 0, h, j, k);
    XorBitsZero(l, j);
    XorBitsCommute(0, h, k);
    XorBitsZero(h, k);
  }

  lemma XorWord(a: Word, b: Word)
    ensures Xor64(a, b) == XorBits(a, b, 64)
  {
    hide XorBits;
  }

  lemma Powers()
    ensures Pow2(16) == 0x1_0000 && Pow2(48) == 0x1_0000_0000_0000
  {
    assert Pow2(4) == 16;
    hide *;
    PowSquare(4, 16);
    PowSquare(8, 0x100);
    PowSquare(16, 0x1_0000);
    PowSum(32, 16);
  }

  lemma PowSum(a: nat, b: nat)
    ensures Pow2(a + b) == Pow2(a) * Pow2(b)
  {
    ShlShl(1, a, b);
    ShlMul(Pow2(a), b);
  }

  /** Flipping all bits. */
  lemma {:induction false} XorOnes(x: nat, k: nat)
    requires x < Pow2(k)
    ensures XorBits(Pow2(k) - 1, x, k) == Pow2(k) - 1 - x
    decreases k
  {
    hide *;
    if k == 0 {
      NoOnes(x);
    } else {
      XorUnfold(Pow2(k) - 1, x, k);
      PowStep(k);
      HalfOnes(Pow2(k - 1), x);
      XorOnes(x / 2, k - 1);
    }
  }

  lemma NoOnes(x: nat)
    requires x < Pow2(0)
    ensures XorBits(Pow2(0) - 1, x, 0) == Pow2(0) - 1 - x
  {
  }

  lemma HalfOnes(p: nat, x: nat)
    requires 0 < p && x < 2 * p
    ensures (2 * p - 1) / 2 == p - 1 && x / 2 < p && 2 * (p - 1 - x / 2) + (2 * p - 1 + x) % 2 == 2 * p - 1 - x
  {
  }

  // ----- the mix

  lemma Rotations()
    ensures Rotr32(1) == 0x1_0000_0000 && Rotr24(0x1_0000_0000) == 0x100 && Rotr16(1) == 0x1_0000_0000_0000
    ensures Rotr63(0x1_0000_0000_0000) == 0x2_0000_0000_0000 && Rotr16(0x1_0000_0101) == 0x0101_0000_0001_0000
    ensures Rotr63(0x0101_0001_0001_0100) == 0x0202_0002_0002_0200 && Rotr32(0) == 0 && Rotr24(0) == 0
  {
  }

  lemma Sums()
    ensures Add(0, 0) == 0 && Add(0, 1) == 1 && Add(1, 0x100) == 0x101 && Add(0x101, 0) == 0x101
    ensures Add(0, 0x1_0000_0000) == 0x1_0000_0000 && Add(0, 0x1_0000_0000_0000) == 0x1_0000_0000_0000
    ensures Add(0x1_0000_0000, 0x0101_0000_0001_0000) == 0x0101_0001_0001_0000
  {
  }

  lemma XorFromZero(x: Word)
    ensures Xor64(0, x) == x
  {
    hide Xor64;
    XorCommutes(0, x);
    XorWordZero(x);
  }

  /** Section 3.1 with one bit in the second message word. */
  lemma MixSecond()
    ensures Mix(Quad(0, 0, 0, 0), 0, 1) == Quad(1, 0x2_0000_0000_0000, 0x1_0000_0000_0000, 0x1_0000_0000_0000)
  {
    hide Xor64, Add, Rotr16, Rotr24, Rotr32, Rotr63;
    Rotations();
    Sums();
    XorFromZero(0);
    XorFromZero(1);
    XorFromZero(0x1_0000_0000_0000);
  }

  /** Section 3.1 with one bit in the first message word. */
  lemma MixFirst()
    ensures Mix(Quad(0, 0, 0, 0), 1, 0)
         == Quad(0x101, 0x0202_0002_0002_0200, 0x0101_0001_0001_0000, 0x0101_0000_0001_0000)
  {
    hide Xor64, Add, Rotr16, Rotr24, Rotr32, Rotr63;
    Rotations();
    Sums();
    XorFromZero(1);
    XorFromZero(0x1_0000_0000);
    XorApart(0x101, 0x1_0000_0000, 0x1_0000);
    XorApart(0x100, 0x0101_0001_0001_0000, 0x0101_0001_0001);
  }

  // ----- the compression

  /** The states before, between and after the rounds, each through its own row. */
  ghost predicate Trace(v: seq<Work>, m: Work) {
    hide Diagonals, Columns, Row;
    |v| == 13 && forall r: nat :: r < 12 ==> v[r + 1] == Diagonals(Columns(v[r], Row(m, r)), Row(m, r))
  }

  /** Section 3.2: twelve rounds from the start vector, and the halves of the last vector combined with the
      chaining words. */
  lemma TwelveRounds(h: State, m: Work, tf: Tail) returns (v: seq<Work>)
    ensures Trace(v, m) && v[0] == Start(h, tf)
    ensures forall i :: 0 <= i < 8 ==> Compress(h, m, tf)[i] == Xor64(h[i], Xor64(v[12][i], v[12][i + 8]))
  {
    hide Diagonals, Columns, Row, Start, Xor64;
    v := seq(13, r requires 0 <= r < 13 => Rounds(Start(h, tf), m, r));
  }

  /** Appendix A: the first chaining word for an unkeyed digest of 64 bytes. */
  lemma AbcState()
    ensures StartState(ParameterBlock(64, 0, [], []))[0] == 0x6a09e667f2bdc948
  {
    hide Xor64, StartState, ParameterBlock;
    PlainStart(64, 0);
    ParameterXor(0x6a09e667f3bcc908, 0x0101_0040);
  }

  /** Appendix A: the second half of the start vector for the three bytes "abc". */
  lemma AbcStart(h: State)
    ensures Start(h, CounterTail(3, true, false))
         == h + IV[..4] + [0x510e527fade682d2, 0x9b05688c2b3e6c1f, 0xe07c265404be4294, 0x5be0cd19137e2179]
  {
    hide Xor64;
    CounterXor(3, 0x510e527fade682d1);
    XorFromZero(0x9b05688c2b3e6c1f);
    FlagXor(0x1f83d9abfb41bd6b);
    XorFromZero(0x5be0cd19137e2179);
  }

  /** The parameter word of an unkeyed 64-byte digest has the bits 6, 16 and 24. */
  lemma ParameterXor(a: Word, b: Word)
    requires a == 0x6a09e667f3bcc908 && b == 0x0101_0040
    ensures Xor64(a, b) == 0x6a09e667f2bdc948
  {
    hide *;
    XorWord(a, b);
    Room();
    XorShift(0x8, 0x1a827999fcef324, 0x40401, 6, 58, 0x40);
    XorUnfold(0x1a827999fcef324, 0x40401, 58);
    XorShift(0x192, 0x6a09e667f3bc, 0x101, 9, 48, 0x200);
    XorUnfold(0x6a09e667f3bc, 0x101, 48);
    XorShift(0x5e, 0x6a09e667f3, 0x1, 7, 40, 0x80);
    XorUnfold(0x6a09e667f3, 0x1, 40);
    XorBitsZero(0x3504f333f9, 39);
  }

  lemma Room()
    ensures Pow2(6) == 64 && Pow2(7) == 128 && Pow2(9) == 512 && Pow2(39) == 0x8000000000
  {
    assert Pow2(6) == 64 && Pow2(7) == 128;
    PowSum(7, 2);
    PowSum(7, 7);
    PowSum(14, 14);
    PowSum(28, 7);
    PowSum(35, 4);
  }

  lemma XorShift(l: nat, h: nat, h': nat, j: nat, k: nat, p: nat)
    requires p == Pow2(j) && l < p
    ensures XorBits(l + p * h, p * h', j + k) == l + p * XorBits(h, h', k)
  {
    hide *;
    XorParts(l, h, 0, h', j, k);
    XorBitsZero(l, j);
    ShlMul(h, j);
    ShlMul(h', j);
    ShlMul(XorBits(h, h', k), j);
  }

  lemma FlagXor(x: Word)
    ensures Xor64(LWORD - 1, x) == LWORD - 1 - x
  {
    WordBits();
    XorWord(LWORD - 1, x);
    hide Xor64, XorBits, Pow2;
    XorOnes(x, 64);
  }

  lemma CounterXor(a: Word, b: Word)
    requires a == 3 && b == 0x510e527fade682d1
    ensures Xor64(a, b) == 0x510e527fade682d2
  {
    hide *;
    XorWord(a, b);
    QuarterWord();
    LowBits(a, b, 64);
  }

  lemma QuarterWord()
    ensures Pow2(62) == 0x4000_0000_0000_0000
  {
    HalfWord();
    PowStep(63);
  }

  lemma Quarters(a: nat, b: nat)
    requires a < 4
    ensures a / 2 / 2 == 0 && b / 2 / 2 == b / 4
  {
  }

  /** A two-bit number. */
  lemma LowBits(a: nat, b: nat, k: nat)
    requires a < 4 && k >= 2 && b / 4 < Pow2(k - 2)
    ensures XorBits(a, b, k) == 4 * (b / 4) + 2 * ((a / 2 + b / 2) % 2) + (a + b) % 2
  {
    hide *;
    XorUnfold(a, b, k);
    XorUnfold(a / 2, b / 2, k - 1);
    Quarters(a, b);
    XorBitsCommute(0, b / 4, k - 2);
    XorBitsZero(b / 4, k - 2);
  }

  // ----- the layout of parameters, blocks and digests

  /** The fields of the parameter block by offset: sizes, fan-out and depth of a sequential hash, salt and
      personalization; everything else is zero. */
  lemma ParameterLayout(digestSize: nat, keyLength: nat, salt: seq<byte>, personalization: seq<byte>, i: nat)
    requires digestSize <= 64 && keyLength <= 64 && |salt| <= 16 && |personalization| <= 16 && i < 64
    ensures ParameterBlock(digestSize, keyLength, salt, personalization)[i]
         == if i == 0 then digestSize
            else if i == 1 then keyLength
            else if i == 2 || i == 3 then 1
            else if 32 <= i < 32 + |salt| then salt[i - 32]
            else if 48 <= i < 48 + |personalization| then personalization[i - 48]
            else 0
  {
  }

  /** The words of a block are little-endian, in order. */
  lemma {:induction false} WordOrder(block: seq<byte>, n: nat, i: nat)
    requires |block| == 128 && i < n <= 16
    ensures FirstWords(block, n)[i] == FromBytes(block[8 * i..8 * i + 8])
  {
    hide FromBytes;
    if i < n - 1 { WordOrder(block, n - 1, i); }
  }

  /** Appendix A: the first word of the block for "abc". */
  lemma LittleEndian()
    ensures FromBytes([0x61, 0x62, 0x63, 0, 0, 0, 0, 0]) == 0x636261
  {
  }

  /** Appendix A: the first bytes of the digest of "abc" are those of its first word. */
  lemma DigestOrder(h: State)
    requires h[0] == 0x0d4d1c983fa580ba
    ensures DigestBytes(h)[..8] == [0xba, 0x80, 0xa5, 0x3f, 0x98, 0x1c, 0x4d, 0x0d]
  {
    hide ToBytes;
    FirstBytes(h[0]);
    assert DigestBytes(h)[..8] == ToBytes(h[0]);
  }

  lemma FirstBytes(x: Word)
    requires x == 0x0d4d1c983fa580ba
    ensures ToBytes(x) == [0xba, 0x80, 0xa5, 0x3f, 0x98, 0x1c, 0x4d, 0x0d]
  {
    assert x / 256 == 0x0d4d1c983fa580;
    assert x / 256 / 256 == 0x0d4d1c983fa5;
    assert x / 256 / 256 / 256 == 0x0d4d1c983f;
    assert x / 256 / 256 / 256 / 256 == 0x0d4d1c98;
    assert x / 256 / 256 / 256 / 256 / 256 == 0x0d4d1c;
    assert x / 256 / 256 / 256 / 256 / 256 / 256 == 0x0d4d;
  }

  /** The two compressions of a message of one full block and a part of another, with their counts and flags. */
  ghost function TwoCompressions(h: State, a: seq<byte>, b: seq<byte>): State
    requires |a| == 128 && 0 < |b| <= 128
  {
    hide Compress, MessageWords, Zeros;
    Compress(Compress(h, MessageWords(a), Tail(128, 0, 0, 0)), MessageWords(b + Zeros(128 - |b|)),
             Tail(128 + |b|, 0, 0xffff_ffff_ffff_ffff, 0))
  }

  lemma TwoBlocks(h: State, a: seq<byte>, b: seq<byte>)
    requires |a| == 128 && 0 < |b| <= 128
    ensures OneShot(h, a + b, 0, false) == TwoCompressions(h, a, b)
  {
    hide Compress, MessageWords, Zeros;
    assert (a + b)[..128] == a && (a + b)[128..] == b;
  }

  /** No data: one block of zeros, and the count is zero. */
  lemma NoData(h: State)
    ensures OneShot(h, [], 0, false) == Compress(h, MessageWords(Zeros(128)), Tail(0, 0, 0xffff_ffff_ffff_ffff, 0))
  {
    hide Compress, MessageWords, Zeros;
    assert [] + Zeros(128) == Zeros(128);
  }
}
