/** The compression function of BLAKE2b: section 3 of RFC 7693, the scalar rounds of
    blake2.cpp and the two-lane registers of blake2b_simd.cpp. */
module Blake2b {
  import opened NatBits
  import opened Bytes

  // ----- words

  type Word = x: nat | x < LWORD

  function Add(a: Word, b: Word): Word { (a + b) % LWORD }

  function Xor64(a: Word, b: Word): Word {
    WordBits();
    XorBits(a, b, 64)
  }

  /** `rotrConstant` for the four distances of BLAKE2b */
  function Rotr16(x: Word): Word { x / 0x1_0000 + x % 0x1_0000 * 0x1_0000_0000_0000 }
  function Rotr24(x: Word): Word { x / 0x100_0000 + x % 0x100_0000 * 0x100_0000_0000 }
  function Rotr32(x: Word): Word { x / 0x1_0000_0000 + x % 0x1_0000_0000 * 0x1_0000_0000 }
  function Rotr63(x: Word): Word { x / 0x8000_0000_0000_0000 + x % 0x8000_0000_0000_0000 * 2 }

  lemma PowSquare(k: nat, p: nat)
    requires Pow2(k) == p
    ensures Pow2(k + k) == p * p
  {
    ShlShl(1, k, k);
    ShlMul(p, k);
  }

  lemma WordBits()
    ensures Pow2(64) == LWORD
  {
    assert Pow2(4) == 16;
    hide *;
    PowSquare(4, 16);
    PowSquare(8, 0x100);
    PowSquare(16, 0x1_0000);
    PowSquare(32, 0x1_0000_0000);
  }

  lemma AddSwap(a: Word, b: Word, x: Word)
    ensures Add(Add(a, x), b) == Add(Add(a, b), x)
  {
    AddMod(a + x, b);
    AddMod(a + b, x);
  }

  lemma AddMod(u: nat, v: nat)
    ensures (u % LWORD + v) % LWORD == (u + v) % LWORD
  {
  }

  lemma XorCommutes(a: Word, b: Word)
    ensures Xor64(a, b) == Xor64(b, a)
  {
    hide XorBits;
    XorBitsCommute(a, b, 64);
  }

  // ----- section 3 of RFC 7693

  type Index = i: nat | i < 16
  type Permutation = s: seq<Index> | |s| == 16 witness [0, 1, 2, 3, 4, 5, 6, 7, 8, 9, 10, 11, 12, 13, 14, 15]

  /** `BLAKE2B_SIGMA`: the twelve rows; the last two repeat the first two. */
  function Sigma(r: nat): Permutation
    requires r < 12
  {
    match r
    case 0 => [0, 1, 2, 3, 4, 5, 6, 7, 8, 9, 10, 11, 12, 13, 14, 15]
    case 1 => [14, 10, 4, 8, 9, 15, 13, 6, 1, 12, 0, 2, 11, 7, 5, 3]
    case 2 => [11, 8, 12, 0, 5, 2, 15, 13, 10, 14, 3, 6, 7, 1, 9, 4]
    case 3 => [7, 9, 3, 1, 13, 12, 11, 14, 2, 6, 5, 10, 4, 0, 15, 8]
    case 4 => [9, 0, 5, 7, 2, 4, 10, 15, 14, 1, 11, 12, 6, 8, 3, 13]
    case 5 => [2, 12, 6, 10, 0, 11, 8, 3, 4, 13, 7, 5, 15, 14, 1, 9]
    case 6 => [12, 5, 1, 15, 14, 13, 4, 10, 0, 7, 6, 3, 9, 2, 8, 11]
    case 7 => [13, 11, 7, 14, 12, 1, 3, 9, 5, 0, 15, 4, 8, 6, 2, 10]
    case 8 => [6, 15, 14, 9, 11, 3, 0, 8, 12, 2, 13, 7, 1, 4, 10, 5]
    case 9 => [10, 2, 8, 4, 7, 6, 1, 5, 15, 11, 9, 14, 3, 12, 13, 0]
    case 10 => [0, 1, 2, 3, 4, 5, 6, 7, 8, 9, 10, 11, 12, 13, 14, 15]
    case _ => [14, 10, 4, 8, 9, 15, 13, 6, 1, 12, 0, 2, 11, 7, 5, 3]
  }

  datatype Quad = Quad(a: Word, b: Word, c: Word, d: Word)

  /** Section 3.1: the four words of a mix, in two halves. */
  function Mix(q: Quad, x: Word, y: Word): Quad { Mix2(Mix1(q, x), y) }

  function Mix1(q: Quad, x: Word): Quad {
    var a := Add(Add(q.a, q.b), x);
    var d := Rotr32(Xor64(q.d, a));
    var c := Add(q.c, d);
    Quad(a, Rotr24(Xor64(q.b, c)), c, d)
  }

  function Mix2(q: Quad, y: Word): Quad {
    var a := Add(Add(q.a, q.b), y);
    var d := Rotr16(Xor64(q.d, a));
    var c := Add(q.c, d);
    Quad(a, Rotr63(Xor64(q.b, c)), c, d)
  }

  type Work = v: seq<Word> | |v| == 16 witness [0, 0, 0, 0, 0, 0, 0, 0, 0, 0, 0, 0, 0, 0, 0, 0]

  function G(v: Work, a: nat, b: nat, c: nat, d: nat, x: Word, y: Word): Work
    requires a < 16 && b < 16 && c < 16 && d < 16
  {
    var q := Mix(Quad(v[a], v[b], v[c], v[d]), x, y);
    v[a := q.a][b := q.b][c := q.c][d := q.d]
  }

  /** Section 3.2: one round, columns and then diagonals, with the words of a message row. */
  function Columns(v: Work, s: Work): Work {
    G(G(G(G(v, 0, 4, 8, 12, s[0], s[1]), 1, 5, 9, 13, s[2], s[3]), 2, 6, 10, 14, s[4], s[5]), 3, 7, 11, 15, s[6], s[7])
  }

  function Diagonals(v: Work, s: Work): Work {
    G(G(G(G(v, 0, 5, 10, 15, s[8], s[9]), 1, 6, 11, 12, s[10], s[11]), 2, 7, 8, 13, s[12], s[13]),
      3, 4, 9, 14, s[14], s[15])
  }

  /** The message words in the order of a round. */
  function Row(m: Work, r: nat): Work
    requires r < 12
  {
    var p := Sigma(r);
    [m[p[0]], m[p[1]], m[p[2]], m[p[3]], m[p[4]], m[p[5]], m[p[6]], m[p[7]],
     m[p[8]], m[p[9]], m[p[10]], m[p[11]], m[p[12]], m[p[13]], m[p[14]], m[p[15]]]
  }

  function Rounds(v: Work, m: Work, n: nat): Work
    requires n <= 12
  {
    if n == 0 then v else Diagonals(Columns(Rounds(v, m, n - 1), Row(m, n - 1)), Row(m, n - 1))
  }

  type State = h: seq<Word> | |h| == 8 witness [0, 0, 0, 0, 0, 0, 0, 0]

  const IV: State := [0x6a09e667f3bcc908, 0xbb67ae8584caa73b, 0x3c6ef372fe94f82b, 0xa54ff53a5f1d36f1,
                      0x510e527fade682d1, 0x9b05688c2b3e6c1f, 0x1f83d9abfb41bd6b, 0x5be0cd19137e2179]

  /** The counter and the finalization flags: t[0], t[1], f[0], f[1]. */
  datatype Tail = Tail(t0: Word, t1: Word, f0: Word, f1: Word)

  function Start(h: State, tf: Tail): Work {
    h + IV[..4] + [Xor64(tf.t0, IV[4]), Xor64(tf.t1, IV[5]), Xor64(tf.f0, IV[6]), Xor64(tf.f1, IV[7])]
  }

  function Finish(h: State, v: Work): State {
    seq(8, i requires 0 <= i < 8 => Xor64(h[i], Xor64(v[i], v[i + 8])))
  }

  /** F of section 3.2. */
  function Compress(h: State, m: Work, tf: Tail): State {
    Finish(h, Rounds(Start(h, tf), m, 12))
  }

  // ----- two-lane registers

  datatype Xmm = Xmm(lo: Word, hi: Word)

  function UnpackLo(a: Xmm, b: Xmm): Xmm { Xmm(a.lo, b.lo) }
  function UnpackHi(a: Xmm, b: Xmm): Xmm { Xmm(a.hi, b.hi) }
  /** `_mm_alignr_epi8(a, b, 8)` */
  function AlignR8(a: Xmm, b: Xmm): Xmm { Xmm(b.hi, a.lo) }
  /** `_mm_blend_epi16(a, b, 0xF0)` */
  function BlendF0(a: Xmm, b: Xmm): Xmm { Xmm(a.lo, b.hi) }
  /** `_mm_shuffle_epi32(a, _MM_SHUFFLE(1,0,3,2))` */
  function SwapHalves(a: Xmm): Xmm { Xmm(a.hi, a.lo) }
  function AddEpi64(a: Xmm, b: Xmm): Xmm { Xmm(Add(a.lo, b.lo), Add(a.hi, b.hi)) }
  function XorSi128(a: Xmm, b: Xmm): Xmm { Xmm(Xor64(a.lo, b.lo), Xor64(a.hi, b.hi)) }

  type Lane = b: seq<byte> | |b| == 8 witness [0, 0, 0, 0, 0, 0, 0, 0]

  /** The bytes of a lane, least significant first. */
  function ToBytes(x: Word): Lane {
    var x1 := x / 256;
    var x2 := x1 / 256;
    var x3 := x2 / 256;
    var x4 := x3 / 256;
    var x5 := x4 / 256;
    var x6 := x5 / 256;
    [x % 256, x1 % 256, x2 % 256, x3 % 256, x4 % 256, x5 % 256, x6 % 256, x6 / 256]
  }

  function Packed(b0: nat, b1: nat, b2: nat, b3: nat, b4: nat, b5: nat, b6: nat, b7: nat): nat {
    b0 + 0x100 * b1 + 0x1_0000 * b2 + 0x100_0000 * b3
    + 0x1_0000_0000 * b4 + 0x100_0000_0000 * b5 + 0x1_0000_0000_0000 * b6 + 0x100_0000_0000_0000 * b7
  }

  function FromBytes(b: Lane): Word {
    Packed(b[0], b[1], b[2], b[3], b[4], b[5], b[6], b[7])
  }

  /** `_mm_shuffle_epi8` on one lane: byte j comes from byte s[j]. */
  function ShuffleBytes(x: Word, s: seq<nat>): Word
    requires |s| == 8 && forall i :: 0 <= i < 8 ==> s[i] < 8
  {
    var b := ToBytes(x);
    FromBytes([b[s[0]], b[s[1]], b[s[2]], b[s[3]], b[s[4]], b[s[5]], b[s[6]], b[s[7]]])
  }

  const R16: seq<nat> := [2, 3, 4, 5, 6, 7, 0, 1]
  const R24: seq<nat> := [3, 4, 5, 6, 7, 0, 1, 2]

  /** The four rotations of `MM_ROTI_EPI64` */
  function Roti32(x: Xmm): Xmm { Xmm(SwapWords(x.lo), SwapWords(x.hi)) }
  function Roti24(x: Xmm): Xmm { Xmm(ShuffleBytes(x.lo, R24), ShuffleBytes(x.hi, R24)) }
  function Roti16(x: Xmm): Xmm { Xmm(ShuffleBytes(x.lo, R16), ShuffleBytes(x.hi, R16)) }
  function Roti63(x: Xmm): Xmm { XorSi128(Srli63(x), AddEpi64(x, x)) }

  function Srli63(x: Xmm): Xmm { Xmm(x.lo / 0x8000_0000_0000_0000, x.hi / 0x8000_0000_0000_0000) }

  /** `_mm_shuffle_epi32` with `_MM_SHUFFLE(2,3,0,1)` on one lane */
  function SwapWords(x: Word): Word {
    var low, high := x % 0x1_0000_0000, x / 0x1_0000_0000;
    high + 0x1_0000_0000 * low
  }

  lemma BytesOfWord(x: Word)
    ensures FromBytes(ToBytes(x)) == x
  {
  }

  lemma PackedQuotients(b0: nat, b1: nat, b2: nat, b3: nat, b4: nat, b5: nat, b6: nat, b7: nat)
    requires b0 < 256 && b1 < 256 && b2 < 256
    ensures var x := Packed(b0, b1, b2, b3, b4, b5, b6, b7);
            && x / 0x1_0000 + x % 0x1_0000 * 0x1_0000_0000_0000 == Packed(b2, b3, b4, b5, b6, b7, b0, b1)
            && x / 0x100_0000 + x % 0x100_0000 * 0x100_0000_0000 == Packed(b3, b4, b5, b6, b7, b0, b1, b2)
  {
    var x := Packed(b0, b1, b2, b3, b4, b5, b6, b7);
    var low2, low3 := b0 + 0x100 * b1, b0 + 0x100 * b1 + 0x1_0000 * b2;
    EuclidUnique(x, 0x1_0000,
                 b2 + 0x100 * b3 + 0x1_0000 * b4 + 0x100_0000 * b5 + 0x1_0000_0000 * b6 + 0x100_0000_0000 * b7, low2);
    EuclidUnique(x, 0x100_0000, b3 + 0x100 * b4 + 0x1_0000 * b5 + 0x100_0000 * b6 + 0x1_0000_0000 * b7, low3);
  }

  /** The byte shuffles and the shift with an addition rotate. */
  lemma ShufflesRotate(x: Word)
    ensures SwapWords(x) == Rotr32(x) && ShuffleBytes(x, R24) == Rotr24(x) && ShuffleBytes(x, R16) == Rotr16(x)
  {
    hide Packed, ToBytes;
    BytesOfWord(x);
    var b := ToBytes(x);
    PackedQuotients(b[0], b[1], b[2], b[3], b[4], b[5], b[6], b[7]);
  }

  lemma Shift63Rotates(x: Word)
    ensures Xor64(x / 0x8000_0000_0000_0000, Add(x, x)) == Rotr63(x)
  {
    hide XorBits;
    var a, b := x / 0x8000_0000_0000_0000, Add(x, x);
    assert b == x % 0x8000_0000_0000_0000 * 2;
    XorLowBit(a, b / 2);
  }

  lemma XorLowBit(a: nat, y: nat)
    requires a <= 1 && y < 0x8000_0000_0000_0000
    ensures XorBits(a, 2 * y, 64) == a + 2 * y
  {
    XorUnfold(a, 2 * y, 64);
    hide *;
    HalfWord();
    XorBitsCommute(0, y, 63);
    XorBitsZero(y, 63);
    EvenHalf(a, y);
  }

  lemma HalfWord()
    ensures Pow2(63) == 0x8000_0000_0000_0000
  {
    WordBits();
    assert Pow2(64) == 2 * Pow2(63);
  }

  lemma EvenHalf(a: nat, y: nat)
    requires a <= 1
    ensures a / 2 == 0 && 2 * y / 2 == y && (a + 2 * y) % 2 == a
  {
  }

  // ----- the compression on registers

  /** The register `m0` to `m7` of the message: two words each. */
  function Reg(m: Work, i: nat): Xmm
    requires i < 8
  {
    Xmm(m[2 * i], m[2 * i + 1])
  }

  /** `BLAKE2B_LOAD_MSG_r_k` */
  function LoadMsg(m: Work, r: nat, k: nat): (Xmm, Xmm)
    requires r < 12 && 1 <= k <= 4
  {
    match r
    case 0 =>
      if k == 1 then (UnpackLo(Reg(m, 0), Reg(m, 1)), UnpackLo(Reg(m, 2), Reg(m, 3)))
      else if k == 2 then (UnpackHi(Reg(m, 0), Reg(m, 1)), UnpackHi(Reg(m, 2), Reg(m, 3)))
      else if k == 3 then (UnpackLo(Reg(m, 4), Reg(m, 5)), UnpackLo(Reg(m, 6), Reg(m, 7)))
      else (UnpackHi(Reg(m, 4), Reg(m, 5)), UnpackHi(Reg(m, 6), Reg(m, 7)))
    case 1 =>
      if k == 1 then (UnpackLo(Reg(m, 7), Reg(m, 2)), UnpackHi(Reg(m, 4), Reg(m, 6)))
      else if k == 2 then (UnpackLo(Reg(m, 5), Reg(m, 4)), AlignR8(Reg(m, 3), Reg(m, 7)))
      else if k == 3 then (SwapHalves(Reg(m, 0)), UnpackHi(Reg(m, 5), Reg(m, 2)))
      else (UnpackLo(Reg(m, 6), Reg(m, 1)), UnpackHi(Reg(m, 3), Reg(m, 1)))
    case 2 =>
      if k == 1 then (AlignR8(Reg(m, 6), Reg(m, 5)), UnpackHi(Reg(m, 2), Reg(m, 7)))
      else if k == 2 then (UnpackLo(Reg(m, 4), Reg(m, 0)), BlendF0(Reg(m, 1), Reg(m, 6)))
      else if k == 3 then (BlendF0(Reg(m, 5), Reg(m, 1)), UnpackHi(Reg(m, 3), Reg(m, 4)))
      else (UnpackLo(Reg(m, 7), Reg(m, 3)), AlignR8(Reg(m, 2), Reg(m, 0)))
    case 3 =>
      if k == 1 then (UnpackHi(Reg(m, 3), Reg(m, 1)), UnpackHi(Reg(m, 6), Reg(m, 5)))
      else if k == 2 then (UnpackHi(Reg(m, 4), Reg(m, 0)), UnpackLo(Reg(m, 6), Reg(m, 7)))
      else if k == 3 then (BlendF0(Reg(m, 1), Reg(m, 2)), BlendF0(Reg(m, 2), Reg(m, 7)))
      else (UnpackLo(Reg(m, 3), Reg(m, 5)), UnpackLo(Reg(m, 0), Reg(m, 4)))
    case 4 =>
      if k == 1 then (UnpackHi(Reg(m, 4), Reg(m, 2)), UnpackLo(Reg(m, 1), Reg(m, 5)))
      else if k == 2 then (BlendF0(Reg(m, 0), Reg(m, 3)), BlendF0(Reg(m, 2), Reg(m, 7)))
      else if k == 3 then (BlendF0(Reg(m, 7), Reg(m, 5)), BlendF0(Reg(m, 3), Reg(m, 1)))
      else (AlignR8(Reg(m, 6), Reg(m, 0)), BlendF0(Reg(m, 4), Reg(m, 6)))
    case 5 =>
      if k == 1 then (UnpackLo(Reg(m, 1), Reg(m, 3)), UnpackLo(Reg(m, 0), Reg(m, 4)))
      else if k == 2 then (UnpackLo(Reg(m, 6), Reg(m, 5)), UnpackHi(Reg(m, 5), Reg(m, 1)))
      else if k == 3 then (BlendF0(Reg(m, 2), Reg(m, 3)), UnpackHi(Reg(m, 7), Reg(m, 0)))
      else (UnpackHi(Reg(m, 6), Reg(m, 2)), BlendF0(Reg(m, 7), Reg(m, 4)))
    case 6 =>
      if k == 1 then (BlendF0(Reg(m, 6), Reg(m, 0)), UnpackLo(Reg(m, 7), Reg(m, 2)))
      else if k == 2 then (UnpackHi(Reg(m, 2), Reg(m, 7)), AlignR8(Reg(m, 5), Reg(m, 6)))
      else if k == 3 then (UnpackLo(Reg(m, 0), Reg(m, 3)), SwapHalves(Reg(m, 4)))
      else (UnpackHi(Reg(m, 3), Reg(m, 1)), BlendF0(Reg(m, 1), Reg(m, 5)))
    case 7 =>
      if k == 1 then (UnpackHi(Reg(m, 6), Reg(m, 3)), BlendF0(Reg(m, 6), Reg(m, 1)))
      else if k == 2 then (AlignR8(Reg(m, 7), Reg(m, 5)), UnpackHi(Reg(m, 0), Reg(m, 4)))
      else if k == 3 then (UnpackHi(Reg(m, 2), Reg(m, 7)), UnpackLo(Reg(m, 4), Reg(m, 1)))
      else (UnpackLo(Reg(m, 0), Reg(m, 2)), UnpackLo(Reg(m, 3), Reg(m, 5)))
    case 8 =>
      if k == 1 then (UnpackLo(Reg(m, 3), Reg(m, 7)), AlignR8(Reg(m, 0), Reg(m, 5)))
      else if k == 2 then (UnpackHi(Reg(m, 7), Reg(m, 4)), AlignR8(Reg(m, 4), Reg(m, 1)))
      else if k == 3 then (Reg(m, 6), AlignR8(Reg(m, 5), Reg(m, 0)))
      else (BlendF0(Reg(m, 1), Reg(m, 3)), Reg(m, 2))
    case 9 =>
      if k == 1 then (UnpackLo(Reg(m, 5), Reg(m, 4)), UnpackHi(Reg(m, 3), Reg(m, 0)))
      else if k == 2 then (UnpackLo(Reg(m, 1), Reg(m, 2)), BlendF0(Reg(m, 3), Reg(m, 2)))
      else if k == 3 then (UnpackHi(Reg(m, 7), Reg(m, 4)), UnpackHi(Reg(m, 1), Reg(m, 6)))
      else (AlignR8(Reg(m, 7), Reg(m, 5)), UnpackLo(Reg(m, 6), Reg(m, 0)))
    case 10 =>
      if k == 1 then (UnpackLo(Reg(m, 0), Reg(m, 1)), UnpackLo(Reg(m, 2), Reg(m, 3)))
      else if k == 2 then (UnpackHi(Reg(m, 0), Reg(m, 1)), UnpackHi(Reg(m, 2), Reg(m, 3)))
      else if k == 3 then (UnpackLo(Reg(m, 4), Reg(m, 5)), UnpackLo(Reg(m, 6), Reg(m, 7)))
      else (UnpackHi(Reg(m, 4), Reg(m, 5)), UnpackHi(Reg(m, 6), Reg(m, 7)))
    case _ =>
      if k == 1 then (UnpackLo(Reg(m, 7), Reg(m, 2)), UnpackHi(Reg(m, 4), Reg(m, 6)))
      else if k == 2 then (UnpackLo(Reg(m, 5), Reg(m, 4)), AlignR8(Reg(m, 3), Reg(m, 7)))
      else if k == 3 then (SwapHalves(Reg(m, 0)), UnpackHi(Reg(m, 5), Reg(m, 2)))
      else (UnpackLo(Reg(m, 6), Reg(m, 1)), UnpackHi(Reg(m, 3), Reg(m, 1)))
  }

  datatype Rows = Rows(r1l: Xmm, r1h: Xmm, r2l: Xmm, r2h: Xmm, r3l: Xmm, r3h: Xmm, r4l: Xmm, r4h: Xmm)

  /** `BLAKE2B_G1` */
  function G1(s: Rows, b0: Xmm, b1: Xmm): Rows {
    var r1l := AddEpi64(AddEpi64(s.r1l, b0), s.r2l);
    var r1h := AddEpi64(AddEpi64(s.r1h, b1), s.r2h);
    var r4l := Roti32(XorSi128(s.r4l, r1l));
    var r4h := Roti32(XorSi128(s.r4h, r1h));
    var r3l := AddEpi64(s.r3l, r4l);
    var r3h := AddEpi64(s.r3h, r4h);
    Rows(r1l, r1h, Roti24(XorSi128(s.r2l, r3l)), Roti24(XorSi128(s.r2h, r3h)), r3l, r3h, r4l, r4h)
  }

  /** `BLAKE2B_G2` */
  function G2(s: Rows, b0: Xmm, b1: Xmm): Rows {
    var r1l := AddEpi64(AddEpi64(s.r1l, b0), s.r2l);
    var r1h := AddEpi64(AddEpi64(s.r1h, b1), s.r2h);
    var r4l := Roti16(XorSi128(s.r4l, r1l));
    var r4h := Roti16(XorSi128(s.r4h, r1h));
    var r3l := AddEpi64(s.r3l, r4l);
    var r3h := AddEpi64(s.r3h, r4h);
    Rows(r1l, r1h, Roti63(XorSi128(s.r2l, r3l)), Roti63(XorSi128(s.r2h, r3h)), r3l, r3h, r4l, r4h)
  }

  /** `BLAKE2B_DIAGONALIZE` */
  function Diagonalize(s: Rows): Rows {
    Rows(s.r1l, s.r1h,
         UnpackHi(s.r2l, UnpackLo(s.r2h, s.r2h)), UnpackHi(s.r2h, UnpackLo(s.r2l, s.r2l)),
         s.r3h, s.r3l,
         UnpackHi(s.r4h, UnpackLo(s.r4l, s.r4l)), UnpackHi(s.r4l, UnpackLo(s.r4h, s.r4h)))
  }

  /** `BLAKE2B_UNDIAGONALIZE` */
  function Undiagonalize(s: Rows): Rows {
    Rows(s.r1l, s.r1h,
         UnpackHi(s.r2h, UnpackLo(s.r2l, s.r2l)), UnpackHi(s.r2l, UnpackLo(s.r2h, s.r2h)),
         s.r3h, s.r3l,
         UnpackHi(s.r4l, UnpackLo(s.r4h, s.r4h)), UnpackHi(s.r4h, UnpackLo(s.r4l, s.r4l)))
  }

  /** The sixteen words in the rows. */
  function Words(s: Rows): Work {
    [s.r1l.lo, s.r1l.hi, s.r1h.lo, s.r1h.hi, s.r2l.lo, s.r2l.hi, s.r2h.lo, s.r2h.hi,
     s.r3l.lo, s.r3l.hi, s.r3h.lo, s.r3h.hi, s.r4l.lo, s.r4l.hi, s.r4h.lo, s.r4h.hi]
  }

  /** The words of the rows in one lane. */
  function Lane0(s: Rows): Quad { Quad(s.r1l.lo, s.r2l.lo, s.r3l.lo, s.r4l.lo) }
  function Lane1(s: Rows): Quad { Quad(s.r1l.hi, s.r2l.hi, s.r3l.hi, s.r4l.hi) }
  function Lane2(s: Rows): Quad { Quad(s.r1h.lo, s.r2h.lo, s.r3h.lo, s.r4h.lo) }
  function Lane3(s: Rows): Quad { Quad(s.r1h.hi, s.r2h.hi, s.r3h.hi, s.r4h.hi) }

  function FromLanes(q0: Quad, q1: Quad, q2: Quad, q3: Quad): Rows {
    Rows(Xmm(q0.a, q1.a), Xmm(q2.a, q3.a), Xmm(q0.b, q1.b), Xmm(q2.b, q3.b),
         Xmm(q0.c, q1.c), Xmm(q2.c, q3.c), Xmm(q0.d, q1.d), Xmm(q2.d, q3.d))
  }

  lemma RotiLanes(x: Xmm)
    ensures Roti32(x) == Xmm(Rotr32(x.lo), Rotr32(x.hi)) && Roti24(x) == Xmm(Rotr24(x.lo), Rotr24(x.hi))
    ensures Roti16(x) == Xmm(Rotr16(x.lo), Rotr16(x.hi)) && Roti63(x) == Xmm(Rotr63(x.lo), Rotr63(x.hi))
  {
    hide SwapWords, ShuffleBytes, Rotr16, Rotr24, Rotr32, Rotr63, Add, Xor64;
    ShufflesRotate(x.lo);
    ShufflesRotate(x.hi);
    Shift63Rotates(x.lo);
    Shift63Rotates(x.hi);
  }

  lemma SumLanes(a: Xmm, b: Xmm, x: Xmm)
    ensures AddEpi64(AddEpi64(a, x), b) == Xmm(Add(Add(a.lo, b.lo), x.lo), Add(Add(a.hi, b.hi), x.hi))
  {
    hide Add;
    AddSwap(a.lo, b.lo, x.lo);
    AddSwap(a.hi, b.hi, x.hi);
  }

  /** The two halves of a mix, on four lanes at once. */
  lemma G1Lanes(s: Rows, b0: Xmm, b1: Xmm)
    ensures G1(s, b0, b1)
         == FromLanes(Mix1(Lane0(s), b0.lo), Mix1(Lane1(s), b0.hi), Mix1(Lane2(s), b1.lo), Mix1(Lane3(s), b1.hi))
  {
    hide Add, Xor64, Rotr24, Rotr32, Roti24, Roti32;
    SumLanes(s.r1l, s.r2l, b0);
    SumLanes(s.r1h, s.r2h, b1);
    var r1l, r1h := AddEpi64(AddEpi64(s.r1l, b0), s.r2l), AddEpi64(AddEpi64(s.r1h, b1), s.r2h);
    RotiLanes(XorSi128(s.r4l, r1l));
    RotiLanes(XorSi128(s.r4h, r1h));
    var r3l, r3h := AddEpi64(s.r3l, Roti32(XorSi128(s.r4l, r1l))), AddEpi64(s.r3h, Roti32(XorSi128(s.r4h, r1h)));
    RotiLanes(XorSi128(s.r2l, r3l));
    RotiLanes(XorSi128(s.r2h, r3h));
  }

  lemma G2Lanes(s: Rows, b0: Xmm, b1: Xmm)
    ensures G2(s, b0, b1)
         == FromLanes(Mix2(Lane0(s), b0.lo), Mix2(Lane1(s), b0.hi), Mix2(Lane2(s), b1.lo), Mix2(Lane3(s), b1.hi))
  {
    hide Add, Xor64, Rotr16, Rotr63, Roti16, Roti63;
    SumLanes(s.r1l, s.r2l, b0);
    SumLanes(s.r1h, s.r2h, b1);
    var r1l, r1h := AddEpi64(AddEpi64(s.r1l, b0), s.r2l), AddEpi64(AddEpi64(s.r1h, b1), s.r2h);
    RotiLanes(XorSi128(s.r4l, r1l));
    RotiLanes(XorSi128(s.r4h, r1h));
    var r3l, r3h := AddEpi64(s.r3l, Roti16(XorSi128(s.r4l, r1l))), AddEpi64(s.r3h, Roti16(XorSi128(s.r4h, r1h)));
    RotiLanes(XorSi128(s.r2l, r3l));
    RotiLanes(XorSi128(s.r2h, r3h));
  }

  /** Both halves with eight message words: even ones first. */
  lemma MixLanes(s: Rows, b0: Xmm, b1: Xmm, c0: Xmm, c1: Xmm)
    ensures G2(G1(s, b0, b1), c0, c1)
         == FromLanes(Mix(Lane0(s), b0.lo, c0.lo), Mix(Lane1(s), b0.hi, c0.hi),
                      Mix(Lane2(s), b1.lo, c1.lo), Mix(Lane3(s), b1.hi, c1.hi))
  {
    hide G1, G2, Mix1, Mix2;
    G1Lanes(s, b0, b1);
    G2Lanes(G1(s, b0, b1), c0, c1);
  }

  /** The columns of the sixteen words are the lanes. */
  lemma ColumnsAreLanes(v: Work, s: Work)
    ensures var q0 := Mix(Quad(v[0], v[4], v[8], v[12]), s[0], s[1]);
            var q1 := Mix(Quad(v[1], v[5], v[9], v[13]), s[2], s[3]);
            var q2 := Mix(Quad(v[2], v[6], v[10], v[14]), s[4], s[5]);
            var q3 := Mix(Quad(v[3], v[7], v[11], v[15]), s[6], s[7]);
            Columns(v, s) == Words(FromLanes(q0, q1, q2, q3))
  {
    hide Mix;
  }

  lemma DiagonalsAreLanes(v: Work, s: Work)
    ensures var q0 := Mix(Quad(v[0], v[5], v[10], v[15]), s[8], s[9]);
            var q1 := Mix(Quad(v[1], v[6], v[11], v[12]), s[10], s[11]);
            var q2 := Mix(Quad(v[2], v[7], v[8], v[13]), s[12], s[13]);
            var q3 := Mix(Quad(v[3], v[4], v[9], v[14]), s[14], s[15]);
            Diagonals(v, s) == Words(Undiagonalize(FromLanes(q0, q1, q2, q3)))
  {
    hide Mix;
  }

  /** The packed loads of a round bring its message words, even ones before odd ones. */
  ghost predicate Follows(m: Work, r: nat)
    requires r < 12
  {
    var s := Row(m, r);
    && LoadMsg(m, r, 1) == (Xmm(s[0], s[2]), Xmm(s[4], s[6])) && LoadMsg(m, r, 2) == (Xmm(s[1], s[3]), Xmm(s[5], s[7]))
    && LoadMsg(m, r, 3) == (Xmm(s[8], s[10]), Xmm(s[12], s[14]))
    && LoadMsg(m, r, 4) == (Xmm(s[9], s[11]), Xmm(s[13], s[15]))
  }

  lemma FirstLoads(m: Work, r: nat)
    requires r < 4
    ensures Follows(m, r)
  {
  }

  lemma MiddleLoads(m: Work, r: nat)
    requires 4 <= r < 8
    ensures Follows(m, r)
  {
  }

  lemma LastLoads(m: Work, r: nat)
    requires 8 <= r < 12
    ensures Follows(m, r)
  {
  }

  /** The packed loads follow the sigma table in every round. */
  lemma LoadsFollowSigma(m: Work, r: nat)
    requires r < 12
    ensures Follows(m, r)
  {
    hide *;
    if r < 4 {
      FirstLoads(m, r);
    } else if r < 8 {
      MiddleLoads(m, r);
    } else {
      LastLoads(m, r);
    }
  }

  /** `BLAKE2B_ROUND` on registers */
  function SseRound(s: Rows, m: Work, r: nat): Rows
    requires r < 12
  {
    var (b0, b1) := LoadMsg(m, r, 1);
    var s1 := G1(s, b0, b1);
    var (c0, c1) := LoadMsg(m, r, 2);
    var s2 := Diagonalize(G2(s1, c0, c1));
    var (d0, d1) := LoadMsg(m, r, 3);
    var s3 := G1(s2, d0, d1);
    var (e0, e1) := LoadMsg(m, r, 4);
    Undiagonalize(G2(s3, e0, e1))
  }

  /** A round on registers is a round on words. */
  lemma SseRoundIsRound(s: Rows, m: Work, r: nat)
    requires r < 12
    ensures Words(SseRound(s, m, r)) == Diagonals(Columns(Words(s), Row(m, r)), Row(m, r))
  {
    hide LoadMsg, G1, G2, Mix, Columns, Diagonals, Row;
    var w := Row(m, r);
    LoadsFollowSigma(m, r);
    MixLanes(s, Xmm(w[0], w[2]), Xmm(w[4], w[6]), Xmm(w[1], w[3]), Xmm(w[5], w[7]));
    ColumnsAreLanes(Words(s), w);
    var s2 := G2(G1(s, Xmm(w[0], w[2]), Xmm(w[4], w[6])), Xmm(w[1], w[3]), Xmm(w[5], w[7]));
    assert Words(s2) == Columns(Words(s), w);
    MixLanes(Diagonalize(s2), Xmm(w[8], w[10]), Xmm(w[12], w[14]), Xmm(w[9], w[11]), Xmm(w[13], w[15]));
    DiagonalsAreLanes(Words(s2), w);
  }

  // ----- the state in memory

  function LoadWord(b: seq<byte>, p: nat): Word
    requires p + 8 <= |b|
  {
    FromBytes(b[p..p + 8])
  }

  /** The sixteen words of a block, little-endian. */
  function MessageWords(block: seq<byte>): Work
    requires |block| == 128
  {
    FirstWords(block, 16)
  }

  function FirstWords(block: seq<byte>, n: nat): (w: seq<Word>)
    requires 8 * n <= |block|
    ensures |w| == n
  {
    if n == 0 then [] else FirstWords(block, n - 1) + [LoadWord(block, 8 * (n - 1))]
  }

  /** What is kept in `m_hft`: eight chaining words, then t[0], t[1], f[0], f[1]. */
  type Memory = s: seq<Word> | |s| == 12 witness [0, 0, 0, 0, 0, 0, 0, 0, 0, 0, 0, 0]

  function TailOf(s: Memory): Tail { Tail(s[8], s[9], s[10], s[11]) }

  /** The state after a compression: new chaining words, same counter and flags. */
  function Compressed(s: Memory, block: seq<byte>): Memory
    requires |block| == 128
  {
    Compress(s[..8], MessageWords(block), TailOf(s)) + s[8..]
  }

  /** `BLAKE2B_G`, in place */
  method MixInPlace(v: array<Word>, a: nat, b: nat, c: nat, d: nat, x: Word, y: Word)
    requires v.Length == 16 && a < b < 16 && b != c && b != d && c != d && a < c < 16 && a < d < 16
    modifies v
    ensures v[..] == G(old(v[..]), a, b, c, d, x, y)
  {
    hide Add, Xor64, Rotr16, Rotr24, Rotr32, Rotr63;
    ghost var q := Mix(Quad(v[a], v[b], v[c], v[d]), x, y);
    v[a] := Add(Add(v[a], v[b]), x);
    v[d] := Rotr32(Xor64(v[d], v[a]));
    v[c] := Add(v[c], v[d]);
    v[b] := Rotr24(Xor64(v[b], v[c]));
    v[a] := Add(Add(v[a], v[b]), y);
    v[d] := Rotr16(Xor64(v[d], v[a]));
    v[c] := Add(v[c], v[d]);
    v[b] := Rotr63(Xor64(v[b], v[c]));
    assert v[..] == old(v[..])[a := q.a][b := q.b][c := q.c][d := q.d];
  }

  /** `BLAKE2B_ROUND`, in place */
  method RoundInPlace(v: array<Word>, m: Work, r: nat)
    requires v.Length == 16 && r < 12
    modifies v
    ensures v[..] == Diagonals(Columns(old(v[..]), Row(m, r)), Row(m, r))
  {
    hide Sigma, G;
    var p := Sigma(r);
    MixInPlace(v, 0, 4, 8, 12, m[p[0]], m[p[1]]);
    MixInPlace(v, 1, 5, 9, 13, m[p[2]], m[p[3]]);
    MixInPlace(v, 2, 6, 10, 14, m[p[4]], m[p[5]]);
    MixInPlace(v, 3, 7, 11, 15, m[p[6]], m[p[7]]);
    MixInPlace(v, 0, 5, 10, 15, m[p[8]], m[p[9]]);
    MixInPlace(v, 1, 6, 11, 12, m[p[10]], m[p[11]]);
    MixInPlace(v, 2, 7, 8, 13, m[p[12]], m[p[13]]);
    MixInPlace(v, 3, 4, 9, 14, m[p[14]], m[p[15]]);
  }

  /** `BLAKE2_Compress64_CXX` */
  method CompressCxx(input: seq<byte>, hft: array<Word>)
    requires |input| == 128 && hft.Length == 12
    modifies hft
    ensures hft[..] == Compressed(old(hft[..]), input)
  {
    hide Add, Xor64, Columns, Diagonals, Row, MessageWords;
    var m := MessageWords(input);
    ghost var s: Memory := hft[..];
    ghost var h: State := s[..8];
    var start: seq<Word> :=
      hft[..8] + IV[..4] + [Xor64(hft[8], IV[4]), Xor64(hft[9], IV[5]), Xor64(hft[10], IV[6]), Xor64(hft[11], IV[7])];
    assert start == Start(h, TailOf(s));
    var v := new Word[16](i requires 0 <= i < 16 => start[i]);
    assert v[..] == start;
    for r := 0 to 12
      invariant v[..] == Rounds(start, m, r) && hft[..] == s
    {
      RoundInPlace(v, m, r);
    }
    ghost var w: Work := v[..];
    for i := 0 to 8
      invariant forall k :: 0 <= k < i ==> hft[k] == Xor64(h[k], Xor64(w[k], w[k + 8]))
      invariant forall k :: i <= k < 12 ==> hft[k] == s[k]
      invariant v[..] == w
    {
      hft[i] := Xor64(hft[i], Xor64(v[i], v[i + 8]));
    }
    assert hft[..] == Finish(h, w) + s[8..];
  }

  /** `BLAKE2_Compress64_SSE4` */
  method CompressSse4(input: seq<byte>, hft: array<Word>)
    requires |input| == 128 && hft.Length == 12
    modifies hft
    ensures hft[..] == Compressed(old(hft[..]), input)
  {
    hide Add, Xor64, Columns, Diagonals, Row, MessageWords, SseRound;
    var m := MessageWords(input);
    ghost var s: Memory := hft[..];
    ghost var h: State := s[..8];
    var rows := Rows(Xmm(hft[0], hft[1]), Xmm(hft[2], hft[3]), Xmm(hft[4], hft[5]), Xmm(hft[6], hft[7]),
                     Xmm(IV[0], IV[1]), Xmm(IV[2], IV[3]),
                     XorSi128(Xmm(IV[4], IV[5]), Xmm(hft[8], hft[9])),
                     XorSi128(Xmm(IV[6], IV[7]), Xmm(hft[10], hft[11])));
    XorCommutes(IV[4], s[8]);
    XorCommutes(IV[5], s[9]);
    XorCommutes(IV[6], s[10]);
    XorCommutes(IV[7], s[11]);
    ghost var start := Start(h, TailOf(s));
    assert Words(rows) == start;
    for r := 0 to 12
      invariant Words(rows) == Rounds(start, m, r) && hft[..] == s
    {
      SseRoundIsRound(rows, m, r);
      rows := SseRound(rows, m, r);
    }
    StoreRows(hft, rows);
  }

  /** The last lines of `BLAKE2_Compress64_SSE4`: rows combined and stored */
  method StoreRows(hft: array<Word>, rows: Rows)
    requires hft.Length == 12
    modifies hft
    ensures hft[..] == Finish(old(hft[..8]), Words(rows)) + old(hft[8..])
  {
    hide Xor64, Words, Finish;
    ghost var s := hft[..];
    var row1l, row1h := XorSi128(rows.r3l, rows.r1l), XorSi128(rows.r3h, rows.r1h);
    var row2l, row2h := XorSi128(rows.r4l, rows.r2l), XorSi128(rows.r4h, rows.r2h);
    FinishRows(s[..8], rows);
    StoreU(hft, 0, XorSi128(Xmm(hft[0], hft[1]), row1l));
    StoreU(hft, 2, XorSi128(Xmm(hft[2], hft[3]), row1h));
    StoreU(hft, 4, XorSi128(Xmm(hft[4], hft[5]), row2l));
    StoreU(hft, 6, XorSi128(Xmm(hft[6], hft[7]), row2h));
  }

  method StoreU(hft: array<Word>, i: nat, x: Xmm)
    requires i + 1 < hft.Length
    modifies hft
    ensures hft[..] == old(hft[..])[i := x.lo][i + 1 := x.hi]
  {
    hft[i], hft[i + 1] := x.lo, x.hi;
  }

  lemma FinishRows(h: State, rows: Rows)
    ensures var a, b := XorSi128(rows.r3l, rows.r1l), XorSi128(rows.r3h, rows.r1h);
            var c, d := XorSi128(rows.r4l, rows.r2l), XorSi128(rows.r4h, rows.r2h);
            Finish(h, Words(rows)) == [Xor64(h[0], a.lo), Xor64(h[1], a.hi), Xor64(h[2], b.lo), Xor64(h[3], b.hi),
                                       Xor64(h[4], c.lo), Xor64(h[5], c.hi), Xor64(h[6], d.lo), Xor64(h[7], d.hi)]
  {
    hide Xor64;
    var w := Words(rows);
    XorCommutes(w[8], w[0]);
    XorCommutes(w[9], w[1]);
    XorCommutes(w[10], w[2]);
    XorCommutes(w[11], w[3]);
    XorCommutes(w[12], w[4]);
    XorCommutes(w[13], w[5]);
    XorCommutes(w[14], w[6]);
    XorCommutes(w[15], w[7]);
  }
}
