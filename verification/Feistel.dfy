/** The block ciphers of cast.cpp and blowfish.cpp on words, for any S-boxes and any round
    keys: decryption undoes encryption. */
module Feistel {
  import opened NatBits
  import opened Bytes

  // ----- words

  type Word = x: nat | x < WORD32

  function Xor32(a: Word, b: Word): Word {
    FourBytes();
    XorBits(a, b, 32)
  }

  lemma FourBytes()
    ensures Pow2(32) == WORD32
  {
    assert Pow2(4) == 16;
    assert Pow2(8) == 0x100;
    ShlShl(1, 8, 8);
    ShlMul(0x100, 8);
    ShlShl(1, 16, 16);
    ShlMul(0x1_0000, 16);
  }

  lemma XorTwice(a: Word, b: Word)
    ensures Xor32(Xor32(a, b), b) == a
  {
    hide XorBits, Pow2;
    FourBytes();
    XorBitsCancel(a, b, 32);
  }

  function Add(a: Word, b: Word): Word { (a + b) % WORD32 }
  function Sub(a: Word, b: Word): Word { (WORD32 + a - b) % WORD32 }

  /** `rotlVariable` */
  function Rotl(x: Word, k: nat): Word {
    (Shl(x, k % 32) + Shr(x, 32 - k % 32)) % WORD32
  }

  /** Four tables of 256 words. */
  type Boxes = s: seq<seq<Word>> | |s| == 4 && (forall i :: 0 <= i < 4 ==> |s[i]| == 256)
    witness seq(4, i => seq(256, j => 0))

  /** `GETBYTE` */
  function Byte3(x: Word): byte { x / 0x100_0000 }
  function Byte2(x: Word): byte { x / 0x1_0000 % 0x100 }
  function Byte1(x: Word): byte { x / 0x100 % 0x100 }
  function Byte0(x: Word): byte { x % 0x100 }

  // ----- CAST

  /** What the three round functions combine into the other half. */
  function F1(s: Boxes, km: Word, kr: Word, r: Word): Word {
    var t := Rotl(Add(km, r), kr);
    Add(Sub(Xor32(s[0][Byte3(t)], s[1][Byte2(t)]), s[2][Byte1(t)]), s[3][Byte0(t)])
  }

  function F2(s: Boxes, km: Word, kr: Word, r: Word): Word {
    var t := Rotl(Xor32(km, r), kr);
    Xor32(Add(Sub(s[0][Byte3(t)], s[1][Byte2(t)]), s[2][Byte1(t)]), s[3][Byte0(t)])
  }

  function F3(s: Boxes, km: Word, kr: Word, r: Word): Word {
    var t := Rotl(Sub(km, r), kr);
    Sub(Xor32(Add(s[0][Byte3(t)], s[1][Byte2(t)]), s[2][Byte1(t)]), s[3][Byte0(t)])
  }

  /** Masking and rotation keys of CAST-128. */
  type Keys = k: seq<Word> | |k| == 32 witness seq(32, i => 0)

  /** The function of round i, which cycles through the three. */
  function Half(s: Boxes, k: Keys, i: nat, r: Word): Word
    requires i < 16
  {
    if i % 3 == 0 then F1(s, k[i], k[i + 16], r)
    else if i % 3 == 1 then F2(s, k[i], k[i + 16], r)
    else F3(s, k[i], k[i + 16], r)
  }

  datatype Pair = Pair(l: Word, r: Word)

  /** One round: even rounds change the left half, odd rounds the right one. */
  function Round(s: Boxes, k: Keys, i: nat, p: Pair): Pair
    requires i < 16
  {
    if i % 2 == 0 then Pair(Xor32(p.l, Half(s, k, i, p.r)), p.r) else Pair(p.l, Xor32(p.r, Half(s, k, i, p.l)))
  }

  /** The first n rounds, and the last n of them backwards. */
  function Rounds(s: Boxes, k: Keys, n: nat, p: Pair): Pair
    requires n <= 16
  {
    if n == 0 then p else Round(s, k, n - 1, Rounds(s, k, n - 1, p))
  }

  function Unrounds(s: Boxes, k: Keys, n: nat, p: Pair): Pair
    requires n <= 16
  {
    if n == 0 then p else Unrounds(s, k, n - 1, Round(s, k, n - 1, p))
  }

  lemma RoundTwice(s: Boxes, k: Keys, i: nat, p: Pair)
    requires i < 16
    ensures Round(s, k, i, Round(s, k, i, p)) == p
  {
    hide Half, Xor32;
    XorTwice(p.l, Half(s, k, i, p.r));
    XorTwice(p.r, Half(s, k, i, p.l));
  }

  lemma {:induction false} UnroundsUndo(s: Boxes, k: Keys, n: nat, p: Pair)
    requires n <= 16
    ensures Unrounds(s, k, n, Rounds(s, k, n, p)) == p
  {
    hide Round;
    if n > 0 {
      RoundTwice(s, k, n - 1, Rounds(s, k, n - 1, p));
      UnroundsUndo(s, k, n - 1, p);
    }
  }

  /** `CAST128::Enc::ProcessAndXorBlock` on words: the halves leave in the other order. */
  method Cast128Enc(s: Boxes, k: Keys, reduced: bool, in0: Word, in1: Word) returns (out0: Word, out1: Word)
    ensures Pair(out1, out0) == Rounds(s, k, if reduced then 12 else 16, Pair(in0, in1))
  {
    hide F1, F2, F3, Xor32;
    var l, r := in0, in1;
    ghost var p := Pair(l, r);
    l := Xor32(l, F1(s, k[0], k[16], r));
    r := Xor32(r, F2(s, k[1], k[17], l));
    l := Xor32(l, F3(s, k[2], k[18], r));
    r := Xor32(r, F1(s, k[3], k[19], l));
    assert Pair(l, r) == Rounds(s, k, 4, p) by { FourRounds(s, k, 0, p); }
    l := Xor32(l, F2(s, k[4], k[20], r));
    r := Xor32(r, F3(s, k[5], k[21], l));
    l := Xor32(l, F1(s, k[6], k[22], r));
    r := Xor32(r, F2(s, k[7], k[23], l));
    assert Pair(l, r) == Rounds(s, k, 8, p) by { FourRounds(s, k, 4, p); }
    l := Xor32(l, F3(s, k[8], k[24], r));
    r := Xor32(r, F1(s, k[9], k[25], l));
    l := Xor32(l, F2(s, k[10], k[26], r));
    r := Xor32(r, F3(s, k[11], k[27], l));
    assert Pair(l, r) == Rounds(s, k, 12, p) by { FourRounds(s, k, 8, p); }
    if !reduced {
      l := Xor32(l, F1(s, k[12], k[28], r));
      r := Xor32(r, F2(s, k[13], k[29], l));
      l := Xor32(l, F3(s, k[14], k[30], r));
      r := Xor32(r, F1(s, k[15], k[31], l));
      assert Pair(l, r) == Rounds(s, k, 16, p) by { FourRounds(s, k, 12, p); }
    }
    return r, l;
  }

  lemma FourRounds(s: Boxes, k: Keys, n: nat, p: Pair)
    requires n <= 12
    ensures Rounds(s, k, n + 4, p)
         == Round(s, k, n + 3, Round(s, k, n + 2, Round(s, k, n + 1, Round(s, k, n, Rounds(s, k, n, p)))))
  {
    hide Round;
    assert Rounds(s, k, n + 2, p) == Round(s, k, n + 1, Round(s, k, n, Rounds(s, k, n, p)));
  }

  lemma FourUnrounds(s: Boxes, k: Keys, n: nat, p: Pair)
    requires n <= 12
    ensures Unrounds(s, k, n + 4, p)
         == Unrounds(s, k, n, Round(s, k, n, Round(s, k, n + 1, Round(s, k, n + 2, Round(s, k, n + 3, p)))))
  {
    hide Round;
    var q := Round(s, k, n + 2, Round(s, k, n + 3, p));
    assert Unrounds(s, k, n + 4, p) == Unrounds(s, k, n + 2, q);
  }

  /** `CAST128::Dec::ProcessAndXorBlock` on words */
  method Cast128Dec(s: Boxes, k: Keys, reduced: bool, in0: Word, in1: Word) returns (out0: Word, out1: Word)
    ensures Pair(out0, out1) == Unrounds(s, k, if reduced then 12 else 16, Pair(in1, in0))
  {
    hide F1, F2, F3, Xor32;
    var r, l := in0, in1;
    ghost var target := Unrounds(s, k, if reduced then 12 else 16, Pair(l, r));
    if !reduced {
      FourUnrounds(s, k, 12, Pair(l, r));
      r := Xor32(r, F1(s, k[15], k[31], l));
      l := Xor32(l, F3(s, k[14], k[30], r));
      r := Xor32(r, F2(s, k[13], k[29], l));
      l := Xor32(l, F1(s, k[12], k[28], r));
    }
    assert target == Unrounds(s, k, 12, Pair(l, r));
    FourUnrounds(s, k, 8, Pair(l, r));
    r := Xor32(r, F3(s, k[11], k[27], l));
    l := Xor32(l, F2(s, k[10], k[26], r));
    r := Xor32(r, F1(s, k[9], k[25], l));
    l := Xor32(l, F3(s, k[8], k[24], r));
    assert target == Unrounds(s, k, 8, Pair(l, r));
    FourUnrounds(s, k, 4, Pair(l, r));
    r := Xor32(r, F2(s, k[7], k[23], l));
    l := Xor32(l, F1(s, k[6], k[22], r));
    r := Xor32(r, F3(s, k[5], k[21], l));
    l := Xor32(l, F2(s, k[4], k[20], r));
    assert target == Unrounds(s, k, 4, Pair(l, r));
    FourUnrounds(s, k, 0, Pair(l, r));
    r := Xor32(r, F1(s, k[3], k[19], l));
    l := Xor32(l, F3(s, k[2], k[18], r));
    r := Xor32(r, F2(s, k[1], k[17], l));
    l := Xor32(l, F1(s, k[0], k[16], r));
    return l, r;
  }

  /** Decryption undoes encryption, with 12 rounds and with 16. */
  method Cast128RoundTrip(s: Boxes, k: Keys, reduced: bool, in0: Word, in1: Word) returns (out0: Word, out1: Word)
    ensures out0 == in0 && out1 == in1
  {
    hide Rounds, Unrounds;
    var c0, c1 := Cast128Enc(s, k, reduced, in0, in1);
    UnroundsUndo(s, k, if reduced then 12 else 16, Pair(in0, in1));
    out0, out1 := Cast128Dec(s, k, reduced, c0, c1);
  }

  // ----- CAST-256

  datatype Quad = Quad(b0: Word, b1: Word, b2: Word, b3: Word)

  /** Four rotation keys and four masking keys. */
  type Group = g: seq<Word> | |g| == 8 witness seq(8, i => 0)

  /** A forward quad-round, and the same rounds in the other order. */
  function Forward(s: Boxes, g: Group, q: Quad): Quad {
    var b2 := Xor32(q.b2, F1(s, g[4], g[0], q.b3));
    var b1 := Xor32(q.b1, F2(s, g[5], g[1], b2));
    var b0 := Xor32(q.b0, F3(s, g[6], g[2], b1));
    Quad(b0, b1, b2, Xor32(q.b3, F1(s, g[7], g[3], b0)))
  }

  function Reverse(s: Boxes, g: Group, q: Quad): Quad {
    var b3 := Xor32(q.b3, F1(s, g[7], g[3], q.b0));
    var b0 := Xor32(q.b0, F3(s, g[6], g[2], q.b1));
    var b1 := Xor32(q.b1, F2(s, g[5], g[1], q.b2));
    Quad(b0, b1, Xor32(q.b2, F1(s, g[4], g[0], b3)), b3)
  }

  lemma ReverseUndoes(s: Boxes, g: Group, q: Quad)
    ensures Reverse(s, g, Forward(s, g, q)) == q
  {
    hide F1, F2, F3, Xor32;
    var p := Forward(s, g, q);
    XorTwice(q.b3, F1(s, g[7], g[3], p.b0));
    XorTwice(q.b0, F3(s, g[6], g[2], p.b1));
    XorTwice(q.b1, F2(s, g[5], g[1], p.b2));
    XorTwice(q.b2, F1(s, g[4], g[0], q.b3));
  }

  lemma ForwardUndoes(s: Boxes, g: Group, q: Quad)
    ensures Forward(s, g, Reverse(s, g, q)) == q
  {
    hide F1, F2, F3, Xor32;
    var p := Reverse(s, g, q);
    XorTwice(q.b2, F1(s, g[4], g[0], p.b3));
    XorTwice(q.b1, F2(s, g[5], g[1], q.b2));
    XorTwice(q.b0, F3(s, g[6], g[2], q.b1));
    XorTwice(q.b3, F1(s, g[7], g[3], q.b0));
  }

  type Schedule = k: seq<Word> | |k| == 96 witness seq(96, i => 0)

  function GroupOf(k: Schedule, i: nat): Group
    requires i < 12
  {
    k[8 * i..8 * i + 8]
  }

  /** The first n of six forward and six reverse quad-rounds. */
  function QuadRounds(s: Boxes, k: Schedule, n: nat, q: Quad): Quad
    requires n <= 12
  {
    if n == 0 then q
    else if n <= 6 then Forward(s, GroupOf(k, n - 1), QuadRounds(s, k, n - 1, q))
    else Reverse(s, GroupOf(k, n - 1), QuadRounds(s, k, n - 1, q))
  }

  ghost predicate Mirrored(k: Schedule, k': Schedule) {
    forall i :: 0 <= i < 12 ==> GroupOf(k', i) == GroupOf(k, 11 - i)
  }

  /** With the key groups mirrored the same rounds undo themselves, one by one. */
  lemma {:induction false} MirrorUndoes(s: Boxes, k: Schedule, k': Schedule, n: nat, q: Quad)
    requires n <= 12 && Mirrored(k, k')
    ensures QuadRounds(s, k', n, QuadRounds(s, k, 12, q)) == QuadRounds(s, k, 12 - n, q)
    decreases n
  {
    hide Forward, Reverse, GroupOf;
    if n > 0 {
      MirrorUndoes(s, k, k', n - 1, q);
      var g, p := GroupOf(k, 12 - n), QuadRounds(s, k, 12 - n, q);
      assert GroupOf(k', n - 1) == g;
      ReverseUndoes(s, g, p);
      ForwardUndoes(s, g, p);
    }
  }

  /** `CAST256::Base::ProcessAndXorBlock` on words */
  method Cast256Process(s: Boxes, k: Schedule, q: Quad) returns (r: Quad)
    ensures r == QuadRounds(s, k, 12, q)
  {
    hide F1, F2, F3, Xor32, GroupOf;
    var b0, b1, b2, b3 := q.b0, q.b1, q.b2, q.b3;
    for i := 0 to 6
      invariant Quad(b0, b1, b2, b3) == QuadRounds(s, k, i, q)
    {
      KeyAt(k, i);
      b2 := Xor32(b2, F1(s, k[8 * i + 4], k[8 * i], b3));
      b1 := Xor32(b1, F2(s, k[8 * i + 5], k[8 * i + 1], b2));
      b0 := Xor32(b0, F3(s, k[8 * i + 6], k[8 * i + 2], b1));
      b3 := Xor32(b3, F1(s, k[8 * i + 7], k[8 * i + 3], b0));
    }
    for i := 6 to 12
      invariant Quad(b0, b1, b2, b3) == QuadRounds(s, k, i, q)
    {
      KeyAt(k, i);
      b3 := Xor32(b3, F1(s, k[8 * i + 7], k[8 * i + 3], b0));
      b0 := Xor32(b0, F3(s, k[8 * i + 6], k[8 * i + 2], b1));
      b1 := Xor32(b1, F2(s, k[8 * i + 5], k[8 * i + 1], b2));
      b2 := Xor32(b2, F1(s, k[8 * i + 4], k[8 * i], b3));
    }
    r := Quad(b0, b1, b2, b3);
  }

  lemma KeyAt(k: Schedule, i: nat)
    requires i < 12
    ensures var g := GroupOf(k, i);
            && g[0] == k[8 * i] && g[1] == k[8 * i + 1] && g[2] == k[8 * i + 2] && g[3] == k[8 * i + 3]
            && g[4] == k[8 * i + 4] && g[5] == k[8 * i + 5] && g[6] == k[8 * i + 6] && g[7] == k[8 * i + 7]
  {
  }

  /** The end of `CAST256::Base::UncheckedSetKey` for decryption: key groups are swapped */
  method SwapKeyGroups(k: array<Word>)
    requires k.Length == 96
    modifies k
    ensures Mirrored(old(k[..]), k[..])
  {
    hide GroupOf;
    ghost var s := k[..];
    for j := 0 to 6
      invariant forall g :: 0 <= g < 12 ==> GroupOf(k[..], g) == GroupOf(s, if g < j || g > 11 - j then 11 - g else g)
    {
      SwapGroups(k, j);
    }
  }

  method SwapGroups(k: array<Word>, j: nat)
    requires k.Length == 96 && j < 6
    modifies k
    ensures forall g :: 0 <= g < 12 ==>
              GroupOf(k[..], g) == GroupOf(old(k[..]), if g == j || g == 11 - j then 11 - g else g)
  {
    hide GroupOf, PartSwapped;
    ghost var s := k[..];
    NothingSwapped(s, j);
    for i := 0 to 4
      invariant PartSwapped(s, k[..], 8 * j, 88 - 16 * j, i)
    {
      var i1, i2 := 8 * j + i, 8 * (11 - j) + i;
      SwapStep(s, k[..], 8 * j, 88 - 16 * j, i);
      Swap(k, i1, i2);
      Swap(k, i1 + 4, i2 + 4);
    }
    GroupsSwapped(s, k[..], j);
  }

  method Swap(k: array<Word>, p: nat, q: nat)
    requires p < k.Length && q < k.Length
    modifies k
    ensures k[..] == Exchange(old(k[..]), p, q)
  {
    k[p], k[q] := k[q], k[p];
  }

  /** `std::swap` of two elements */
  function Exchange(s: seq<Word>, p: nat, q: nat): (t: seq<Word>)
    requires p < |s| && q < |s|
    ensures |t| == |s|
  {
    s[p := s[q]][q := s[p]]
  }

  /** i keys of each kind exchanged between the group at a and the one d further on. */
  ghost predicate PartSwapped(s: seq<Word>, t: seq<Word>, a: nat, d: nat, i: nat)
    requires |s| == |t| == 96
  {
    && i <= 4 && a + d + 8 <= 96 && d >= 8
    && (forall x :: a <= x < a + i || a + 4 <= x < a + 4 + i ==> t[x] == s[x + d])
    && (forall x :: a + d <= x < a + d + i || a + d + 4 <= x < a + d + 4 + i ==> t[x] == s[x - d])
    && (forall x :: 0 <= x < a || a + i <= x < a + 4 || a + 4 + i <= x < a + d ==> t[x] == s[x])
    && (forall x :: a + d + i <= x < a + d + 4 || a + d + 4 + i <= x < 96 ==> t[x] == s[x])
  }

  lemma NothingSwapped(s: seq<Word>, j: nat)
    requires |s| == 96 && j < 6
    ensures PartSwapped(s, s, 8 * j, 88 - 16 * j, 0)
  {
  }

  lemma SwapStep(s: seq<Word>, t: seq<Word>, a: nat, d: nat, i: nat)
    requires |s| == |t| == 96 && i < 4 && PartSwapped(s, t, a, d, i)
    ensures a + i + 4 + d < 96
    ensures PartSwapped(s, Exchange(Exchange(t, a + i, a + d + i), a + i + 4, a + d + i + 4), a, d, i + 1)
  {
  }

  lemma GroupsSwapped(s: Schedule, t: Schedule, j: nat)
    requires j < 6
    requires PartSwapped(s, t, 8 * j, 88 - 16 * j, 4)
    ensures forall g :: 0 <= g < 12 ==> GroupOf(t, g) == GroupOf(s, if g == j || g == 11 - j then 11 - g else g)
  {
    forall g | 0 <= g < 12 ensures GroupOf(t, g) == GroupOf(s, if g == j || g == 11 - j then 11 - g else g) {
      var h := if g == j || g == 11 - j then 11 - g else g;
      forall x | 0 <= x < 8 ensures GroupOf(t, g)[x] == GroupOf(s, h)[x] {
        assert t[8 * g + x] == s[8 * h + x];
      }
    }
  }

  /** Encryption and then decryption, each with its own key schedule. */
  method Cast256RoundTrip(s: Boxes, keys: Schedule, q: Quad) returns (r: Quad)
    ensures r == q
  {
    hide QuadRounds, Mirrored;
    var c := Cast256Process(s, keys, q);
    var k := new Word[96](i requires 0 <= i < 96 => keys[i]);
    assert k[..] == keys;
    SwapKeyGroups(k);
    MirrorUndoes(s, keys, k[..], 12, q);
    NoQuadRounds(s, keys, q);
    r := Cast256Process(s, k[..], c);
  }

  lemma NoQuadRounds(s: Boxes, k: Schedule, q: Quad)
    ensures QuadRounds(s, k, 0, q) == q
  {
  }

  // ----- Blowfish

  function BlowfishF(s: Boxes, x: Word): Word {
    Add(Xor32(Add(s[0][Byte3(x)], s[1][Byte2(x)]), s[2][Byte1(x)]), s[3][Byte0(x)])
  }

  /** Round i: odd rounds change the right half, even rounds the left one. */
  function BlowfishRound(s: Boxes, p: seq<Word>, i: nat, q: Pair): Pair
    requires i < |p|
  {
    if i % 2 == 1 then Pair(q.l, Xor32(q.r, Xor32(BlowfishF(s, q.l), p[i])))
    else Pair(Xor32(q.l, Xor32(BlowfishF(s, q.r), p[i])), q.r)
  }

  function BlowfishRounds(s: Boxes, p: seq<Word>, n: nat, q: Pair): Pair
    requires n < |p|
  {
    if n == 0 then q else BlowfishRound(s, p, n, BlowfishRounds(s, p, n - 1, q))
  }

  /** A block for any number of rounds: p holds two words more. */
  function BlowfishCrypt(s: Boxes, p: seq<Word>, q: Pair): Pair
    requires |p| >= 2
  {
    var n := |p| - 2;
    var e := BlowfishRounds(s, p, n, Pair(Xor32(q.l, p[0]), q.r));
    Pair(Xor32(e.r, p[n + 1]), e.l)
  }

  ghost predicate Backwards(p: seq<Word>, p': seq<Word>) {
    |p'| == |p| && forall i :: 0 <= i < |p| ==> p'[i] == p[|p| - 1 - i]
  }

  function Flip(q: Pair): Pair { Pair(q.r, q.l) }

  lemma FlippedRoundUndoes(s: Boxes, p: seq<Word>, p': seq<Word>, n: nat, q: Pair)
    requires |p| % 2 == 0 && Backwards(p, p') && 0 < n < |p| - 1
    ensures BlowfishRound(s, p', n, Flip(BlowfishRound(s, p, |p| - 1 - n, q))) == Flip(q)
  {
    hide BlowfishF, Xor32;
    var k := p[|p| - 1 - n];
    assert p'[n] == k;
    Parity(|p|, n);
    XorTwice(q.l, Xor32(BlowfishF(s, q.r), k));
    XorTwice(q.r, Xor32(BlowfishF(s, q.l), k));
  }

  lemma Parity(m: nat, n: nat)
    requires m % 2 == 0 && n < m
    ensures n % 2 == 1 ==> (m - 1 - n) % 2 == 0
    ensures n % 2 == 0 ==> (m - 1 - n) % 2 == 1
  {
  }

  /** With the words of p backwards the rounds undo themselves, one by one. */
  lemma {:induction false} RoundsUndo(s: Boxes, p: seq<Word>, p': seq<Word>, n: nat, q: Pair)
    requires |p| >= 2 && |p| % 2 == 0 && Backwards(p, p') && n <= |p| - 2
    ensures BlowfishRounds(s, p', n, Flip(BlowfishRounds(s, p, |p| - 2, q)))
         == Flip(BlowfishRounds(s, p, |p| - 2 - n, q))
    decreases n
  {
    hide BlowfishRound, Backwards;
    if n > 0 {
      RoundsUndo(s, p, p', n - 1, q);
      FlippedRoundUndoes(s, p, p', n, BlowfishRounds(s, p, |p| - 2 - n, q));
    }
  }

  /** Decryption is encryption with p backwards, for any even number of rounds. */
  lemma BlowfishUndoes(s: Boxes, p: seq<Word>, p': seq<Word>, q: Pair)
    requires |p| >= 2 && |p| % 2 == 0 && Backwards(p, p')
    ensures BlowfishCrypt(s, p', BlowfishCrypt(s, p, q)) == q
  {
    hide BlowfishRounds, Xor32;
    var n := |p| - 2;
    var start := Pair(Xor32(q.l, p[0]), q.r);
    var e := BlowfishRounds(s, p, n, start);
    XorTwice(e.r, p[n + 1]);
    RoundsUndo(s, p, p', n, start);
    NoRounds(s, p, start);
    XorTwice(q.l, p[0]);
  }

  lemma NoRounds(s: Boxes, p: seq<Word>, q: Pair)
    requires |p| > 0
    ensures BlowfishRounds(s, p, 0, q) == q
  {
  }

  /** `Blowfish::Base::ProcessAndXorBlock` and `crypt_block` on words, for any even number of rounds */
  method BlowfishProcess(s: Boxes, p: seq<Word>, in0: Word, in1: Word) returns (out0: Word, out1: Word)
    requires |p| >= 2 && |p| % 2 == 0
    ensures Pair(out0, out1) == BlowfishCrypt(s, p, Pair(in0, in1))
  {
    hide BlowfishF, Xor32;
    var rounds := |p| - 2;
    var left, right := Xor32(in0, p[0]), in1;
    ghost var start := Pair(left, right);
    for i := 0 to rounds / 2
      invariant Pair(left, right) == BlowfishRounds(s, p, 2 * i, start)
    {
      right := Xor32(right, Xor32(BlowfishF(s, left), p[2 * i + 1]));
      assert Pair(left, right) == BlowfishRounds(s, p, 2 * i + 1, start);
      left := Xor32(left, Xor32(BlowfishF(s, right), p[2 * i + 2]));
    }
    right := Xor32(right, p[rounds + 1]);
    return right, left;
  }

  /** The end of `Blowfish::Base::UncheckedSetKey` for decryption */
  method ReverseBox(p: array<Word>)
    requires p.Length % 2 == 0
    modifies p
    ensures Backwards(old(p[..]), p[..])
  {
    ghost var s := p[..];
    var n := p.Length;
    for i := 0 to n / 2
      invariant forall x :: i <= x < n - i ==> p[x] == s[x]
      invariant forall x :: 0 <= x < i || n - i <= x < n ==> p[x] == s[n - 1 - x]
    {
      assert p[i] == s[i] && p[n - 1 - i] == s[n - 1 - i];
      p[i], p[n - 1 - i] := p[n - 1 - i], p[i];
    }
  }

  method BlowfishRoundTrip(s: Boxes, box: seq<Word>, in0: Word, in1: Word) returns (out0: Word, out1: Word)
    requires |box| >= 2 && |box| % 2 == 0
    ensures out0 == in0 && out1 == in1
  {
    hide BlowfishCrypt, Backwards;
    var c0, c1 := BlowfishProcess(s, box, in0, in1);
    var p := new Word[|box|](i requires 0 <= i < |box| => box[i]);
    assert p[..] == box;
    ReverseBox(p);
    BackwardsLength(box, p[..]);
    BlowfishUndoes(s, box, p[..], Pair(in0, in1));
    out0, out1 := BlowfishProcess(s, p[..], c0, c1);
  }

  lemma BackwardsLength(p: seq<Word>, p': seq<Word>)
    requires Backwards(p, p')
    ensures |p'| == |p|
  {
  }
}
