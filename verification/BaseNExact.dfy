/** The decoder of basecode.cpp with any table: exactly which tables decode every text, although values may have
    more bits than the decoder is told. */
module BaseNExact {
  import opened NatBits
  import opened Bytes
  import opened BitStrings
  import opened BaseN
  import opened BaseNDecoder

  // ----- bits of numbers

  lemma {:induction false} BitOfOr(a: nat, b: nat, p: nat)
    ensures GetBit(Or(a, b), p) == if GetBit(a, p) == 1 || GetBit(b, p) == 1 then 1 else 0
    decreases p
  {
    if p == 0 {
      OrParity(a, b);
    } else {
      BitOfOr(a / 2, b / 2, p - 1);
      OrHalf(a, b);
    }
  }

  lemma {:induction false} OrHalf(a: nat, b: nat)
    ensures Or(a, b) / 2 == Or(a / 2, b / 2)
  {
    if a != 0 && b != 0 { Halves(Or(a / 2, b / 2), if a % 2 == 1 || b % 2 == 1 then 1 else 0); }
  }

  lemma {:induction false} OrParity(a: nat, b: nat)
    ensures Or(a, b) % 2 == if a % 2 == 1 || b % 2 == 1 then 1 else 0
  {
    if a != 0 && b != 0 { Halves(Or(a / 2, b / 2), if a % 2 == 1 || b % 2 == 1 then 1 else 0); }
  }

  lemma {:induction false} BitOfShl(x: nat, k: nat, p: nat)
    ensures GetBit(Shl(x, k), p) == if p < k then 0 else GetBit(x, p - k)
    decreases k
  {
    if k > 0 && p > 0 {
      BitOfShl(x, k - 1, p - 1);
      assert Shl(x, k) / 2 == Shl(x, k - 1);
    }
  }

  lemma BitOfShr(x: nat, k: nat, p: nat)
    ensures GetBit(Shr(x, k), p) == GetBit(x, k + p)
  {
    ShrAdd(x, k, p);
  }

  lemma {:induction false} BitAbove(x: nat, k: nat, p: nat)
    requires x < Pow2(k) && k <= p
    ensures GetBit(x, p) == 0
    decreases k
  {
    if k == 0 {
      ShrZero(p);
    } else {
      BitAbove(x / 2, k - 1, p - 1);
    }
  }

  lemma {:induction false} SameBits(x: nat, y: nat, k: nat)
    requires x < Pow2(k) && y < Pow2(k) && forall p: nat :: p < k ==> GetBit(x, p) == GetBit(y, p)
    ensures x == y
    decreases k
  {
    if k > 0 {
      assert GetBit(x, 0) == GetBit(y, 0);
      forall p: nat | p < k - 1 ensures GetBit(x / 2, p) == GetBit(y / 2, p) {
        assert GetBit(x, p + 1) == GetBit(y, p + 1);
      }
      SameBits(x / 2, y / 2, k - 1);
    }
  }

  // ----- bits of the bytes

  /** Bit q of byte j from a value at position `at`: bits before that byte are lost. */
  function TouchBit(v: nat, at: nat, w: nat, j: nat, q: nat): nat {
    var p := at + w - 8 - 8 * j + q;
    if at / 8 <= j && p >= 0 then GetBit(v, p) else 0
  }

  lemma BitOfTouch(v: nat, at: nat, w: nat, j: nat, q: nat)
    requires w <= 8 && q < 8
    ensures GetBit(Touch(v, at, w, j), q) == TouchBit(v, at, w, j, q)
  {
    hide GetBit, Touch, Shl, Shr, Low;
    TouchParts(v, at, w, j);
    var end, away := at % 8 + w, j - at / 8;
    assert at + w - 8 - 8 * j + q == end - 8 - 8 * away + q;
    NoBit(q);
    if away == 0 && end <= 8 {
      BitOfLow(Shl(v, 8 - end), 8, q);
      BitOfShl(v, 8 - end, q);
    } else if away == 0 {
      BitOfShr(v, end - 8, q);
    } else if away == 1 && end > 8 {
      BitOfLow(Shl(v, 16 - end), 8, q);
      BitOfShl(v, 16 - end, q);
    }
  }

  lemma NoBit(q: nat)
    ensures GetBit(0, q) == 0
  {
    ShrZero(q);
  }

  /** The bit at position g that the value there has for it. */
  function OwnBit(values: seq<byte>, w: nat, g: nat): nat
    requires w > 0
  {
    if g / w < |values| then GetBit(values[g / w], w - 1 - g % w) else 0
  }

  /** Every bit of v beyond its w bits falls, in a value u before it, on a bit that is set. */
  ghost predicate Covers(u: nat, v: nat, w: nat)
    requires w > 0
  {
    forall p: nat :: w <= p < 8 && GetBit(v, p) == 1 ==> GetBit(u, p % w) == 1
  }

  ghost predicate AllCover(values: seq<byte>, w: nat)
    requires w > 0
  {
    forall a, b :: 0 <= a < |values| && 0 <= b < |values| ==> Covers(values[a], values[b], w)
  }

  /** Where value k has its bits, as seen from position g. */
  lemma Owner(w: nat, k: nat, g: nat)
    requires w > 0
    ensures var p := Total(w, k) + w - 1 - g; var m, r := g / w, g % w;
            && (k < m ==> p < 0) && (k == m ==> p == w - 1 - r && Total(w, k) <= g)
            && (k > m ==> p >= w && p % w == w - 1 - r)
  {
    var m, r := g / w, g % w;
    var p := w * k + w - 1 - g;
    assert g == w * m + r;
    if k < m {
      MulMono(k + 1, m, w);
      assert w * (k + 1) == w * k + w;
    } else if k > m {
      assert p == (k - m) * w + (w - 1 - r);
      MulMono(1, k - m, w);
      EuclidUnique(p, w, k - m, w - 1 - r);
    }
  }

  /** Covered values show every bit as its owner has it. */
  lemma {:induction false} OverlaidBit(values: seq<byte>, w: nat, j: nat, q: nat)
    requires 1 <= w <= 7 && q < 8 && AllCover(values, w)
    ensures GetBit(Overlaid(values, w, j), q) == OwnBit(values, w, 8 * j + 7 - q)
    decreases |values|
  {
    hide GetBit, Or, Touch, Total, Covers;
    NoBit(q);
    if values != [] {
      var k := |values| - 1;
      var front, v, g := values[..k], values[k], 8 * j + 7 - q;
      var at := Total(w, k);
      OverlaidBit(front, w, j, q);
      BitOfOr(Overlaid(front, w, j), Touch(v, at, w, j), q);
      BitOfTouch(v, at, w, j, q);
      Owner(w, k, g);
      BitOnly(v, w - 1 - g % w);
      if k > g / w {
        BitOnly(front[g / w], w - 1 - g % w);
        Covered(values, w, g / w, k, at + w - 1 - g);
      }
      assert at <= g ==> at / 8 <= j;
    }
  }

  lemma BitOnly(v: nat, p: nat)
    ensures GetBit(v, p) <= 1
  {
  }

  lemma Covered(values: seq<byte>, w: nat, a: nat, b: nat, p: nat)
    requires w > 0 && AllCover(values, w) && a < |values| && b < |values| && p >= w
    ensures GetBit(values[b], p) == 1 ==> GetBit(values[a], p % w) == 1
    ensures GetBit(values[b], p) <= 1
  {
    hide GetBit;
    BitOnly(values[b], p);
    assert Covers(values[a], values[b], w);
    if p >= 8 {
      BytePow2();
      BitAbove(values[b], 8, p);
    }
  }

  // ----- the decoding, bit by bit

  /** The values cut to their width. */
  function Lows(values: seq<byte>, w: nat): (r: seq<byte>)
    requires w <= 8
    ensures |r| == |values|
  {
    seq(|values|, i requires 0 <= i < |values| => LowByte(values[i], w))
  }

  function LowByte(v: byte, w: nat): byte
    requires w <= 8
  {
    BytePow2();
    PowLe(w, 8);
    Low(v, w)
  }

  lemma {:induction false} LowDigits(values: seq<byte>, w: nat)
    requires w <= 8
    ensures DigitBits(values, w) == DigitBits(Lows(values, w), w)
    decreases |values|
  {
    hide Bits, Low;
    if values != [] {
      var k := |values| - 1;
      LowDigits(values[..k], w);
      assert Lows(values, w)[..k] == Lows(values[..k], w);
      SameLowBits(values[k], w);
    }
  }

  lemma NoBitsOf(v: nat)
    ensures Bits(v, 0) == []
  {
  }

  lemma SameLowBits(v: nat, w: nat)
    ensures Bits(v, w) == Bits(Low(v, w), w)
  {
    hide Bits, Low, Shr;
    BitsSplit(v, 0, w);
    NoBitsOf(Shr(v, w));
    assert [] + Bits(Low(v, w), w) == Bits(Low(v, w), w);
  }

  /** The bits of the decoding are those of the owners, whatever the values. */
  lemma DecodedBit(values: seq<byte>, w: nat, j: nat, q: nat)
    requires 1 <= w <= 7 && q < 8
    ensures Overlay(Lows(values, w), w) == WholeDigits(DigitBits(values, w), 8)
    ensures GetBit(Overlaid(Lows(values, w), w, j), q) == OwnBit(values, w, 8 * j + 7 - q)
  {
    hide GetBit, Overlay, Overlaid, DigitBits, WholeDigits, Low;
    var lows, g := Lows(values, w), 8 * j + 7 - q;
    LowDigits(values, w);
    OverlayIsDigits(lows, w);
    LowsCover(values, w);
    OverlaidBit(lows, w, j, q);
    if g / w < |values| { BitOfLow(values[g / w], w, w - 1 - g % w); }
  }

  lemma LowsCover(values: seq<byte>, w: nat)
    requires 1 <= w <= 8
    ensures AllCover(Lows(values, w), w)
  {
    hide GetBit, Low;
    var lows := Lows(values, w);
    forall a, b | 0 <= a < |lows| && 0 <= b < |lows| ensures Covers(lows[a], lows[b], w) {
      forall p: nat | w <= p < 8 ensures GetBit(lows[b], p) == 0 { BitOfLow(values[b], w, p); }
    }
  }

  lemma CoveredDecodes(values: seq<byte>, w: nat)
    requires 1 <= w <= 7 && AllCover(values, w)
    ensures Overlay(values, w) == WholeDigits(DigitBits(values, w), 8)
  {
    hide GetBit, Overlaid, DigitBits, WholeDigits, AllCover, OwnBit, Pow2;
    var lows := Lows(values, w);
    DecodedBit(values, w, 0, 0);
    BytePow2();
    var l, r := Overlay(values, w), Overlay(lows, w);
    forall j | 0 <= j < |l| ensures l[j] == r[j] {
      forall q: nat | q < 8 ensures GetBit(l[j], q) == GetBit(r[j], q) {
        OverlaidBit(values, w, j, q);
        DecodedBit(values, w, j, q);
      }
      SameBits(l[j], r[j], 8);
    }
  }

  // ----- which tables decode

  predicate Known(lookup: seq<int>, c: byte)
    requires |lookup| == 256
  {
    0 <= lookup[c] < 256
  }

  /** Any value of the table may come before any other. */
  ghost predicate TableCovers(lookup: seq<int>, w: nat)
    requires |lookup| == 256 && w > 0
  {
    forall c: byte, d: byte :: Known(lookup, c) && Known(lookup, d) ==> Covers(lookup[c], lookup[d], w)
  }

  lemma {:induction false} ValueFrom(lookup: seq<int>, text: seq<byte>, i: nat) returns (c: byte)
    requires |lookup| == 256 && i < |Significant(lookup, text)|
    ensures Known(lookup, c) && lookup[c] == Significant(lookup, text)[i]
    decreases |text|
  {
    var k := |text| - 1;
    if i < |Significant(lookup, text[..k])| {
      c := ValueFrom(lookup, text[..k], i);
    } else {
      c := text[k];
    }
  }

  lemma TextCovered(lookup: seq<int>, text: seq<byte>, w: nat)
    requires |lookup| == 256 && w > 0 && TableCovers(lookup, w)
    ensures AllCover(Significant(lookup, text), w)
  {
    hide Significant, Covers;
    var values := Significant(lookup, text);
    forall a, b | 0 <= a < |values| && 0 <= b < |values| ensures Covers(values[a], values[b], w) {
      var c := ValueFrom(lookup, text, a);
      var d := ValueFrom(lookup, text, b);
    }
  }

  /** As many values as fit before the last one of a byte. */
  function Count(w: nat): (n: nat)
    requires 1 <= w <= 7
    ensures 8 - w <= w * n < 8
  {
    if w == 1 then 7 else if w == 2 then 3 else if w == 3 then 2 else 1
  }

  function Copies(c: byte, n: nat): (s: seq<byte>)
    ensures |s| == n && forall i :: 0 <= i < n ==> s[i] == c
  {
    seq(n, i => c)
  }

  lemma {:induction false} SignificantCopies(lookup: seq<int>, c: byte, n: nat)
    requires |lookup| == 256 && Known(lookup, c)
    ensures Significant(lookup, Copies(c, n)) == Copies(lookup[c], n)
    decreases n
  {
    if n > 0 {
      SignificantCopies(lookup, c, n - 1);
      SignificantSnoc(lookup, Copies(c, n - 1), c);
      assert Copies(c, n) == Copies(c, n - 1) + [c];
    }
  }

  /** The positions in the first byte. */
  lemma InFirstByte(w: nat, p: nat)
    requires 1 <= w <= 7 && w <= p < 8
    ensures var n := Count(w); var at := Total(w, n); var g := at + w - 1 - p;
            && 0 <= g < 8 && at < 8 && Total(w, n + 1) >= 8
            && g / w < n && w - 1 - g % w == p % w
  {
    hide Count;
    FirstByteAt(w, Count(w), p);
  }

  lemma FirstByteAt(w: nat, n: nat, p: nat)
    requires w > 0 && w <= p < 8 && 8 - w <= w * n < 8
    ensures var g := w * n + w - 1 - p; 0 <= g < 8 && g / w < n && w - 1 - g % w == p % w && w * (n + 1) >= 8
  {
    var a, r := p / w, p % w;
    var g := w * n + w - 1 - p;
    assert p == w * a + r && a >= 1;
    assert g == (n - a) * w + (w - 1 - r);
    EuclidUnique(g, w, n - a, w - 1 - r);
  }

  /** A value u before a value v that it does not cover. */
  lemma UncoveredDiffers(u: byte, v: byte, w: nat, p: nat)
    requires 1 <= w <= 7 && w <= p < 8 && GetBit(v, p) == 1 && GetBit(u, p % w) != 1
    ensures var values := Copies(u, Count(w)) + [v];
            Overlay(values, w) != WholeDigits(DigitBits(values, w), 8)
  {
    hide GetBit, Or, Touch, Overlaid, DigitBits, WholeDigits, Total, Count;
    InFirstByte(w, p);
    var n := Count(w);
    var front := Copies(u, n);
    var values, at := front + [v], Total(w, n);
    var g := at + w - 1 - p;
    var q := 7 - g;
    OverlaidSnoc(front, v, w, 0);
    BitOfOr(Overlaid(front, w, 0), Touch(v, at, w, 0), q);
    BitOfTouch(v, at, w, 0, q);
    assert GetBit(Overlaid(values, w, 0), q) == 1;
    DecodedBit(values, w, 0, q);
    assert values[g / w] == u;
    assert |Overlay(values, w)| >= 1 && Overlay(values, w)[0] != Overlay(Lows(values, w), w)[0];
  }

  /** Every text is decoded exactly when the values of the table cover each other. */
  lemma TableExact(lookup: seq<int>, w: nat)
    requires |lookup| == 256 && 1 <= w <= 7
    ensures (forall text: seq<byte> :: Overlay(Significant(lookup, text), w) == Decode(text, w, lookup))
       <==> TableCovers(lookup, w)
  {
    hide Significant, Overlay, DigitBits, WholeDigits, GetBit;
    if TableCovers(lookup, w) {
      forall text: seq<byte> ensures Overlay(Significant(lookup, text), w) == Decode(text, w, lookup) {
        TextCovered(lookup, text, w);
        CoveredDecodes(Significant(lookup, text), w);
      }
    } else {
      var c: byte, d: byte :| Known(lookup, c) && Known(lookup, d) && !Covers(lookup[c], lookup[d], w);
      var p: nat :| w <= p < 8 && GetBit(lookup[d], p) == 1 && GetBit(lookup[c], p % w) != 1;
      var text := Copies(c, Count(w)) + [d];
      SignificantCopies(lookup, c, Count(w));
      SignificantSnoc(lookup, Copies(c, Count(w)), d);
      UncoveredDiffers(lookup[c], lookup[d], w, p);
      assert Overlay(Significant(lookup, text), w) != Decode(text, w, lookup);
    }
  }

  /** A table of digits covers itself, having no bits beyond the width. */
  lemma DigitsCover(lookup: seq<int>, w: nat)
    requires |lookup| == 256 && w > 0 && InTable(lookup, w)
    ensures TableCovers(lookup, w)
  {
    hide GetBit, Pow2;
    forall c: byte, d: byte | Known(lookup, c) && Known(lookup, d) ensures Covers(lookup[c], lookup[d], w) {
      forall p: nat | w <= p < 8 ensures GetBit(lookup[d], p) == 0 { BitAbove(lookup[d], w, p); }
    }
  }

  // ----- two tables of values wider than four bits

  /** A table that knows the characters 0 and 1. */
  function TwoValues(u: int, v: int): (lookup: seq<int>)
    ensures |lookup| == 256
  {
    seq(256, c => if c == 48 then u else if c == 49 then v else -1)
  }

  /** Two values, the first zero, of four bits each. */
  lemma Pair(v: byte)
    ensures Overlay([0, v], 4) == [v]
  {
    hide Shl, Low, Or, Overlaid, Touch;
    assert Total(4, 2) == 8 && Total(4, 1) == 4 && Total(4, 0) == 0;
    OverlaidSnoc([0], v, 4, 0);
    OverlaidSnoc([], 0, 4, 0);
    assert [0] + [v] == [0, v] && [] + [0] == [0];
    OverlaidAfter([], 4, 0);
    TouchParts(v, 4, 4, 0);
    TouchParts(0, 0, 4, 0);
    BytePow2();
    ShlZero(4);
    LowSmall(0);
    UnshiftedPart(v);
    LowSmall(v);
    ZeroOr(0);
    ZeroOr(v);
  }

  lemma SameDigitBits()
    ensures DigitBits([0, 31], 4) == DigitBits([0, 15], 4)
  {
    assert Shl(1, 4) == 16 && Pow2(4) == 16;
    hide Bits, Low, DigitBits, Shr;
    LowAbove(1, 4, 15);
    BitsSplit(31, 0, 4);
    NoBitsOf(Shr(31, 4));
    assert [] + Bits(15, 4) == Bits(15, 4);
    DigitBitsSnoc([0], 31, 4);
    DigitBitsSnoc([0], 15, 4);
    assert [0] + [31] == [0, 31] && [0] + [15] == [0, 15];
  }

  lemma TwoSignificant(u: byte, v: byte)
    ensures Significant(TwoValues(u, v), [48, 49]) == [u, v]
  {
    var lookup := TwoValues(u, v);
    assert lookup[48] == u && lookup[49] == v;
    NothingConsumed(lookup, 1);
    hide Significant, TwoValues;
    SignificantSnoc(lookup, [], 48);
    SignificantSnoc(lookup, [48], 49);
    assert [] + [48] == [48] && [48] + [49] == [48, 49] && [] + [u] == [u] && [u] + [v] == [u, v];
  }

  /** The values 0 and 31: the text 01 gives 31 and not 15. */
  lemma WideValueFails()
    ensures var lookup, text := TwoValues(0, 31), [48, 49];
            Overlay(Significant(lookup, text), 4) == [31] && Decode(text, 4, lookup) == [15] && !TableCovers(lookup, 4)
  {
    assert Pow2(4) == 16;
    hide Overlay, DigitBits, WholeDigits, Significant, TableCovers, TwoValues;
    var lookup, text: seq<byte> := TwoValues(0, 31), [48, 49];
    TwoSignificant(0, 31);
    Pair(31);
    Pair(15);
    OverlayIsDigits([0, 15], 4);
    SameDigitBits();
    TableExact(lookup, 4);
  }

  /** The value 31 alone: wider than its digits, and every text is decoded. */
  lemma WideValueHarmless()
    ensures var lookup := TwoValues(31, 31); !InTable(lookup, 4) && TableCovers(lookup, 4)
  {
    var lookup := TwoValues(31, 31);
    assert lookup[48] == 31 && Pow2(4) == 16;
    assert GetBit(31, 0) == 1;
    forall p: nat | 5 <= p < 8 ensures GetBit(31, p) == 0 {
      assert Pow2(5) == 32;
      BitAbove(31, 5, p);
    }
    hide GetBit;
    forall c: byte, d: byte | Known(lookup, c) && Known(lookup, d) ensures Covers(lookup[c], lookup[d], 4) {
      assert lookup[c] == 31 && lookup[d] == 31;
      forall p: nat | 4 <= p < 8 && GetBit(31, p) == 1 ensures GetBit(31, p % 4) == 1 { assert p == 4; }
    }
  }
}
