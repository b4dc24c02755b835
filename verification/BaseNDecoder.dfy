/** The decoder, the decoding table and the grouper of basecode.cpp. */
module BaseNDecoder {
  import opened NatBits
  import opened Bytes
  import opened BitStrings
  import opened BaseN
  import opened Pieces

  // ----- the decoding as a function

  /** The values of the characters the table knows; all others are skipped. */
  function Significant(lookup: seq<int>, text: seq<byte>): seq<byte>
    requires |lookup| == 256
  {
    if text == [] then []
    else
      var v := lookup[text[|text| - 1]];
      Significant(lookup, text[..|text| - 1]) + if 0 <= v < 256 then [v] else []
  }

  /** The whole bytes in the bits of the significant characters. */
  function Decode(text: seq<byte>, w: nat, lookup: seq<int>): seq<nat>
    requires |lookup| == 256
  {
    WholeDigits(DigitBits(Significant(lookup, text), w), 8)
  }

  lemma SignificantSnoc(lookup: seq<int>, text: seq<byte>, c: byte)
    requires |lookup| == 256
    ensures Significant(lookup, text + [c])
         == Significant(lookup, text) + if 0 <= lookup[c] < 256 then [lookup[c]] else []
  {
    assert (text + [c])[..|text|] == text;
  }

  lemma {:induction false} SignificantAppend(lookup: seq<int>, a: seq<byte>, b: seq<byte>)
    requires |lookup| == 256
    ensures Significant(lookup, a + b) == Significant(lookup, a) + Significant(lookup, b)
    decreases |b|
  {
    if b == [] {
      assert a + b == a;
    } else {
      hide Significant;
      var k := |b| - 1;
      var c := b[k];
      SignificantAppend(lookup, a, b[..k]);
      SignificantSnoc(lookup, a + b[..k], c);
      SignificantSnoc(lookup, b[..k], c);
      assert a + b == a + b[..k] + [c] && b == b[..k] + [c];
    }
  }

  lemma {:induction false} NothingSignificant(lookup: seq<int>, text: seq<byte>)
    requires |lookup| == 256 && forall i :: 0 <= i < |text| ==> !(0 <= lookup[text[i]] < 256)
    ensures Significant(lookup, text) == []
  {
    if text != [] { NothingSignificant(lookup, text[..|text| - 1]); }
  }

  // ----- one value into the bytes of the decoder

  /** The value fits the current byte. */
  lemma StepWithin(buf: seq<byte>, bytePos: nat, bitPos: nat, part: nat, v: nat, w: nat)
      returns (digit: byte, part': nat)
    requires Buffered(buf, bytePos, bitPos, part, 8) && v < Pow2(w) && bitPos + w <= 8
    ensures digit == Or(buf[bytePos], Shl(v, 8 - (bitPos + w)))
    ensures bitPos + w < 8 ==> Buffered(buf[bytePos := digit], bytePos, bitPos + w, part', 8)
    ensures bitPos + w < 8 ==>
              Held(buf[bytePos := digit], bytePos, bitPos + w, part', 8)
              == Held(buf, bytePos, bitPos, part, 8) + Bits(v, w)
    ensures bitPos + w == 8 ==> Between(buf[bytePos := digit], bytePos + 1, 0, 0, 8)
    ensures bitPos + w == 8 ==>
              Held(buf[bytePos := digit], bytePos + 1, 0, 0, 8) == Held(buf, bytePos, bitPos, part, 8) + Bits(v, w)
  {
    hide Shl, Shr, Low, Bits, Or, DigitBits, Pow2;
    var t := 8 - bitPos;
    PartDigit(part, bitPos, v, w, t);
    part' := Shl(part, w) + v;
    ShlBound(part', bitPos + w, t - w);
    BytePow2();
    PowPositive(t - w);
    digit := Shl(part', t - w);
    var buf' := buf[bytePos := digit];
    assert buf'[..bytePos] == buf[..bytePos];
    if bitPos + w == 8 {
      ByteComplete(buf, bytePos, digit);
      UnshiftedPart(part');
      assert DigitBits(buf[..bytePos], 8) + (Bits(part, bitPos) + Bits(v, w))
          == DigitBits(buf[..bytePos], 8) + Bits(part, bitPos) + Bits(v, w);
    }
  }

  lemma UnshiftedPart(p: nat)
    ensures Shl(p, 0) == p
  {
  }

  lemma BytePow2()
    ensures Pow2(8) == 256
  {
  }

  /** A completed byte joins the whole ones. */
  lemma ByteComplete(buf: seq<byte>, bytePos: nat, digit: byte)
    requires bytePos < |buf| && forall k :: bytePos < k < |buf| ==> buf[k] == 0
    ensures Between(buf[bytePos := digit], bytePos + 1, 0, 0, 8)
    ensures Held(buf[bytePos := digit], bytePos + 1, 0, 0, 8) == DigitBits(buf[..bytePos], 8) + Bits(digit, 8)
  {
    hide Shl, Bits, DigitBits, Pow2;
    BytePow2();
    NoBits(8);
    var buf' := buf[bytePos := digit];
    assert buf'[..bytePos + 1] == buf[..bytePos] + [digit];
    DigitBitsSnoc(buf[..bytePos], digit, 8);
  }

  /** The value spills into the next byte. */
  lemma StepAcross(buf: seq<byte>, bytePos: nat, bitPos: nat, part: nat, v: nat, w: nat)
      returns (digit: byte, next: byte, rest: nat)
    requires Buffered(buf, bytePos, bitPos, part, 8) && v < Pow2(w) && w <= 7 && bitPos + w > 8 && bytePos + 1 < |buf|
    ensures digit == Or(buf[bytePos], Shr(v, bitPos + w - 8))
    ensures next == Or(buf[bytePos + 1], Low(Shl(v, 16 - (bitPos + w)), 8))
    ensures Buffered(buf[bytePos := digit][bytePos + 1 := next], bytePos + 1, bitPos + w - 8, rest, 8)
    ensures Held(buf[bytePos := digit][bytePos + 1 := next], bytePos + 1, bitPos + w - 8, rest, 8)
         == Held(buf, bytePos, bitPos, part, 8) + Bits(v, w)
  {
    hide Shl, Shr, Low, Bits, Or, DigitBits, Pow2;
    var t := 8 - bitPos;
    var hi;
    hi, rest := FillDigit(part, bitPos, v, w, t);
    BytePow2();
    digit := Shl(part, t) + hi;
    ShlShl(v, 8 - w, t);
    next := Low(Shl(v, 8 - w + t), 8);
    ZeroOr(next);
    ShlBound(rest, w - t, 8 - (w - t));
    var buf' := buf[bytePos := digit];
    ByteComplete(buf, bytePos, digit);
    NoBits(8);
    var buf'' := buf'[bytePos + 1 := next];
    assert buf''[..bytePos + 1] == buf'[..bytePos + 1];
    assert DigitBits(buf[..bytePos], 8) + (Bits(part, bitPos) + Bits(hi, t)) + Bits(rest, w - t)
        == DigitBits(buf[..bytePos], 8) + Bits(part, bitPos) + (Bits(hi, t) + Bits(rest, w - t));
    assert Held(buf', bytePos + 1, 0, 0, 8) == DigitBits(buf'[..bytePos + 1], 8);
  }

  /** One value into the buffer: the one or two bytes it touches, and the bits then held. */
  lemma Place(buf: seq<byte>, bytePos: nat, bitPos: nat, part: nat, v: nat, w: nat)
      returns (buf': seq<byte>, part': nat)
    requires Buffered(buf, bytePos, bitPos, part, 8) && v < Pow2(w) && 1 <= w <= 7
    requires bytePos * 8 + bitPos + w <= |buf| * 8
    ensures bytePos < |buf| && bitPos < 8 && |buf'| == |buf|
    ensures bitPos + w <= 8 ==> Or(buf[bytePos], Shl(v, 8 - (bitPos + w))) < 256
    ensures bitPos + w <= 8 ==> buf' == buf[bytePos := Or(buf[bytePos], Shl(v, 8 - (bitPos + w)))]
    ensures bitPos + w > 8 ==>
              && bytePos + 1 < |buf| && Or(buf[bytePos], Shr(v, bitPos + w - 8)) < 256
              && Or(buf[bytePos + 1], Low(Shl(v, 16 - (bitPos + w)), 8)) < 256
    ensures bitPos + w > 8 ==>
              buf' == buf[bytePos := Or(buf[bytePos], Shr(v, bitPos + w - 8))]
                         [bytePos + 1 := Or(buf[bytePos + 1], Low(Shl(v, 16 - (bitPos + w)), 8))]
    ensures bitPos + w < 8 ==>
              && Between(buf', bytePos, bitPos + w, part', 8)
              && Held(buf', bytePos, bitPos + w, part', 8) == Held(buf, bytePos, bitPos, part, 8) + Bits(v, w)
    ensures bitPos + w >= 8 ==>
              && Between(buf', bytePos + 1, bitPos + w - 8, part', 8)
              && Held(buf', bytePos + 1, bitPos + w - 8, part', 8) == Held(buf, bytePos, bitPos, part, 8) + Bits(v, w)
  {
    hide Shl, Shr, Low, Bits, Or, DigitBits, Pow2, Held;
    if bitPos + w <= 8 {
      var digit;
      digit, part' := StepWithin(buf, bytePos, bitPos, part, v, w);
      buf' := buf[bytePos := digit];
      if bitPos + w == 8 { part' := 0; }
    } else {
      var digit, next;
      digit, next, part' := StepAcross(buf, bytePos, bitPos, part, v, w);
      buf' := buf[bytePos := digit][bytePos + 1 := next];
    }
  }

  lemma ZeroOr(x: nat)
    ensures Or(0, x) == x
  {
  }

  /** Every value in the table is a digit of w bits. */
  ghost predicate InTable(lookup: seq<int>, w: nat)
    requires |lookup| == 256
  {
    forall c :: 0 <= c < 256 && 0 <= lookup[c] < 256 ==> lookup[c] < Pow2(w)
  }

  lemma {:induction false} SignificantDigits(lookup: seq<int>, text: seq<byte>, w: nat)
    requires |lookup| == 256 && InTable(lookup, w)
    ensures AreDigits(Significant(lookup, text), w)
    decreases |text|
  {
    if text != [] { SignificantDigits(lookup, text[..|text| - 1], w); }
  }

  /** The bits of n characters. */
  ghost function Total(w: nat, n: nat): nat { w * n }

  lemma NextTotal(w: nat, n: nat)
    ensures Total(w, n + 1) == Total(w, n) + w && Total(w, 0) == 0
  {
  }

  // ----- any table: values that may have more bits than their width

  /** What a value that ends w bits after position `at` turns on in byte j; bits beyond the width fall
      over the bits before it. */
  function Touch(v: nat, at: nat, w: nat, j: nat): nat
    requires w <= 8
  {
    var end := at % 8 + w;
    if j == at / 8 then (if end <= 8 then Low(Shl(v, 8 - end), 8) else Shr(v, end - 8))
    else if j == at / 8 + 1 && end > 8 then Low(Shl(v, 16 - end), 8)
    else 0
  }

  /** Byte j of all values one after the other. */
  ghost function Overlaid(values: seq<byte>, w: nat, j: nat): nat
    requires w <= 8
  {
    if values == [] then 0
    else
      var k := |values| - 1;
      Or(Overlaid(values[..k], w, j), Touch(values[k], Total(w, k), w, j))
  }

  lemma TouchByte(v: byte, at: nat, w: nat, j: nat)
    requires w <= 8
    ensures Touch(v, at, w, j) < 256
  {
    hide Shl, Shr, Low;
    BytePow2();
  }

  lemma {:induction false} OverlaidByte(values: seq<byte>, w: nat, j: nat)
    requires w <= 8
    ensures Overlaid(values, w, j) < 256
  {
    hide Or, Touch, Pow2;
    BytePow2();
    if values != [] {
      var k := |values| - 1;
      OverlaidByte(values[..k], w, j);
      TouchByte(values[k], Total(w, k), w, j);
      OrBound(Overlaid(values[..k], w, j), Touch(values[k], Total(w, k), w, j), 8);
    }
  }

  lemma OverlaidSnoc(values: seq<byte>, v: byte, w: nat, j: nat)
    requires w <= 8
    ensures Overlaid(values + [v], w, j) == Or(Overlaid(values, w, j), Touch(v, Total(w, |values|), w, j)) < 256
  {
    OverlaidByte(values + [v], w, j);
    assert (values + [v])[..|values|] == values;
  }

  /** Nothing is turned on after the last value. */
  lemma {:induction false} OverlaidAfter(values: seq<byte>, w: nat, j: nat)
    requires 1 <= w <= 8 && 8 * j >= Total(w, |values|)
    ensures Overlaid(values, w, j) == 0
    decreases |values|
  {
    if values != [] {
      var k := |values| - 1;
      NextTotal(w, k);
      OverlaidAfter(values[..k], w, j);
      NoTouch(values[k], Total(w, k), w, j);
    }
  }

  lemma NoTouch(v: nat, at: nat, w: nat, j: nat)
    requires 1 <= w <= 8 && (8 * j >= at + w || j < at / 8)
    ensures Touch(v, at, w, j) == 0
  {
  }

  ghost function OverlaidAt(values: seq<byte>, w: nat, j: nat): byte
    requires w <= 8
  {
    OverlaidByte(values, w, j);
    Overlaid(values, w, j)
  }

  /** The first n bytes. */
  ghost function FirstBytes(values: seq<byte>, w: nat, n: nat): (s: seq<byte>)
    requires w <= 8
    ensures |s| == n && forall j :: 0 <= j < n ==> s[j] == Overlaid(values, w, j)
  {
    seq(n, j requires 0 <= j < n => OverlaidAt(values, w, j))
  }

  /** The whole bytes the values reach. */
  ghost function Overlay(values: seq<byte>, w: nat): seq<byte>
    requires w <= 8
  {
    FirstBytes(values, w, Total(w, |values|) / 8)
  }

  /** One more value of its width, on bytes that hold the bits of those before it. */
  lemma OverlayStep(values: seq<byte>, v: byte, w: nat, n: nat, part: nat) returns (part': nat)
    requires 1 <= w <= 7 && v < Pow2(w) && Total(w, |values| + 1) < 8 * n
    requires var at := Total(w, |values|); Buffered(FirstBytes(values, w, n), at / 8, at % 8, part, 8)
    ensures var at, at' := Total(w, |values|), Total(w, |values| + 1);
            && at / 8 < n && at' / 8 < n
            && Buffered(FirstBytes(values + [v], w, n), at' / 8, at' % 8, part', 8)
            && Held(FirstBytes(values + [v], w, n), at' / 8, at' % 8, part', 8)
            == Held(FirstBytes(values, w, n), at / 8, at % 8, part, 8) + Bits(v, w)
  {
    hide Shl, Shr, Low, Bits, Or, DigitBits, Pow2, Held, Buffered, Overlaid, Total;
    var at := Total(w, |values|);
    NextTotal(w, |values|);
    var pos, bit := at / 8, at % 8;
    var buf, next := FirstBytes(values, w, n), FirstBytes(values + [v], w, n);
    var buf';
    buf', part' := Place(buf, pos, bit, part, v, w);
    forall j | 0 <= j < n ensures next[j] == buf'[j] {
      NextByte(values, v, w, j);
      Updated(buf, buf', pos, bit + w, v, j);
    }
    assert next == buf';
    NextPosition(at, w);
    BufferedPos(next, (at + w) / 8, (at + w) % 8, part', 8);
  }

  lemma NextPosition(at: nat, w: nat)
    requires w <= 8
    ensures var end := at % 8 + w;
            if end < 8 then (at + w) / 8 == at / 8 && (at + w) % 8 == end
            else (at + w) / 8 == at / 8 + 1 && (at + w) % 8 == end - 8
  {
    var pos, end := at / 8, at % 8 + w;
    if end < 8 {
      EuclidUnique(at + w, 8, pos, end);
    } else {
      EuclidUnique(at + w, 8, pos + 1, end - 8);
    }
  }

  /** A byte `away` bytes from the one a digit starts in. */
  function WithDigit(x: nat, v: nat, end: nat, away: int): nat
    requires end <= 16
  {
    if away == 0 then Or(x, if end <= 8 then Shl(v, 8 - end) else Shr(v, end - 8))
    else if away == 1 && end > 8 then Or(x, Low(Shl(v, 16 - end), 8))
    else x
  }

  lemma NextByte(values: seq<byte>, v: byte, w: nat, j: nat)
    requires 1 <= w <= 7 && v < Pow2(w)
    ensures var at := Total(w, |values|);
            Overlaid(values + [v], w, j) == WithDigit(Overlaid(values, w, j), v, at % 8 + w, j - at / 8)
  {
    hide Shl, Shr, Low, Or, Pow2, Overlaid, Total, Touch;
    OverlaidSnoc(values, v, w, j);
    TouchOfDigit(v, Total(w, |values|), w, j);
    OrNothing(Overlaid(values, w, j));
  }

  lemma Updated(buf: seq<byte>, buf': seq<byte>, pos: nat, end: nat, v: nat, j: nat)
    requires j < |buf| == |buf'| && pos < |buf| && end <= 16 && (end > 8 ==> pos + 1 < |buf|)
    requires end <= 8 ==> Or(buf[pos], Shl(v, 8 - end)) < 256 && buf' == buf[pos := Or(buf[pos], Shl(v, 8 - end))]
    requires end > 8 ==>
               && Or(buf[pos], Shr(v, end - 8)) < 256 && Or(buf[pos + 1], Low(Shl(v, 16 - end), 8)) < 256
               && buf' == buf[pos := Or(buf[pos], Shr(v, end - 8))]
                             [pos + 1 := Or(buf[pos + 1], Low(Shl(v, 16 - end), 8))]
    ensures buf'[j] == WithDigit(buf[j], v, end, j - pos)
  {
    hide Shl, Shr, Low, Or;
  }

  lemma OrNothing(x: nat)
    ensures Or(x, 0) == x
  {
  }

  lemma TouchOfDigit(v: nat, at: nat, w: nat, j: nat)
    requires 1 <= w <= 7 && v < Pow2(w)
    ensures var end := at % 8 + w;
            Touch(v, at, w, j) == if j == at / 8 then (if end <= 8 then Shl(v, 8 - end) else Shr(v, end - 8))
                                  else if j == at / 8 + 1 && end > 8 then Low(Shl(v, 16 - end), 8) else 0
  {
    hide Shl, Shr, Low, Pow2;
    var end := at % 8 + w;
    if end <= 8 {
      ShlBound(v, w, 8 - end);
      PowPositive(8 - end);
      PowLe(w + (8 - end), 8);
      LowSmall(Shl(v, 8 - end));
    }
  }

  lemma {:induction false} PowLe(a: nat, b: nat)
    requires a <= b
    ensures Pow2(a) <= Pow2(b)
    decreases b
  {
    if a < b { PowLe(a, b - 1); }
  }

  lemma LowSmall(y: nat)
    requires y < Pow2(8)
    ensures Low(y, 8) == y
  {
    hide Shl, Low, Pow2;
    ShlZero(8);
    LowAbove(0, 8, y);
  }

  /** Values that fit their width fill the bytes with their bits. */
  lemma {:induction false} OverlayHeld(values: seq<byte>, w: nat, n: nat) returns (part: nat)
    requires 1 <= w <= 7 && AreDigits(values, w) && Total(w, |values|) < 8 * n
    ensures var at := Total(w, |values|);
            && at / 8 < n && Buffered(FirstBytes(values, w, n), at / 8, at % 8, part, 8)
            && Held(FirstBytes(values, w, n), at / 8, at % 8, part, 8) == DigitBits(values, w)
    decreases |values|
  {
    hide Shl, Bits, DigitBits, Pow2, Held, Buffered, Overlaid;
    if values == [] {
      part := 0;
      NextTotal(w, 0);
      var buf := FirstBytes(values, w, n);
      forall j | 0 <= j < n ensures buf[j] == 0 { OverlaidAfter(values, w, j); }
      EmptyBuffer(buf, 8);
      NothingHeld(buf, 8);
      EmptyDigits(w);
    } else {
      var k := |values| - 1;
      var rest, v := values[..k], values[k];
      assert values == rest + [v];
      NextTotal(w, k);
      part := OverlayHeld(rest, w, n);
      part := OverlayStep(rest, v, w, n, part);
      DigitBitsSnoc(rest, v, w);
    }
  }

  /** For a table of digits the bytes are the decoding. */
  lemma OverlayIsDigits(values: seq<byte>, w: nat)
    requires 1 <= w <= 7 && AreDigits(values, w)
    ensures Overlay(values, w) == WholeDigits(DigitBits(values, w), 8)
  {
    hide Shl, Bits, DigitBits, Pow2, Buffered, Overlaid, WholeDigits;
    var at := Total(w, |values|);
    var n := at / 8 + 1;
    var part := OverlayHeld(values, w, n);
    var buf := FirstBytes(values, w, n);
    WholeBytes([], buf[..at / 8], part, at % 8);
    EmptyDigits(8);
    assert [] + (DigitBits(buf[..at / 8], 8) + Bits(part, at % 8)) == DigitBits(values, w);
    assert buf[..at / 8] == Overlay(values, w);
  }

  class Decoder {
    const lookup: seq<int>
    const bitsPerChar: nat
    const outputBlockSize: nat
    const outBuf: array<byte>
    var bytePos: nat
    var bitPos: nat
    var output: seq<byte>

    /** As in the encoder: output before the message, text consumed, bytes output. */
    ghost var base: seq<byte>
    ghost var consumed: seq<byte>
    ghost var done: seq<byte>
    ghost const blockChars: nat
    ghost var inBlock: nat

    ghost predicate Parameters()
      reads this
    {
      && 1 <= bitsPerChar <= 7 && |lookup| == 256
      && outBuf.Length == outputBlockSize > 0 && outputBlockSize * 8 == Total(bitsPerChar, blockChars)
    }

    ghost function Values(): seq<byte>
      requires |lookup| == 256
      reads this
    {
      Significant(lookup, consumed)
    }

    /** The bytes output and the buffer are what the values make. */
    ghost predicate Filled(values: seq<byte>)
      requires 1 <= bitsPerChar <= 7
      reads this, outBuf
    {
      && (forall j :: 0 <= j < |done| ==> done[j] == Overlaid(values, bitsPerChar, j))
      && (forall j :: 0 <= j < outBuf.Length ==> outBuf[j] == Overlaid(values, bitsPerChar, |done| + j))
    }

    ghost predicate Valid()
      reads this, outBuf
    {
      && Parameters()
      && bytePos < outputBlockSize && bitPos < 8 && bytePos * 8 + bitPos == Total(bitsPerChar, inBlock)
      && 8 * |done| + bytePos * 8 + bitPos == Total(bitsPerChar, |Values()|)
      && output == base + done
      && (forall j :: 0 <= j < |done| ==> done[j] == Overlaid(Values(), bitsPerChar, j))
      && (bytePos > 0 || bitPos > 0 ==> Filled(Values()))
    }

    constructor (lookup: seq<int>, log2Base: nat, blockSize: nat, ghost blockChars: nat)
      requires 1 <= log2Base <= 7 && |lookup| == 256
      requires blockSize > 0 && blockSize * 8 == Total(log2Base, blockChars)
      ensures Valid() && fresh(outBuf) && output == base == consumed == []
      ensures this.lookup == lookup && bitsPerChar == log2Base && outputBlockSize == blockSize
    {
      this.lookup, bitsPerChar, outputBlockSize := lookup, log2Base, blockSize;
      outBuf := new byte[blockSize](i => 0);
      bytePos, bitPos, output := 0, 0, [];
      base, consumed, done, inBlock := [], [], [], 0;
      this.blockChars := blockChars;
      new;
      NextTotal(log2Base, 0);
    }

    /** The bit placement of `Put2`: one value goes into the buffer, what does not fit a byte is cut off. */
    method PutValue(value: byte, ghost values: seq<byte>)
      requires Parameters() && bitPos < 8 && bytePos * 8 + bitPos + bitsPerChar <= outputBlockSize * 8
      requires Filled(values) && 8 * |done| + bytePos * 8 + bitPos == Total(bitsPerChar, |values|)
      modifies outBuf, this`bytePos, this`bitPos
      ensures Filled(values + [value])
      ensures bytePos * 8 + bitPos == old(bytePos * 8 + bitPos) + bitsPerChar && bitPos < 8
    {
      hide Shl, Shr, Low, Or, Pow2, Overlaid, Touch, Total;
      var newBitPos := bitPos + bitsPerChar;
      ghost var w, at, pos := bitsPerChar, Total(bitsPerChar, |values|), bytePos;
      EuclidUnique(at, 8, |done| + pos, bitPos);
      BytePow2();
      ghost var buf := outBuf[..];
      forall j | 0 <= j < |buf|
        ensures Overlaid(values + [value], w, |done| + j) == Placed(buf[j], value, newBitPos, j - pos)
      {
        OverlaidSnoc(values, value, w, |done| + j);
        TouchParts(value, at, w, |done| + j);
        OrNothing(buf[j]);
      }
      forall j | 0 <= j < |done| ensures Overlaid(values + [value], w, j) == done[j] {
        OverlaidSnoc(values, value, w, j);
        NoTouch(value, at, w, j);
        OrNothing(done[j]);
      }
      PlacedByte(buf[pos], value, newBitPos, 0);
      if newBitPos <= 8 {
        outBuf[bytePos] := Or(outBuf[bytePos], Low(Shl(value, 8 - newBitPos), 8));
      } else {
        PlacedByte(buf[pos + 1], value, newBitPos, 1);
        outBuf[bytePos] := Or(outBuf[bytePos], Shr(value, newBitPos - 8));
        outBuf[bytePos + 1] := Or(outBuf[bytePos + 1], Low(Shl(value, 16 - newBitPos), 8));
      }
      forall j | 0 <= j < outBuf.Length ensures outBuf[j] == Overlaid(values + [value], w, |done| + j) {
        assert buf[j] == old(outBuf[j]);
      }
      bitPos := newBitPos;
      while bitPos >= 8
        modifies this`bitPos, this`bytePos
        invariant 0 <= bitPos <= 14
        invariant bytePos * 8 + bitPos == old(bytePos * 8 + bitPos) + bitsPerChar
      {
        bitPos := bitPos - 8;
        bytePos := bytePos + 1;
      }
    }

    /** The body of the outer loop of `Put2`: one character. */
    method PutOne(c: byte)
      requires Valid()
      modifies this`bytePos, this`bitPos, this`output, this`consumed, this`done, this`inBlock, outBuf
      ensures Valid() && consumed == old(consumed) + [c]
    {
      hide Significant, Total, Overlaid;
      var value := lookup[c];
      ghost var values := Values();
      SignificantSnoc(lookup, consumed, c);
      consumed := consumed + [c];
      if value < 0 || value >= 256 {
        assert values + [] == values;
        return;
      }
      ClearFirst(values);
      RoomForValue(bytePos, bitPos, bitsPerChar, outputBlockSize, inBlock, blockChars);
      NextTotal(bitsPerChar, |values|);
      PutValue(value, values);
      inBlock := inBlock + 1;
      FlushIfFull();
    }

    /** A block is cleared before its first bits. */
    method ClearFirst(ghost values: seq<byte>)
      requires Parameters() && 8 * |done| + bytePos * 8 + bitPos == Total(bitsPerChar, |values|)
      requires forall j :: 0 <= j < |done| ==> done[j] == Overlaid(values, bitsPerChar, j)
      requires bytePos > 0 || bitPos > 0 ==> Filled(values)
      modifies outBuf
      ensures Filled(values)
    {
      hide Total, Overlaid;
      if bytePos == 0 && bitPos == 0 {
        forall i | 0 <= i < outBuf.Length { outBuf[i] := 0; }
        forall j | 0 <= j < outBuf.Length ensures outBuf[j] == Overlaid(values, bitsPerChar, |done| + j) {
          OverlaidAfter(values, bitsPerChar, |done| + j);
        }
      }
    }

    method FlushIfFull()
      requires Parameters() && output == base + done && bitPos < 8 && bytePos * 8 + bitPos <= outputBlockSize * 8
      requires bytePos * 8 + bitPos == Total(bitsPerChar, inBlock)
      requires 8 * |done| + bytePos * 8 + bitPos == Total(bitsPerChar, |Values()|) && Filled(Values())
      modifies this`bytePos, this`bitPos, this`output, this`done, this`inBlock
      ensures Valid()
    {
      hide Significant, Total, Overlaid;
      if bytePos == outputBlockSize {
        output := output + outBuf[..];
        done := done + outBuf[..];
        bytePos, bitPos, inBlock := 0, 0, 0;
        NextTotal(bitsPerChar, 0);
      }
    }

    method EndMessage()
      requires Valid()
      modifies this`bytePos, this`bitPos, this`output, this`base, this`consumed, this`done, this`inBlock
      ensures Valid() && consumed == [] && base == output
      ensures output == old(base) + Overlay(Significant(lookup, old(consumed)), bitsPerChar)
      ensures InTable(lookup, bitsPerChar) ==> output == old(base) + Decode(old(consumed), bitsPerChar, lookup)
    {
      hide Total, Overlaid, Overlay, Decode, InTable, Significant;
      WholeOf(done, outBuf[..bytePos], bitPos, Values(), bitsPerChar);
      DecodedText(lookup, consumed, bitsPerChar);
      output := output + outBuf[..bytePos];
      bytePos, bitPos := 0, 0;
      base, consumed, done, inBlock := output, [], [], 0;
      NothingConsumed(lookup, bitsPerChar);
    }

    /** `Put2`: any piece of the text; the last piece also ends it. */
    method Put2(begin: seq<byte>, messageEnd: bool)
      requires Valid()
      modifies this`bytePos, this`bitPos, this`output, this`base, this`consumed, this`done, this`inBlock, outBuf
      ensures Valid()
      ensures !messageEnd ==> consumed == old(consumed) + begin && base == old(base)
      ensures messageEnd ==> consumed == [] && base == output
      ensures messageEnd ==> output == old(base) + Overlay(Significant(lookup, old(consumed) + begin), bitsPerChar)
      ensures messageEnd && InTable(lookup, bitsPerChar) ==>
                output == old(base) + Decode(old(consumed) + begin, bitsPerChar, lookup)
    {
      DecoderParameters(this);
      hide *;
      for i := 0 to |begin|
        invariant Valid() && consumed == old(consumed) + begin[..i] && base == old(base)
      {
        PutOne(begin[i]);
        assert begin[..i + 1] == begin[..i] + [begin[i]];
      }
      assert begin[..|begin|] == begin;
      if messageEnd {
        EndMessage();
      }
    }
  }

  lemma DecodedText(lookup: seq<int>, text: seq<byte>, w: nat)
    requires |lookup| == 256 && 1 <= w <= 7
    ensures InTable(lookup, w) ==> Overlay(Significant(lookup, text), w) == Decode(text, w, lookup)
  {
    hide InTable, Overlay, Significant, DigitBits, WholeDigits;
    if InTable(lookup, w) {
      SignificantDigits(lookup, text, w);
      OverlayIsDigits(Significant(lookup, text), w);
    }
  }

  lemma NothingConsumed(lookup: seq<int>, w: nat)
    requires |lookup| == 256
    ensures Significant(lookup, []) == [] && Total(w, 0) == 0
  {
  }

  lemma DecoderParameters(d: Decoder)
    requires d.Valid()
    ensures |d.lookup| == 256 && 1 <= d.bitsPerChar <= 7
  {
  }

  /** A byte `away` bytes from the one the value starts in. */
  function Placed(x: nat, v: nat, newBitPos: nat, away: int): nat
    requires newBitPos <= 16
  {
    if away == 0 then Or(x, if newBitPos <= 8 then Low(Shl(v, 8 - newBitPos), 8) else Shr(v, newBitPos - 8))
    else if away == 1 && newBitPos > 8 then Or(x, Low(Shl(v, 16 - newBitPos), 8))
    else x
  }

  lemma PlacedByte(x: byte, v: byte, newBitPos: nat, away: int)
    requires newBitPos <= 16
    ensures Placed(x, v, newBitPos, away) < 256
  {
    hide Or, Shl, Shr, Low, Pow2;
    BytePow2();
    if newBitPos <= 8 {
      OrBound(x, Low(Shl(v, 8 - newBitPos), 8), 8);
    } else {
      OrBound(x, Shr(v, newBitPos - 8), 8);
      OrBound(x, Low(Shl(v, 16 - newBitPos), 8), 8);
    }
  }

  lemma TouchParts(v: nat, at: nat, w: nat, j: nat)
    requires w <= 8
    ensures var end, away := at % 8 + w, j - at / 8;
            Touch(v, at, w, j) == if away == 0 then (if end <= 8 then Low(Shl(v, 8 - end), 8) else Shr(v, end - 8))
                                  else if away == 1 && end > 8 then Low(Shl(v, 16 - end), 8) else 0
  {
    hide Shl, Shr, Low;
  }

  /** The bytes output and the complete ones of the buffer. */
  lemma WholeOf(done: seq<byte>, buffered: seq<byte>, bitPos: nat, values: seq<byte>, w: nat)
    requires w <= 8 && bitPos < 8 && 8 * |done| + 8 * |buffered| + bitPos == Total(w, |values|)
    requires forall j :: 0 <= j < |done| ==> done[j] == Overlaid(values, w, j)
    requires forall j :: 0 <= j < |buffered| ==> buffered[j] == Overlaid(values, w, |done| + j)
    ensures done + buffered == Overlay(values, w)
  {
    hide Overlaid, Total;
    var n := |done| + |buffered|;
    EuclidUnique(Total(w, |values|), 8, n, bitPos);
    var all := Overlay(values, w);
    assert |all| == n;
    forall j | 0 <= j < n ensures (done + buffered)[j] == all[j] {
      if j >= |done| { assert buffered[j - |done|] == Overlaid(values, w, |done| + (j - |done|)); }
    }
  }

  lemma RoomForValue(pos: nat, bit: nat, w: nat, size: nat, inBlock: nat, blockChars: nat)
    requires w > 0 && pos < size && bit < 8
    requires pos * 8 + bit == Total(w, inBlock) && size * 8 == Total(w, blockChars)
    ensures pos * 8 + bit + w <= size * 8
    ensures Total(w, inBlock + 1) == Total(w, inBlock) + w
  {
    NextMultiple(w, inBlock, blockChars);
  }

  lemma NextMultiple(w: nat, n: nat, m: nat)
    requires w * n < w * m
    ensures w * (n + 1) == w * n + w && w * (n + 1) <= w * m
  {
    if m <= n { MulMono(m, n, w); }
    MulMono(n + 1, m, w);
  }

  lemma WholeBytes(done: seq<byte>, buffered: seq<byte>, part: nat, bitPos: nat)
    requires bitPos < 8
    ensures WholeDigits(DigitBits(done, 8) + (DigitBits(buffered, 8) + Bits(part, bitPos)), 8) == done + buffered
  {
    hide *;
    BytePow2();
    var all: seq<nat> := done + buffered;
    DigitBitsAppend(done, buffered, 8);
    WholeDigitsOfBits(all, Bits(part, bitPos), 8);
    assert DigitBits(done, 8) + (DigitBits(buffered, 8) + Bits(part, bitPos))
        == DigitBits(done, 8) + DigitBits(buffered, 8) + Bits(part, bitPos);
  }

  /** `BaseN_Decoder::IsolatedInitialize` */
  method NewDecoder(lookup: seq<int>, log2Base: int) returns (d: Decoder?)
    requires |lookup| == 256
    ensures d == null <==> log2Base <= 0 || log2Base >= 8
    ensures d != null ==> d.Valid() && fresh(d) && fresh(d.outBuf) && d.output == d.base == d.consumed == []
    ensures d != null ==> d.lookup == lookup && d.bitsPerChar == log2Base
    ensures d != null ==> LeastBlock(d.outputBlockSize, 8, log2Base)
  {
    if log2Base <= 0 || log2Base >= 8 {
      return null;
    }
    var size;
    ghost var chars;
    size, chars := BlockSize(8, log2Base);
    d := new Decoder(lookup, log2Base, size, chars);
  }

  // ----- the decoding table

  predicate IsAlpha(c: byte) { 65 <= c <= 90 || 97 <= c <= 122 }
  function ToUpper(c: byte): byte { if 97 <= c <= 122 then c - 32 else c }
  function ToLower(c: byte): byte { if 65 <= c <= 90 then c + 32 else c }

  /** Characters that share a table entry. */
  function Fold(c: byte, caseInsensitive: bool): byte { if caseInsensitive then ToUpper(c) else c }

  /** The last of the first n letters of the alphabet that c stands for, or -1. */
  function LastMatch(alphabet: seq<byte>, n: nat, caseInsensitive: bool, c: byte): (r: int)
    requires n <= |alphabet|
    ensures -1 <= r < n
    ensures r >= 0 ==> Fold(alphabet[r], caseInsensitive) == Fold(c, caseInsensitive)
  {
    if n == 0 then -1
    else if Fold(alphabet[n - 1], caseInsensitive) == Fold(c, caseInsensitive) then n - 1
    else LastMatch(alphabet, n - 1, caseInsensitive, c)
  }

  /** `InitializeDecodingLookupArray` */
  method InitializeDecodingLookupArray(alphabet: seq<byte>, base: nat, caseInsensitive: bool) returns (lookup: seq<int>)
    requires base <= |alphabet|
    ensures |lookup| == 256
    ensures forall c :: 0 <= c < 256 ==> lookup[c] == LastMatch(alphabet, base, caseInsensitive, c)
  {
    var table := new int[256](i => -1);
    for i := 0 to base
      invariant forall c :: 0 <= c < 256 ==> table[c] == LastMatch(alphabet, i, caseInsensitive, c)
    {
      if caseInsensitive && IsAlpha(alphabet[i]) {
        table[ToUpper(alphabet[i])] := i;
        table[ToLower(alphabet[i])] := i;
      } else {
        table[alphabet[i]] := i;
      }
    }
    lookup := table[..];
  }

  /** No two letters share an entry. */
  ghost predicate Distinct(alphabet: seq<byte>, n: nat, caseInsensitive: bool)
    requires n <= |alphabet|
  {
    forall i, j :: 0 <= i < j < n ==> Fold(alphabet[i], caseInsensitive) != Fold(alphabet[j], caseInsensitive)
  }

  ghost predicate Inverted(alphabet: seq<byte>, n: nat, caseInsensitive: bool, i: nat)
    requires i < n <= |alphabet|
  {
    LastMatch(alphabet, n, caseInsensitive, alphabet[i]) == i
  }

  /** The table inverts the alphabet exactly when the letters are distinct. */
  lemma LookupInverts(alphabet: seq<byte>, n: nat, caseInsensitive: bool)
    requires n <= |alphabet|
    ensures (forall i :: 0 <= i < n ==> Inverted(alphabet, n, caseInsensitive, i))
       <==> Distinct(alphabet, n, caseInsensitive)
  {
    if Distinct(alphabet, n, caseInsensitive) {
      forall i | 0 <= i < n ensures Inverted(alphabet, n, caseInsensitive, i) {
        LastMatchFinds(alphabet, n, caseInsensitive, alphabet[i], i);
      }
    } else {
      hide *;
      var i, j := CollidingLetters(alphabet, n, caseInsensitive);
      LastMatchFinds(alphabet, n, caseInsensitive, alphabet[i], j);
      NotInverted(alphabet, n, caseInsensitive, i);
    }
  }

  lemma NotInverted(alphabet: seq<byte>, n: nat, caseInsensitive: bool, i: nat)
    requires i < n <= |alphabet| && i < LastMatch(alphabet, n, caseInsensitive, alphabet[i])
    ensures !Inverted(alphabet, n, caseInsensitive, i)
  {
  }

  lemma CollidingLetters(alphabet: seq<byte>, n: nat, caseInsensitive: bool) returns (i: nat, j: nat)
    requires n <= |alphabet| && !Distinct(alphabet, n, caseInsensitive)
    ensures i < j < n && Fold(alphabet[i], caseInsensitive) == Fold(alphabet[j], caseInsensitive)
  {
    i, j :| 0 <= i < j < n && Fold(alphabet[i], caseInsensitive) == Fold(alphabet[j], caseInsensitive);
  }

  lemma {:induction false} LastMatchFinds(alphabet: seq<byte>, n: nat, caseInsensitive: bool, c: byte, j: nat)
    requires j < n <= |alphabet| && Fold(alphabet[j], caseInsensitive) == Fold(c, caseInsensitive)
    ensures j <= LastMatch(alphabet, n, caseInsensitive, c)
  {
    if j < n - 1 { LastMatchFinds(alphabet, n - 1, caseInsensitive, c, j); }
  }

  // ----- the grouper

  /** The text with a separator between groups of `size` characters. */
  function Grouped(text: seq<byte>, size: nat, separator: seq<byte>): seq<byte>
    decreases |text|
  {
    if size == 0 || |text| <= size then text else text[..size] + separator + Grouped(text[size..], size, separator)
  }

  /** The length of the last group. */
  function LastGroup(text: seq<byte>, size: nat): (n: nat)
    requires size > 0
    ensures n <= size
    decreases |text|
  {
    if |text| <= size then |text| else LastGroup(text[size..], size)
  }

  /** Characters that fit the last group follow directly. */
  lemma {:induction false} ExtendGroup(text: seq<byte>, run: seq<byte>, size: nat, separator: seq<byte>)
    requires size > 0 && LastGroup(text, size) + |run| <= size
    ensures Grouped(text + run, size, separator) == Grouped(text, size, separator) + run
    ensures LastGroup(text + run, size) == LastGroup(text, size) + |run|
    decreases |text|
  {
    if |text| > size {
      ExtendGroup(text[size..], run, size, separator);
      assert (text + run)[..size] == text[..size] && (text + run)[size..] == text[size..] + run;
    }
  }

  /** After a full group comes the separator. */
  lemma {:induction false} NewGroup(text: seq<byte>, run: seq<byte>, size: nat, separator: seq<byte>)
    requires size > 0 && LastGroup(text, size) == size && 0 < |run| <= size
    ensures Grouped(text + run, size, separator) == Grouped(text, size, separator) + separator + run
    ensures LastGroup(text + run, size) == |run|
    decreases |text|
  {
    if |text| > size {
      NewGroup(text[size..], run, size, separator);
      assert (text + run)[..size] == text[..size] && (text + run)[size..] == text[size..] + run;
    } else {
      assert (text + run)[..size] == text && (text + run)[size..] == run;
    }
  }

  class Grouper {
    const groupSize: nat
    const separator: seq<byte>
    const terminator: seq<byte>
    var counter: nat
    var output: seq<byte>

    ghost var base: seq<byte>
    ghost var consumed: seq<byte>

    ghost predicate Valid()
      reads this
    {
      && output == base + Grouped(consumed, groupSize, separator)
      && (groupSize > 0 ==> counter == LastGroup(consumed, groupSize))
    }

    constructor (groupSize: nat, separator: seq<byte>, terminator: seq<byte>)
      ensures Valid() && output == base == consumed == []
      ensures this.groupSize == groupSize && this.separator == separator && this.terminator == terminator
    {
      this.groupSize, this.separator, this.terminator := groupSize, separator, terminator;
      counter, output, base, consumed := 0, [], [], [];
    }

    /** `Grouper::Put2` */
    method Put2(begin: seq<byte>, messageEnd: bool)
      requires Valid()
      modifies this
      ensures Valid()
      ensures !messageEnd ==> consumed == old(consumed) + begin && base == old(base)
      ensures messageEnd ==> consumed == [] && base == output
      ensures messageEnd ==> output == old(base) + Grouped(old(consumed) + begin, groupSize, separator) + terminator
    {
      if groupSize > 0 {
        PutGroups(begin);
      } else {
        output := output + begin;
        consumed := consumed + begin;
      }
      if messageEnd {
        output := output + terminator;
        counter := 0;
        base, consumed := output, [];
      }
    }

    method PutGroups(begin: seq<byte>)
      requires Valid() && groupSize > 0
      modifies this
      ensures Valid() && consumed == old(consumed) + begin && base == old(base)
    {
      hide Grouped, LastGroup;
      var pos := 0;
      while pos < |begin|
        invariant 0 <= pos <= |begin| && Valid() && consumed == old(consumed) + begin[..pos] && base == old(base)
      {
        ghost var newGroup := counter == groupSize;
        if counter == groupSize {
          output := output + separator;
          counter := 0;
        }
        var len := if |begin| - pos < groupSize - counter then |begin| - pos else groupSize - counter;
        ghost var run := begin[pos..pos + len];
        if newGroup {
          NewGroup(consumed, run, groupSize, separator);
        } else {
          ExtendGroup(consumed, run, groupSize, separator);
        }
        output := output + begin[pos..pos + len];
        consumed := consumed + run;
        assert begin[..pos + len] == begin[..pos] + run;
        pos := pos + len;
        counter := counter + len;
      }
      assert begin[..|begin|] == begin;
    }
  }

  // ----- decoding what was encoded

  /** The table undoes the alphabet, and knows neither padding nor separators. */
  ghost predicate Inverts(lookup: seq<int>, alphabet: seq<byte>, w: nat)
    requires |lookup| == 256
  {
    && |alphabet| >= Pow2(w) && Pow2(w) <= 256 && InTable(lookup, w)
    && forall d: nat :: d < Pow2(w) ==> lookup[alphabet[d]] == d
  }

  predicate Unknown(lookup: seq<int>, text: seq<byte>)
    requires |lookup| == 256
  {
    forall i :: 0 <= i < |text| ==> !(0 <= lookup[text[i]] < 256)
  }

  lemma {:induction false} SpellingIsSignificant(lookup: seq<int>, alphabet: seq<byte>, digits: seq<nat>, w: nat)
    requires |lookup| == 256 && Inverts(lookup, alphabet, w) && AreDigits(digits, w)
    ensures Significant(lookup, Spell(digits, alphabet)) == digits
    decreases |digits|
  {
    if digits != [] {
      var k := |digits| - 1;
      SpellingIsSignificant(lookup, alphabet, digits[..k], w);
      assert digits == digits[..k] + [digits[k]];
      SpellAppend(digits[..k], [digits[k]], alphabet);
      SignificantSnoc(lookup, Spell(digits[..k], alphabet), alphabet[digits[k]]);
    }
  }

  lemma {:induction false} GroupingIsInsignificant(lookup: seq<int>, text: seq<byte>, size: nat, separator: seq<byte>)
    requires |lookup| == 256 && Unknown(lookup, separator)
    ensures Significant(lookup, Grouped(text, size, separator)) == Significant(lookup, text)
    decreases |text|
  {
    if size > 0 && |text| > size {
      GroupingIsInsignificant(lookup, text[size..], size, separator);
      NothingSignificant(lookup, separator);
      SignificantAppend(lookup, text[..size], separator);
      SignificantAppend(lookup, text[..size] + separator, Grouped(text[size..], size, separator));
      SignificantAppend(lookup, text[..size], text[size..]);
      assert text == text[..size] + text[size..];
    }
  }

  lemma PaddingIsInsignificant(lookup: seq<int>, count: nat, blockSize: nat, padding: int)
    requires |lookup| == 256 && blockSize > 0 && -1 <= padding < 256
    requires padding == -1 || !(0 <= lookup[padding] < 256)
    ensures Significant(lookup, PaddingFor(count, blockSize, padding)) == []
  {
    NothingSignificant(lookup, PaddingFor(count, blockSize, padding));
  }

  /** Decoding the padded, grouped and terminated encoding of a message gives the message. */
  lemma DecodeEncode(message: seq<byte>, w: nat, alphabet: seq<byte>, blockSize: nat, padding: int,
                     groupSize: nat, separator: seq<byte>, terminator: seq<byte>, lookup: seq<int>)
    requires 1 <= w <= 7 && blockSize > 0 && -1 <= padding < 256
    requires |lookup| == 256 && Inverts(lookup, alphabet, w)
    requires padding == -1 || !(0 <= lookup[padding] < 256)
    requires Unknown(lookup, separator) && Unknown(lookup, terminator)
    ensures |alphabet| >= Pow2(w)
    ensures Decode(Grouped(Encode(message, w, alphabet, blockSize, padding), groupSize, separator) + terminator,
                   w, lookup)
         == message
  {
    hide Significant, Spell, PaddingFor, Grouped, Digits, DigitBits, WholeDigits, Pow2;
    var digits := MessageDigits(message, w);
    EncodeDigits(message, w);
    var text := Encode(message, w, alphabet, blockSize, padding);
    SpellingIsSignificant(lookup, alphabet, digits, w);
    PaddingIsInsignificant(lookup, |digits|, blockSize, padding);
    SignificantAppend(lookup, Spell(digits, alphabet), PaddingFor(|digits|, blockSize, padding));
    GroupingIsInsignificant(lookup, text, groupSize, separator);
    NothingSignificant(lookup, terminator);
    SignificantAppend(lookup, Grouped(text, groupSize, separator), terminator);
    assert digits + [] + [] == digits;
    BytePow2();
    Regroup(message, 8, w);
  }

  /** The table built for an alphabet without colliding letters undoes it. */
  lemma TableInverts(alphabet: seq<byte>, w: nat, caseInsensitive: bool, lookup: seq<int>)
    requires Pow2(w) <= 256 && Pow2(w) <= |alphabet| && Distinct(alphabet, Pow2(w), caseInsensitive)
    requires |lookup| == 256
    requires forall c :: 0 <= c < 256 ==> lookup[c] == LastMatch(alphabet, Pow2(w), caseInsensitive, c)
    ensures Inverts(lookup, alphabet, w)
  {
    hide Pow2, Shl, LastMatch, Distinct;
    LookupInverts(alphabet, Pow2(w), caseInsensitive);
    forall d: nat | d < Pow2(w) ensures lookup[alphabet[d]] == d {
      assert Inverted(alphabet, Pow2(w), caseInsensitive, d);
    }
  }

  // ----- alphabets with colliding letters

  /** The table of an alphabet. */
  ghost predicate IsTable(lookup: seq<int>, alphabet: seq<byte>, n: nat, caseInsensitive: bool) {
    && |lookup| == 256 && n <= |alphabet|
    && forall c :: 0 <= c < 256 ==> lookup[c] == LastMatch(alphabet, n, caseInsensitive, c)
  }

  /** The digits as they are read back, colliding letters or not. */
  ghost function Reread(lookup: seq<int>, alphabet: seq<byte>, digits: seq<nat>): (r: seq<nat>)
    requires |lookup| == 256 && forall i :: 0 <= i < |digits| ==> digits[i] < |alphabet|
    requires forall d :: 0 <= d < |alphabet| ==> lookup[alphabet[d]] >= 0
    ensures |r| == |digits|
  {
    seq(|digits|, i requires 0 <= i < |digits| => lookup[alphabet[digits[i]]])
  }

  /** Every letter of the alphabet is in its table, with a digit. */
  lemma LetterKnown(lookup: seq<int>, alphabet: seq<byte>, n: nat, caseInsensitive: bool, d: nat)
    requires IsTable(lookup, alphabet, n, caseInsensitive) && d < n
    ensures d <= lookup[alphabet[d]] < n
  {
    LastMatchFinds(alphabet, n, caseInsensitive, alphabet[d], d);
  }

  lemma {:induction false} SpellingReread(lookup: seq<int>, alphabet: seq<byte>, digits: seq<nat>)
    requires |lookup| == 256 && forall i :: 0 <= i < |digits| ==> digits[i] < |alphabet|
    requires forall d :: 0 <= d < |alphabet| ==> 0 <= lookup[alphabet[d]] < 256
    ensures Significant(lookup, Spell(digits, alphabet)) == Reread(lookup, alphabet, digits)
    decreases |digits|
  {
    if digits != [] {
      var k := |digits| - 1;
      SpellingReread(lookup, alphabet, digits[..k]);
      assert digits == digits[..k] + [digits[k]];
      SpellAppend(digits[..k], [digits[k]], alphabet);
      SignificantSnoc(lookup, Spell(digits[..k], alphabet), alphabet[digits[k]]);
    }
  }

  /** A byte whose first digit is d. */
  lemma FirstDigitOf(d: nat, w: nat) returns (b: byte)
    requires 1 <= w <= 7 && d < Pow2(w)
    ensures var digits := MessageDigits([b], w); digits != [] && digits[0] == d
    ensures Bits(b, 8)[..w] == Bits(d, w)
  {
    hide Bits, Num, Shl, DigitBits, Pow2;
    ShlBound(d, w, 8 - w);
    BytePow2();
    PowPositive(8 - w);
    b := Shl(d, 8 - w);
    BitsJoin(d, w, 0, 8 - w);
    OneDigit(b, 8);
    NumBits(d, w);
    assert Bits(b, 8)[..w] == Bits(d, w);
  }

  /** A first digit read back wrong makes a first byte wrong. */
  lemma WrongByte(b: byte, d: nat, wrong: nat, rest: seq<nat>, w: nat)
    requires 1 <= w <= 7 && d < Pow2(w) && wrong < Pow2(w) && d != wrong && Bits(b, 8)[..w] == Bits(d, w)
    ensures WholeDigits(DigitBits([wrong] + rest, w), 8) != [b]
  {
    hide Bits, Num, DigitBits, Pow2;
    var x := DigitBits([wrong] + rest, w);
    DigitBitsCons(wrong, rest, w);
    DigitBitsAreBits([wrong] + rest, w);
    if WholeDigits(x, 8) == [b] {
      assert WholeDigits(x, 8)[0] == b && Num(x[..8]) == b;
      BitsNum(x[..8]);
      assert x[..8][..w] == x[..w] == Bits(wrong, w);
      NumBits(d, w);
      NumBits(wrong, w);
    }
  }

  /** What is decoded: the whole bytes of the digits read back. */
  lemma DecodeReread(message: seq<byte>, w: nat, alphabet: seq<byte>, blockSize: nat, padding: int,
                     groupSize: nat, separator: seq<byte>, terminator: seq<byte>, lookup: seq<int>)
    requires 1 <= w <= 7 && blockSize > 0 && -1 <= padding < 256 && |alphabet| == Pow2(w) && |lookup| == 256
    requires forall d :: 0 <= d < |alphabet| ==> 0 <= lookup[alphabet[d]] < 256
    requires padding == -1 || !(0 <= lookup[padding] < 256)
    requires Unknown(lookup, separator) && Unknown(lookup, terminator)
    ensures AreDigits(MessageDigits(message, w), w)
    ensures Decode(Grouped(Encode(message, w, alphabet, blockSize, padding), groupSize, separator) + terminator,
                   w, lookup)
         == WholeDigits(DigitBits(Reread(lookup, alphabet, MessageDigits(message, w)), w), 8)
  {
    hide Significant, Spell, PaddingFor, Grouped, Digits, DigitBits, WholeDigits, Pow2, Reread;
    var digits := MessageDigits(message, w);
    EncodeDigits(message, w);
    var text := Encode(message, w, alphabet, blockSize, padding);
    SpellingReread(lookup, alphabet, digits);
    PaddingIsInsignificant(lookup, |digits|, blockSize, padding);
    SignificantAppend(lookup, Spell(digits, alphabet), PaddingFor(|digits|, blockSize, padding));
    GroupingIsInsignificant(lookup, text, groupSize, separator);
    NothingSignificant(lookup, terminator);
    SignificantAppend(lookup, Grouped(text, groupSize, separator), terminator);
    assert Reread(lookup, alphabet, digits) + [] + [] == Reread(lookup, alphabet, digits);
  }

  ghost predicate ComesBack(message: seq<byte>, w: nat, alphabet: seq<byte>, blockSize: nat, padding: int,
                            groupSize: nat, separator: seq<byte>, terminator: seq<byte>, lookup: seq<int>)
    requires 1 <= w && blockSize > 0 && -1 <= padding < 256 && |alphabet| >= Pow2(w) && |lookup| == 256
  {
    var text := Encode(message, w, alphabet, blockSize, padding);
    Decode(Grouped(text, groupSize, separator) + terminator, w, lookup) == message
  }

  /** With the table made for the alphabet, every message comes back exactly when no two letters collide. */
  lemma RoundTripExact(w: nat, alphabet: seq<byte>, caseInsensitive: bool, blockSize: nat, padding: int,
                       groupSize: nat, separator: seq<byte>, terminator: seq<byte>, lookup: seq<int>)
    requires 1 <= w <= 7 && blockSize > 0 && -1 <= padding < 256 && |alphabet| == Pow2(w)
    requires IsTable(lookup, alphabet, Pow2(w), caseInsensitive)
    requires padding == -1 || lookup[padding] == -1
    requires Unknown(lookup, separator) && Unknown(lookup, terminator)
    ensures (forall message: seq<byte> ::
               ComesBack(message, w, alphabet, blockSize, padding, groupSize, separator, terminator, lookup))
       <==> Distinct(alphabet, Pow2(w), caseInsensitive)
  {
    SmallPow2(w);
    hide Distinct, Decode, Encode, Grouped, Pow2, LastMatch, Inverts;
    if Distinct(alphabet, Pow2(w), caseInsensitive) {
      TableInverts(alphabet, w, caseInsensitive, lookup);
      forall message: seq<byte>
        ensures ComesBack(message, w, alphabet, blockSize, padding, groupSize, separator, terminator, lookup)
      {
        DecodeEncode(message, w, alphabet, blockSize, padding, groupSize, separator, terminator, lookup);
      }
    } else {
      LookupInverts(alphabet, Pow2(w), caseInsensitive);
      var d: nat :| d < Pow2(w) && !Inverted(alphabet, Pow2(w), caseInsensitive, d);
      CollisionLost(w, alphabet, caseInsensitive, blockSize, padding, groupSize, separator, terminator, lookup, d);
    }
  }

  lemma CollisionLost(w: nat, alphabet: seq<byte>, caseInsensitive: bool, blockSize: nat, padding: int,
                      groupSize: nat, separator: seq<byte>, terminator: seq<byte>, lookup: seq<int>, d: nat)
    requires 1 <= w <= 7 && blockSize > 0 && -1 <= padding < 256 && |alphabet| == Pow2(w) <= 128
    requires IsTable(lookup, alphabet, Pow2(w), caseInsensitive)
    requires padding == -1 || lookup[padding] == -1
    requires Unknown(lookup, separator) && Unknown(lookup, terminator)
    requires d < Pow2(w) && !Inverted(alphabet, Pow2(w), caseInsensitive, d)
    ensures exists message: seq<byte> ::
              !ComesBack(message, w, alphabet, blockSize, padding, groupSize, separator, terminator, lookup)
  {
    hide Decode, Encode, Grouped, Pow2, LastMatch, DigitBits, WholeDigits, Bits, MessageDigits;
    forall e | 0 <= e < |alphabet| ensures 0 <= lookup[alphabet[e]] < 256 {
      LetterKnown(lookup, alphabet, Pow2(w), caseInsensitive, e);
    }
    LetterKnown(lookup, alphabet, Pow2(w), caseInsensitive, d);
    var b := FirstDigitOf(d, w);
    DecodeReread([b], w, alphabet, blockSize, padding, groupSize, separator, terminator, lookup);
    var r := Reread(lookup, alphabet, MessageDigits([b], w));
    WrongByte(b, d, r[0], r[1..], w);
    assert [r[0]] + r[1..] == r;
    assert !ComesBack([b], w, alphabet, blockSize, padding, groupSize, separator, terminator, lookup);
  }

  // ----- the pipeline, any cut of the data on every side

  method EncodeAll(encoder: Encoder, pieces: seq<seq<byte>>) returns (text: seq<byte>)
    requires encoder.Valid() && encoder.consumed == [] && encoder.base == encoder.output
    modifies encoder, encoder.outBuf
    ensures encoder.Valid() && encoder.consumed == [] && encoder.base == encoder.output
    ensures text
         == Encode(Flatten(pieces), encoder.bitsPerChar, encoder.alphabet, encoder.outputBlockSize, encoder.padding)
    ensures encoder.output == old(encoder.output) + text
  {
    hide *;
    var start := |encoder.output|;
    FlattenStart(pieces);
    for i := 0 to |pieces|
      invariant encoder.Valid() && encoder.base == old(encoder.output) && encoder.consumed == Flatten(pieces[..i])
    {
      FlattenNext(pieces, i);
      encoder.Put2(pieces[i], false);
    }
    assert pieces[..|pieces|] == pieces;
    encoder.Put2([], true);
    assert Flatten(pieces) + [] == Flatten(pieces);
    text := encoder.output[start..];
  }

  method GroupAll(grouper: Grouper, pieces: seq<seq<byte>>) returns (text: seq<byte>)
    requires grouper.Valid() && grouper.consumed == [] && grouper.base == grouper.output
    modifies grouper
    ensures grouper.Valid() && grouper.consumed == [] && grouper.base == grouper.output
    ensures text == Grouped(Flatten(pieces), grouper.groupSize, grouper.separator) + grouper.terminator
    ensures grouper.output == old(grouper.output) + text
  {
    hide *;
    var start := |grouper.output|;
    FlattenStart(pieces);
    for i := 0 to |pieces|
      invariant grouper.Valid() && grouper.base == old(grouper.output) && grouper.consumed == Flatten(pieces[..i])
    {
      FlattenNext(pieces, i);
      grouper.Put2(pieces[i], false);
    }
    assert pieces[..|pieces|] == pieces;
    grouper.Put2([], true);
    assert Flatten(pieces) + [] == Flatten(pieces);
    text := grouper.output[start..];
  }

  method DecodeAll(decoder: Decoder, pieces: seq<seq<byte>>) returns (message: seq<byte>)
    requires decoder.Valid() && decoder.consumed == [] && decoder.base == decoder.output
    modifies decoder, decoder.outBuf
    ensures decoder.Valid() && decoder.consumed == [] && decoder.base == decoder.output
    ensures |decoder.lookup| == 256 && 1 <= decoder.bitsPerChar <= 7
    ensures message == Overlay(Significant(decoder.lookup, Flatten(pieces)), decoder.bitsPerChar)
    ensures InTable(decoder.lookup, decoder.bitsPerChar) ==>
              message == Decode(Flatten(pieces), decoder.bitsPerChar, decoder.lookup)
    ensures decoder.output == old(decoder.output) + message
  {
    DecoderParameters(decoder);
    hide *;
    var start := |decoder.output|;
    FlattenStart(pieces);
    for i := 0 to |pieces|
      invariant decoder.Valid() && decoder.base == old(decoder.output) && decoder.consumed == Flatten(pieces[..i])
    {
      FlattenNext(pieces, i);
      decoder.Put2(pieces[i], false);
    }
    assert pieces[..|pieces|] == pieces;
    decoder.Put2([], true);
    assert Flatten(pieces) + [] == Flatten(pieces);
    message := decoder.output[start..];
  }

  /** Encoder, grouper and decoder in a row, each fed with its own cut of the data. */
  method RoundTrip(message: seq<byte>, alphabet: seq<byte>, log2Base: int, padding: int, caseInsensitive: bool,
                   groupSize: nat, separator: seq<byte>, terminator: seq<byte>,
                   sizes1: seq<nat>, sizes2: seq<nat>, sizes3: seq<nat>) returns (result: seq<byte>)
    requires 1 <= log2Base <= 7 && Pow2(log2Base) <= |alphabet| && -1 <= padding < 256
    requires Distinct(alphabet, Pow2(log2Base), caseInsensitive)
    requires padding == -1 || LastMatch(alphabet, Pow2(log2Base), caseInsensitive, padding) == -1
    requires forall i :: 0 <= i < |separator| ==>
              LastMatch(alphabet, Pow2(log2Base), caseInsensitive, separator[i]) == -1
    requires forall i :: 0 <= i < |terminator| ==>
              LastMatch(alphabet, Pow2(log2Base), caseInsensitive, terminator[i]) == -1
    ensures result == message
  {
    hide Pow2, Shl, LastMatch, Distinct, Encode, Decode, Grouped, Flatten, Cut, Overlay, Encoder.Valid, Decoder.Valid,
         Grouper.Valid;
    SmallPow2(log2Base);
    var lookup := InitializeDecodingLookupArray(alphabet, Pow2(log2Base), caseInsensitive);
    TableInverts(alphabet, log2Base, caseInsensitive, lookup);
    var encoder := NewEncoder(alphabet, log2Base, padding);
    var grouper := new Grouper(groupSize, separator, terminator);
    var decoder := NewDecoder(lookup, log2Base);
    FlattenCut(message, sizes1);
    var text := EncodeAll(encoder, Cut(message, sizes1));
    FlattenCut(text, sizes2);
    var grouped := GroupAll(grouper, Cut(text, sizes2));
    FlattenCut(grouped, sizes3);
    result := DecodeAll(decoder, Cut(grouped, sizes3));
    DecodeEncode(message, log2Base, alphabet, encoder.outputBlockSize, padding, groupSize, separator, terminator,
                 lookup);
  }
}
