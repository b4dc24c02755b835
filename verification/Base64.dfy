/** Base 64 with the alphabet of base64.cpp, against section 4 of RFC 4648. */
module Base64 {
  import opened NatBits
  import opened Bytes
  import opened BitStrings
  import opened Pieces
  import opened BaseN
  import opened BaseNDecoder

  /** `s_stdVec`: the letters, the digits, '+' and '/'. */
  function Character(d: nat): byte
    requires d < 64
  {
    if d < 26 then 65 + d else if d < 52 then 97 + (d - 26) else if d < 62 then 48 + (d - 52)
    else if d == 62 then 43 else 47
  }

  function Alphabet(): (a: seq<byte>)
    ensures |a| == 64
  {
    seq(64, d requires 0 <= d < 64 => Character(d))
  }

  /** '=' */
  const PAD: byte := 61

  // ----- section 4 of RFC 4648

  /** Three bytes at a time give four characters; one or two bytes at the end are completed by zero bits
      and padded. */
  function Quanta(m: seq<byte>): seq<byte> {
    if |m| == 0 then []
    else if |m| == 1 then [Character(m[0] / 4), Character(m[0] % 4 * 16), PAD, PAD]
    else if |m| == 2 then
      [Character(m[0] / 4), Character(m[0] % 4 * 16 + m[1] / 16), Character(m[1] % 16 * 4), PAD]
    else
      [Character(m[0] / 4), Character(m[0] % 4 * 16 + m[1] / 16), Character(m[1] % 16 * 4 + m[2] / 64),
       Character(m[2] % 64)] + Quanta(m[3..])
  }

  lemma {:induction false} QuantaLength(m: seq<byte>)
    ensures |Quanta(m)| == 4 * ((|m| + 2) / 3)
    decreases |m|
  {
    if |m| >= 3 { QuantaLength(m[3..]); }
  }

  // ----- the bits of the quanta

  lemma {:induction false} DigitsAppend(a: seq<nat>, b: seq<nat>, w: nat)
    requires w > 0 && |a| % w == 0
    ensures Digits(a + b, w) == Digits(a, w) + Digits(b, w)
    decreases |a|
  {
    if a == [] {
      assert a + b == b;
    } else {
      WholeFirst(|a|, w);
      assert (a + b)[..w] == a[..w] && (a + b)[w..] == a[w..] + b;
      DigitsAppend(a[w..], b, w);
    }
  }

  lemma WholeFirst(n: nat, w: nat)
    requires w > 0 && n > 0 && n % w == 0
    ensures n >= w && (n - w) % w == 0
  {
    if n >= w { EuclidUnique(n - w, w, n / w - 1, 0); } else { EuclidUnique(n, w, 0, n); }
  }

  /** The bits of a byte apart. */
  lemma ByteBits(x: byte)
    ensures Bits(x, 8) == Bits(x / 4, 6) + Bits(x % 4, 2)
    ensures Bits(x, 8) == Bits(x / 16, 4) + Bits(x % 16, 4)
    ensures Bits(x, 8) == Bits(x / 64, 2) + Bits(x % 64, 6)
  {
    hide Bits;
    JoinAt(x / 4, 6, x % 4, 2, 4);
    JoinAt(x / 16, 4, x % 16, 4, 16);
    JoinAt(x / 64, 2, x % 64, 6, 64);
  }

  lemma JoinAt(x: nat, n: nat, y: nat, t: nat, p: nat)
    requires p == Pow2(t) && y < p
    ensures Bits(x * p + y, n + t) == Bits(x, n) + Bits(y, t)
  {
    hide *;
    BitsJoin(x, n, y, t);
    ShlMul(x, t);
  }

  lemma Six()
    ensures Pow2(2) == 4 && Pow2(4) == 16 && Pow2(6) == 64
  {
  }

  lemma OneByte(a: byte)
    ensures MessageDigits([a], 6) == [a / 4, a % 4 * 16]
  {
    Six();
    hide Bits, Pow2, DigitBits, Shl;
    ByteBits(a);
    OneDigit(a, 8);
    OneDigit(a / 4, 6);
    DigitsOfBits([a / 4], a % 4, 2, 6);
    ShlMul(a % 4, 4);
  }

  lemma TwoBytes(a: byte, b: byte)
    ensures MessageDigits([a, b], 6) == [a / 4, a % 4 * 16 + b / 16, b % 16 * 4]
  {
    Six();
    hide Bits, Pow2, DigitBits, Shl;
    ByteBits(a);
    ByteBits(b);
    JoinAt(a % 4, 2, b / 16, 4, 16);
    DigitBitsCons(a, [b], 8);
    OneDigit(b, 8);
    DigitBitsCons(a / 4, [a % 4 * 16 + b / 16], 6);
    OneDigit(a % 4 * 16 + b / 16, 6);
    assert [a] + [b] == [a, b];
    assert [a / 4] + [a % 4 * 16 + b / 16] == [a / 4, a % 4 * 16 + b / 16];
    assert DigitBits([a, b], 8) == DigitBits([a / 4, a % 4 * 16 + b / 16], 6) + Bits(b % 16, 4);
    DigitsOfBits([a / 4, a % 4 * 16 + b / 16], b % 16, 4, 6);
    ShlMul(b % 16, 2);
  }

  lemma ThreeBytes(a: byte, b: byte, c: byte)
    ensures MessageDigits([a, b, c], 6) == [a / 4, a % 4 * 16 + b / 16, b % 16 * 4 + c / 64, c % 64]
  {
    Six();
    hide Bits, Pow2, DigitBits, Shl;
    ByteBits(a);
    ByteBits(b);
    ByteBits(c);
    var d, e := a % 4 * 16 + b / 16, b % 16 * 4 + c / 64;
    JoinAt(a % 4, 2, b / 16, 4, 16);
    JoinAt(b % 16, 4, c / 64, 2, 4);
    DigitBitsCons(a, [b, c], 8);
    DigitBitsCons(b, [c], 8);
    OneDigit(c, 8);
    DigitBitsCons(a / 4, [d, e, c % 64], 6);
    DigitBitsCons(d, [e, c % 64], 6);
    DigitBitsCons(e, [c % 64], 6);
    OneDigit(c % 64, 6);
    assert [a] + [b, c] == [a, b, c] && [b] + [c] == [b, c];
    assert [a / 4] + [d, e, c % 64] == [a / 4, d, e, c % 64] && [d] + [e, c % 64] == [d, e, c % 64]
        && [e] + [c % 64] == [e, c % 64];
    assert DigitBits([a, b, c], 8) == DigitBits([a / 4, d, e, c % 64], 6);
    NoRest([a / 4, d, e, c % 64]);
  }

  lemma NoRest(digits: seq<nat>)
    requires AreDigits(digits, 6)
    ensures Digits(DigitBits(digits, 6), 6) == digits
  {
    hide DigitBits;
    DigitsOfBits(digits, 0, 0, 6);
    assert DigitBits(digits, 6) + Bits(0, 0) == DigitBits(digits, 6);
  }

  // ----- the encoding is the quanta

  lemma {:induction false} EncodeIsQuanta(m: seq<byte>)
    ensures |Alphabet()| >= Pow2(6) && Encode(m, 6, Alphabet(), 4, PAD) == Quanta(m)
    decreases |m|
  {
    Six();
    hide MessageDigits, Alphabet, Character, Pow2;
    if |m| == 0 {
      NoQuantum();
    } else if |m| < 3 {
      LastQuantum(m);
    } else {
      WholeQuantum(m);
      EncodeIsQuanta(m[3..]);
      assert m[..3] + m[3..] == m;
    }
  }

  lemma NoQuantum()
    ensures |Alphabet()| >= Pow2(6) && Encode([], 6, Alphabet(), 4, PAD) == []
  {
    Six();
    assert DigitBits([], 8) == [];
  }

  lemma Letter(d: nat)
    requires d < 64
    ensures Alphabet()[d] == Character(d)
  {
  }

  lemma LastQuantum(m: seq<byte>)
    requires 1 <= |m| <= 2
    ensures |Alphabet()| >= Pow2(6) && Encode(m, 6, Alphabet(), 4, PAD) == Quanta(m)
  {
    Six();
    hide *;
    if |m| == 1 {
      OneQuantum(m);
    } else {
      TwoQuantum(m);
    }
  }

  lemma OneQuantum(m: seq<byte>)
    requires |m| == 1
    ensures |Alphabet()| >= Pow2(6) && Encode(m, 6, Alphabet(), 4, PAD) == Quanta(m)
  {
    hide MessageDigits, Alphabet, Character, Pow2, Spell, PaddingFor, Encode;
    var d, e := m[0] / 4, m[0] % 4 * 16;
    OneByte(m[0]);
    assert m == [m[0]];
    SpellDigits(m, [d, e]);
    TwoLetters(d, e);
  }

  lemma TwoQuantum(m: seq<byte>)
    requires |m| == 2
    ensures |Alphabet()| >= Pow2(6) && Encode(m, 6, Alphabet(), 4, PAD) == Quanta(m)
  {
    hide MessageDigits, Alphabet, Character, Pow2, Spell, PaddingFor, Encode;
    var d, e, f := m[0] / 4, m[0] % 4 * 16 + m[1] / 16, m[1] % 16 * 4;
    TwoBytes(m[0], m[1]);
    assert m == [m[0], m[1]];
    SpellDigits(m, [d, e, f]);
    ThreeLetters(d, e, f);
  }

  lemma SpellDigits(m: seq<byte>, digits: seq<nat>)
    requires MessageDigits(m, 6) == digits && forall i :: 0 <= i < |digits| ==> digits[i] < 64
    ensures |Alphabet()| >= Pow2(6)
    ensures Encode(m, 6, Alphabet(), 4, PAD) == Spell(digits, Alphabet()) + PaddingFor(|digits|, 4, PAD)
  {
    Six();
    hide MessageDigits, Alphabet, Pow2, Spell, PaddingFor;
  }

  lemma TwoLetters(d: nat, e: nat)
    requires d < 64 && e < 64
    ensures Spell([d, e], Alphabet()) + PaddingFor(2, 4, PAD) == [Character(d), Character(e), PAD, PAD]
  {
    hide Alphabet, Character;
    Letter(d);
    Letter(e);
  }

  lemma ThreeLetters(d: nat, e: nat, f: nat)
    requires d < 64 && e < 64 && f < 64
    ensures Spell([d, e, f], Alphabet()) + PaddingFor(3, 4, PAD) == [Character(d), Character(e), Character(f), PAD]
  {
    hide Alphabet, Character;
    Letter(d);
    Letter(e);
    Letter(f);
  }

  /** Three bytes in front. */
  lemma WholeQuantum(m: seq<byte>)
    requires |m| >= 3
    ensures |Alphabet()| >= Pow2(6)
    ensures Encode(m, 6, Alphabet(), 4, PAD)
         == [Character(m[0] / 4), Character(m[0] % 4 * 16 + m[1] / 16), Character(m[1] % 16 * 4 + m[2] / 64),
             Character(m[2] % 64)] + Encode(m[3..], 6, Alphabet(), 4, PAD)
  {
    Six();
    hide MessageDigits, Alphabet, Character, Pow2;
    var front, back := MessageDigits([m[0], m[1], m[2]], 6), MessageDigits(m[3..], 6);
    ThreeBytes(m[0], m[1], m[2]);
    FirstThree(m);
    EncodeDigits(m[3..], 6);
    SpellAppend(front, back, Alphabet());
    Letter(m[0] / 4);
    Letter(m[0] % 4 * 16 + m[1] / 16);
    Letter(m[1] % 16 * 4 + m[2] / 64);
    Letter(m[2] % 64);
    EuclidUnique(|back| + 4, 4, |back| / 4 + 1, |back| % 4);
  }

  lemma FirstThree(m: seq<byte>)
    requires |m| >= 3
    ensures MessageDigits(m, 6) == MessageDigits([m[0], m[1], m[2]], 6) + MessageDigits(m[3..], 6)
  {
    hide DigitBits, Digits;
    var front, back: seq<nat> := [m[0], m[1], m[2]], m[3..];
    var whole: seq<nat> := m;
    assert whole == front + back;
    DigitBitsAppend(front, back, 8);
    DigitBitsLength(front, 8);
    DigitsAppend(DigitBits(front, 8), DigitBits(back, 8), 6);
  }

  // ----- the encoder

  lemma LeastForSix(size: nat)
    requires LeastBlock(size, 6, 8)
    ensures size == 4
  {
    assert 4 * 6 % 8 == 0;
    assert 1 * 6 % 8 != 0 && 2 * 6 % 8 != 0 && 3 * 6 % 8 != 0;
  }

  /** `Base64Encoder`, for any cut of the message; the encoder's text goes through the grouper that breaks
      the lines. */
  method Encode64(pieces: seq<seq<byte>>, insertLineBreaks: bool, maxLineLength: nat) returns (text: seq<byte>)
    ensures !insertLineBreaks ==> text == Quanta(Flatten(pieces))
    ensures insertLineBreaks ==> text == Grouped(Quanta(Flatten(pieces)), maxLineLength, [10]) + [10]
  {
    hide Flatten, Quanta, Encode, Encoder.Valid, Grouper.Valid, Alphabet, Pow2, LeastBlock;
    Six();
    var lineBreak := if insertLineBreaks then [10] else [];
    var encoder := NewEncoder(Alphabet(), 6, PAD);
    LeastForSix(encoder.outputBlockSize);
    var plain := EncodeAll(encoder, pieces);
    EncodeIsQuanta(Flatten(pieces));
    var grouper := new Grouper(if insertLineBreaks then maxLineLength else 0, lineBreak, lineBreak);
    OnePiece(plain);
    text := GroupAll(grouper, [plain]);
  }

  lemma OnePiece(text: seq<byte>)
    ensures Flatten([text]) == text
  {
    FlattenStart([text]);
    FlattenNext([text], 0);
  }

  /** `s_stdArray` */
  function StdValue(c: byte): int {
    if 65 <= c <= 90 then c - 65 else if 97 <= c <= 122 then c - 71 else if 48 <= c <= 57 then c + 4
    else if c == 43 then 62 else if c == 47 then 63 else -1
  }

  function StdArray(): (lookup: seq<int>)
    ensures |lookup| == 256
  {
    seq(256, c requires 0 <= c < 256 => StdValue(c))
  }

  /** The constant table undoes the alphabet, with or without line breaks. */
  lemma DecodeQuanta(m: seq<byte>, size: nat, lineBreak: seq<byte>)
    requires lineBreak == [] || lineBreak == [10]
    ensures Decode(Grouped(Quanta(m), size, lineBreak) + lineBreak, 6, StdArray()) == m
  {
    hide Encode, Decode, Grouped, Quanta, Pow2;
    Six();
    EncodeIsQuanta(m);
    DecodeEncode(m, 6, Alphabet(), 4, PAD, size, lineBreak, lineBreak, StdArray());
  }

  /** Section 10 of RFC 4648. */
  lemma Foobar()
    ensures Quanta([]) == [] && Quanta([102]) == [90, 103, 61, 61] && Quanta([102, 111]) == [90, 109, 56, 61]
    ensures Quanta([102, 111, 111]) == [90, 109, 57, 118]
    ensures Quanta([102, 111, 111, 98]) == [90, 109, 57, 118, 89, 103, 61, 61]
  {
    assert [102, 111, 111][3..] == [];
    assert [102, 111, 111, 98][3..] == [98];
  }

  /** Where character i stands after the separators of the lines before it. */
  function Place(i: nat, size: nat, n: nat): nat
    requires size > 0
  {
    i + i / size * n
  }

  lemma PlaceFirst(i: nat, size: nat, n: nat)
    requires i < size
    ensures Place(i, size, n) == i
  {
    EuclidUnique(i, size, 0, i);
    assert 0 * n == 0;
  }

  lemma PlaceNext(i: nat, size: nat, n: nat)
    requires 0 < size <= i
    ensures Place(i, size, n) == size + n + Place(i - size, size, n)
  {
    var q := (i - size) / size;
    EuclidUnique(i, size, q + 1, (i - size) % size);
    assert (q + 1) * n == q * n + n;
  }

  /** The lines of a text hold its characters in order. */
  lemma {:induction false} GroupedAt(text: seq<byte>, size: nat, separator: seq<byte>, i: nat)
    requires size > 0 && i < |text|
    ensures Place(i, size, |separator|) < |Grouped(text, size, separator)|
    ensures Grouped(text, size, separator)[Place(i, size, |separator|)] == text[i]
    decreases |text|
  {
    hide Place;
    if i < size {
      PlaceFirst(i, size, |separator|);
    } else {
      PlaceNext(i, size, |separator|);
      GroupedAt(text[size..], size, separator, i - size);
      assert Grouped(text, size, separator) == text[..size] + separator + Grouped(text[size..], size, separator);
    }
  }
}
