/** Known encodings of X.690. */
module DerKnown {
  import opened Bytes
  import opened Options
  import opened Der
  import opened Reencode

  // ----- tags and lengths

  /** Section 8.1.2.5 of X.690: bit 6 of the identifier octet tells a constructed encoding. */
  lemma ConstructedBit(tag: byte)
    ensures Constructed(tag) <==> tag / 32 == 1 || tag / 32 == 3 || tag / 32 == 5 || tag / 32 == 7
    ensures Constructed(0x30) && Constructed(0x31) && !Constructed(0x10) && !Constructed(0x04)
  {
  }

  /** Section 8.1.3 of X.690: short form up to 127, then one and two octets. */
  lemma KnownLengths()
    ensures EncodeLength(0) == [0] && EncodeLength(127) == [0x7f]
    ensures EncodeLength(128) == [0x81, 0x80] && EncodeLength(255) == [0x81, 0xff]
    ensures EncodeLength(256) == [0x82, 1, 0] && EncodeLength(435) == [0x82, 1, 0xb3]
  {
    hide BigEndian;
    BigEndianPair(128, 0);
    BigEndianPair(255, 0);
    BigEndianPair(1, 0);
    BigEndianPair(1, 0xb3);
    OneOrTwo(128);
    OneOrTwo(255);
    OneOrTwo(256);
    OneOrTwo(435);
  }

  lemma OneOrTwo(n: nat)
    requires 0 < n < 0x1_0000
    ensures BytesFor(n) == if n < 256 then 1 else 2
  {
    assert BytesFor(n / 256 / 256) == 0;
  }

  // ----- integers and identifiers

  /** Section 8.3 of X.690: a leading zero where the sign bit would be set. */
  lemma KnownIntegers()
    ensures EncodeUnsigned(0, INTEGER) == [2, 1, 0] && EncodeUnsigned(127, INTEGER) == [2, 1, 0x7f]
    ensures EncodeUnsigned(128, INTEGER) == [2, 2, 0, 0x80] && EncodeUnsigned(256, INTEGER) == [2, 2, 1, 0]
    ensures EncodeUnsigned(1, BOOLEAN) == [1, 1, 0xff] && EncodeUnsigned(5, ENUMERATED) == [10, 1, 5]
  {
    hide BigEndian, SignedBytes, EncodeLength;
    Small();
    BigEndianPair(0, 0);
    BigEndianPair(127, 0);
    BigEndianPair(5, 0);
    BigEndianPair(0, 128);
    BigEndianPair(1, 0);
    Short(1);
    Short(2);
  }

  lemma Small()
    ensures SignedBytes(0) == SignedBytes(127) == SignedBytes(5) == 1 && SignedBytes(128) == SignedBytes(256) == 2
  {
  }

  lemma Short(n: nat)
    requires n < 128
    ensures EncodeLength(n) == [n]
  {
  }

  /** The identifier 1.2.840.113549 of RSA Data Security. */
  lemma KnownIdentifier()
    ensures OidContents([1, 2, 840, 113549]) == [0x2a, 0x86, 0x48, 0x86, 0xf7, 0x0d]
    ensures EncodeOid([1, 2, 840, 113549]) == [6, 6, 0x2a, 0x86, 0x48, 0x86, 0xf7, 0x0d]
  {
    hide EncodeValue, EncodeLength;
    var values: seq<nat> := [1, 2, 840, 113549];
    assert values[2..] == [840, 113549];
    TwoValues(840, 113549);
    TwoGroups();
    ThreeGroups();
    Short(6);
  }

  lemma TwoValues(a: nat, b: nat)
    ensures EncodeValues([a, b]) == EncodeValue(a) + EncodeValue(b)
  {
    hide EncodeValue;
    assert [a, b][1..] == [b] && [b][1..] == [];
    assert EncodeValues([b]) == EncodeValue(b) + EncodeValues([]);
  }

  lemma TwoGroups()
    ensures EncodeValue(840) == [0x86, 0x48]
  {
    assert MarkedGroups(6) == MarkedGroups(0) + [128 + 6];
  }

  lemma ThreeGroups()
    ensures EncodeValue(113549) == [0x86, 0xf7, 0x0d]
  {
    assert MarkedGroups(6) == MarkedGroups(0) + [128 + 6];
    assert MarkedGroups(887) == MarkedGroups(6) + [128 + 119];
  }

  // ----- re-encoding

  /** A sequence of one integer with an indefinite length. */
  lemma KnownReencoding()
    ensures var data: seq<byte> := [0x30, 0x80, 2, 1, 5, 0, 0];
            && ParseItem(data) == Some((Open(0x30, [Plain(2, [5])]), 7))
            && Flat(ParseItem(data).value.0) == [0x30, 3, 2, 1, 5]
  {
    var data: seq<byte> := [0x30, 0x80, 2, 1, 5, 0, 0];
    var inner: seq<byte> := [2, 1, 5, 0, 0];
    assert data[1..] == [0x80] + inner && DecodeLength(data[1..]) == Indefinite;
    assert data[2..] == inner;
    InnerItems(inner);
    FlatInner();
  }

  lemma InnerItems(inner: seq<byte>)
    requires inner == [2, 1, 5, 0, 0]
    ensures ParseItems(inner) == Some(([Plain(2, [5])], 5))
  {
    assert inner[1..] == [1, 5, 0, 0] && DecodeLength(inner[1..]) == Definite(1, 1);
    assert inner[2..3] == [5] && ParseItem(inner) == Some((Plain(2, [5]), 3));
    assert inner[3..] == [0, 0] && ParseItems(inner[3..]) == Some(([], 2));
    assert [Plain(2, [5])] + [] == [Plain(2, [5])];
  }

  lemma FlatInner()
    ensures Flat(Open(0x30, [Plain(2, [5])])) == [0x30, 3, 2, 1, 5]
  {
    hide EncodeLength;
    var items := [Plain(2, [5])];
    Short(1);
    Short(3);
    assert Flat(items[0]) == [2, 1, 5];
    assert items[1..] == [] && FlatAll(items[1..]) == [];
    assert FlatAll(items) == [2, 1, 5];
  }
}
