/** The message format of CCM at the bytes that RFC 3610 prints. */
module CcmVector {
  import opened Bytes
  import opened CcmSpec

  // ----- section 2.2

  /** The bit fields of the first octet of B_0, read back. */
  lemma FlagFields(digestSize: nat, L: nat, hasHeader: bool)
    requires 4 <= digestSize <= 16 && digestSize % 2 == 0 && 2 <= L <= 8
    ensures var f := Flags(digestSize, L, hasHeader);
            && f / 128 == 0 && (f / 64 % 2 == 1 <==> hasHeader)
            && 2 * (f / 8 % 8) + 2 == digestSize && f % 8 + 1 == L
  {
  }

  /** The encoded header length on both sides of each limit. */
  lemma HeaderLengths()
    ensures HeaderPrefix(0) == [] && HeaderPrefix(0xfeff) == [0xfe, 0xff]
    ensures HeaderPrefix(0xff00) == [0xff, 0xfe, 0, 0, 0xff, 0]
    ensures HeaderPrefix(0xffff_ffff) == [0xff, 0xfe, 0xff, 0xff, 0xff, 0xff]
    ensures HeaderPrefix(0x1_0000_0000) == [0xff, 0xff, 0, 0, 0, 1, 0, 0, 0, 0]
  {
    hide BigEndian;
    BigEndianPair(0xfe, 0xff);
    FourBytes(0, 0, 0xff, 0);
    FourBytes(0xff, 0xff, 0xff, 0xff);
    EightBytes();
  }

  lemma EightBytes()
    ensures BigEndian(0x1_0000_0000, 8) == [0, 0, 0, 1, 0, 0, 0, 0]
  {
    hide BigEndian;
    FourBytes(0, 0, 0, 1);
    ZeroByte(0x100_0000, 8);
    ZeroByte(0x1_0000, 7);
    ZeroByte(0x100, 6);
    ZeroByte(1, 5);
  }

  lemma FourBytes(a: byte, b: byte, c: byte, d: byte)
    ensures BigEndian(0x100_0000 * a + 0x1_0000 * b + 256 * c + d, 4) == [a, b, c, d]
  {
    BigEndianPair(a, b);
    var v := 0x100_0000 * a + 0x1_0000 * b + 256 * c + d;
    assert v / 256 == 0x1_0000 * a + 256 * b + c && v / 256 / 256 == 256 * a + b;
    assert BigEndian(v / 256, 3) == BigEndian(v / 256 / 256, 2) + [c];
  }

  lemma ZeroByte(v: nat, n: nat)
    requires n > 0
    ensures BigEndian(256 * v, n) == BigEndian(v, n - 1) + [0]
  {
  }

  // ----- section 2.3

  /** The tag is the CBC-MAC of all blocks from a chain of zeros, combined with S_0. */
  lemma TagIsMac(E: Cipher, digestSize: nat, nonce: seq<byte>, header: seq<byte>, message: seq<byte>)
    requires 4 <= digestSize <= 16 && digestSize % 2 == 0 && 7 <= |nonce| <= 13
    ensures var b := MacInput(digestSize, nonce, header, message);
            && |b| % 16 == 0
            && Tag(E, digestSize, nonce, header, message)
               == XorPrefix(Chain(E, Zeros(16), b)[..digestSize], E(CounterBlock(nonce, 0))[..digestSize])
  {
    hide XorPrefix, Zeros, Tail, FirstBlock;
    var first: seq<byte> := FirstBlock(digestSize, nonce, header != [], |message|);
    var tail: seq<byte> := Tail(header, message);
    WholeBlocks(first, tail);
    assert (first + tail)[..16] == first && (first + tail)[16..] == tail;
    FromZeros(first);
  }

  lemma FromZeros(b: Block)
    ensures XorPrefix(Zeros(16), b) == b
  {
    forall i | 0 <= i < 16 ensures Xor(0, b[i]) == b[i] {
      XorBitsCommute(0, b[i], 8);
      XorZero(b[i]);
    }
  }

  // ----- section 8, packet vector 1

  const NONCE: seq<byte> := [0, 0, 0, 3, 2, 1, 0, 0xa0, 0xa1, 0xa2, 0xa3, 0xa4, 0xa5]
  const HEADER: seq<byte> := [0, 1, 2, 3, 4, 5, 6, 7]
  const MESSAGE: seq<byte> := [8, 9, 10, 11, 12, 13, 14, 15, 16, 17, 18, 19, 20, 21, 22, 23, 24, 25, 26, 27, 28, 29, 30]

  lemma Padding()
    ensures Pad([0, 8] + HEADER) == [0, 8, 0, 1, 2, 3, 4, 5, 6, 7, 0, 0, 0, 0, 0, 0]
    ensures Pad(MESSAGE) == MESSAGE + [0, 0, 0, 0, 0, 0, 0, 0, 0]
  {
    assert Zeros(6) == [0, 0, 0, 0, 0, 0];
    assert Zeros(9) == [0, 0, 0, 0, 0, 0, 0, 0, 0];
  }

  lemma PacketFirst()
    ensures FirstBlock(8, NONCE, true, 23)
         == [0x59, 0, 0, 0, 3, 2, 1, 0, 0xa0, 0xa1, 0xa2, 0xa3, 0xa4, 0xa5, 0, 0x17]
  {
    hide BigEndian;
    BigEndianPair(0, 0x17);
  }

  /** The blocks given to CBC-MAC: B_0, the header and the message. */
  lemma PacketBlocks()
    ensures MacInput(8, NONCE, HEADER, MESSAGE)
         == [0x59, 0, 0, 0, 3, 2, 1, 0, 0xa0, 0xa1, 0xa2, 0xa3, 0xa4, 0xa5, 0, 0x17]
            + ([0, 8, 0, 1, 2, 3, 4, 5, 6, 7, 0, 0, 0, 0, 0, 0] + (MESSAGE + [0, 0, 0, 0, 0, 0, 0, 0, 0]))
  {
    hide BigEndian, Pad, FirstBlock;
    PacketFirst();
    BigEndianPair(0, 8);
    Padding();
    assert |HEADER| == 8 && |MESSAGE| == 23;
  }

  /** The counter blocks A_0, A_1 and A_2. */
  lemma PacketCounters()
    ensures CounterBlock(NONCE, 0) == [1, 0, 0, 0, 3, 2, 1, 0, 0xa0, 0xa1, 0xa2, 0xa3, 0xa4, 0xa5, 0, 0]
    ensures CounterBlock(NONCE, 1) == [1, 0, 0, 0, 3, 2, 1, 0, 0xa0, 0xa1, 0xa2, 0xa3, 0xa4, 0xa5, 0, 1]
    ensures CounterBlock(NONCE, 2) == [1, 0, 0, 0, 3, 2, 1, 0, 0xa0, 0xa1, 0xa2, 0xa3, 0xa4, 0xa5, 0, 2]
  {
    hide BigEndian;
    BigEndianPair(0, 0);
    BigEndianPair(0, 1);
    BigEndianPair(0, 2);
  }
}
