/** CCM as section 2 of RFC 3610 defines it, in one shot, and the properties of its
    message format. */
module CcmSpec {
  import opened Bytes

  type Block = s: seq<byte> | |s| == 16 witness Zeros(16)

  /** The keyed block cipher, an arbitrary function of blocks. */
  type Cipher = Block -> Block

  // ----- CBC-MAC

  /** The CBC chaining value after whole blocks of data. */
  function Chain(E: Cipher, x: Block, data: seq<byte>): Block
    requires |data| % 16 == 0
    decreases |data|
  {
    if data == [] then x else Chain(E, E(XorPrefix(x, data[..16])), data[16..])
  }

  lemma {:induction false} ChainAppend(E: Cipher, x: Block, a: seq<byte>, b: seq<byte>)
    requires |a| % 16 == 0 && |b| % 16 == 0
    ensures Chain(E, x, a + b) == Chain(E, Chain(E, x, a), b)
    decreases |a|
  {
    if a == [] {
      assert a + b == b;
    } else {
      assert (a + b)[..16] == a[..16] && (a + b)[16..] == a[16..] + b;
      ChainAppend(E, E(XorPrefix(x, a[..16])), a[16..], b);
    }
  }

  /** One more block. */
  lemma ChainStep(E: Cipher, x: Block, a: seq<byte>, b: seq<byte>)
    requires |a| % 16 == 0 && |b| == 16
    ensures Chain(E, x, a + b) == E(XorPrefix(Chain(E, x, a), b))
  {
    ChainAppend(E, x, a, b);
    assert b[..16] == b && b[16..] == [];
  }

  /** Zero padding to a multiple of the block size. */
  function Pad(s: seq<byte>): (p: seq<byte>)
    ensures |p| % 16 == 0 && s <= p
  {
    s + Zeros((16 - |s| % 16) % 16)
  }

  // ----- the formatted blocks

  /** B_0: flags, nonce, message length (section 2.2). */
  function FirstBlock(digestSize: nat, nonce: seq<byte>, hasHeader: bool, messageLength: nat): Block
    requires 4 <= digestSize <= 16 && digestSize % 2 == 0 && 7 <= |nonce| <= 13
  {
    var L := 15 - |nonce|;
    [Flags(digestSize, L, hasHeader)] + nonce + BigEndian(messageLength, L)
  }

  function Flags(digestSize: nat, L: nat, hasHeader: bool): byte
    requires 4 <= digestSize <= 16 && 2 <= L <= 8
  {
    (if hasHeader then 64 else 0) + 8 * ((digestSize - 2) / 2) + (L - 1)
  }

  /** The encoded header length in front of the header (section 2.2). */
  function HeaderPrefix(h: nat): seq<byte> {
    if h == 0 then []
    else if h < 0xff00 then BigEndian(h, 2)
    else if h < 0x1_0000_0000 then [0xff, 0xfe] + BigEndian(h, 4)
    else [0xff, 0xff] + BigEndian(h, 8)
  }

  /** The blocks B_1, B_2, ... */
  function Tail(header: seq<byte>, message: seq<byte>): (t: seq<byte>)
    ensures |t| % 16 == 0
  {
    WholeBlocks(Pad(HeaderPrefix(|header|) + header), Pad(message));
    Pad(HeaderPrefix(|header|) + header) + Pad(message)
  }

  lemma WholeBlocks(a: seq<byte>, b: seq<byte>)
    requires |a| % 16 == 0
    ensures |a + b| % 16 == |b| % 16
  {
  }

  /** All blocks given to CBC-MAC. */
  function MacInput(digestSize: nat, nonce: seq<byte>, header: seq<byte>, message: seq<byte>): seq<byte>
    requires 4 <= digestSize <= 16 && digestSize % 2 == 0 && 7 <= |nonce| <= 13
  {
    FirstBlock(digestSize, nonce, header != [], |message|) + Tail(header, message)
  }

  // ----- counter mode

  /** A_i: flags, nonce, counter (section 2.3). */
  function CounterBlock(nonce: seq<byte>, i: nat): Block
    requires 7 <= |nonce| <= 13
  {
    var L := 15 - |nonce|;
    [L - 1] + nonce + BigEndian(i, L)
  }

  /** S_i: the key stream block (section 2.3). */
  function StreamBlock(E: Cipher, nonce: seq<byte>, i: nat): Block
    requires 7 <= |nonce| <= 13
  {
    E(CounterBlock(nonce, i))
  }

  // ----- the mode

  /** The authentication value: CBC-MAC combined with S_0 (section 2.3). */
  function Tag(E: Cipher, digestSize: nat, nonce: seq<byte>, header: seq<byte>, message: seq<byte>): (t: seq<byte>)
    requires 4 <= digestSize <= 16 && digestSize % 2 == 0 && 7 <= |nonce| <= 13
    ensures |t| == digestSize
  {
    var mac := Chain(E, E(FirstBlock(digestSize, nonce, header != [], |message|)), Tail(header, message));
    XorPrefix(mac[..digestSize], StreamBlock(E, nonce, 0)[..digestSize])
  }

  /** The message part of the ciphertext: byte i combined with the byte of S_1, S_2, ... in its place. */
  function Crypt(E: Cipher, nonce: seq<byte>, message: seq<byte>): (c: seq<byte>)
    requires 7 <= |nonce| <= 13
    ensures |c| == |message|
  {
    seq(|message|, i requires 0 <= i < |message| => Xor(message[i], StreamBlock(E, nonce, 1 + i / 16)[i % 16]))
  }

  /** Deciphering undoes enciphering. */
  lemma CryptTwice(E: Cipher, nonce: seq<byte>, message: seq<byte>)
    requires 7 <= |nonce| <= 13
    ensures Crypt(E, nonce, Crypt(E, nonce, message)) == message
  {
    hide Xor, StreamBlock;
    forall i | 0 <= i < |message| ensures Crypt(E, nonce, Crypt(E, nonce, message))[i] == message[i] {
      XorCancel(message[i], StreamBlock(E, nonce, 1 + i / 16)[i % 16]);
    }
  }

  // ----- counter mode with a counter of its own

  /** A big-endian counter of fixed width advanced by n. */
  function AddCounter(s: seq<byte>, n: nat): (r: seq<byte>)
    ensures |r| == |s|
    decreases |s|
  {
    if s == [] then []
    else
      var k := |s| - 1;
      AddCounter(s[..k], (s[k] + n) / 256) + [(s[k] + n) % 256]
  }

  /** Byte `pos` of the counter-mode key stream that starts at block `iv`. */
  function KeyStream(E: Cipher, iv: Block, pos: nat): byte {
    E(AddCounter(iv, pos / 16))[pos % 16]
  }

  function XorKeyStream(E: Cipher, iv: Block, pos: nat, data: seq<byte>): (r: seq<byte>)
    ensures |r| == |data|
  {
    seq(|data|, i requires 0 <= i < |data| => Xor(data[i], KeyStream(E, iv, pos + i)))
  }

  /** The key stream can be applied in pieces. */
  lemma XorKeyStreamAppend(E: Cipher, iv: Block, pos: nat, a: seq<byte>, b: seq<byte>)
    ensures XorKeyStream(E, iv, pos, a + b) == XorKeyStream(E, iv, pos, a) + XorKeyStream(E, iv, pos + |a|, b)
  {
    var l, r := XorKeyStream(E, iv, pos, a + b), XorKeyStream(E, iv, pos, a) + XorKeyStream(E, iv, pos + |a|, b);
    forall i | 0 <= i < |l| ensures l[i] == r[i] {
      if i >= |a| { assert pos + |a| + (i - |a|) == pos + i; }
    }
  }

  // ----- the counter is the one of section 2.3

  lemma {:induction false} AddCounterBigEndian(p: seq<byte>, c: nat, L: nat, n: nat)
    requires c + n < Pow256(L)
    ensures AddCounter(p + BigEndian(c, L), n) == p + BigEndian(c + n, L)
    decreases L
  {
    hide AddCounter, BigEndian;
    if L == 0 {
      NoDigits(p, c);
      NoDigits(p, c + n);
      AddNothing(p);
    } else {
      var c', n' := c / 256, (c % 256 + n) / 256;
      Carry(c, n);
      AppendDigit(p, c, L);
      AppendDigit(p, c + n, L);
      calc {
        AddCounter(p + BigEndian(c, L), n);
        AddCounter((p + BigEndian(c', L - 1)) + [c % 256], n);
        { AddCounterLast(p + BigEndian(c', L - 1), c % 256, n); }
        AddCounter(p + BigEndian(c', L - 1), n') + [(c + n) % 256];
        { AddCounterBigEndian(p, c', L - 1, n'); }
        (p + BigEndian((c + n) / 256, L - 1)) + [(c + n) % 256];
        p + BigEndian(c + n, L);
      }
    }
  }

  lemma NoDigits(p: seq<byte>, v: nat)
    ensures p + BigEndian(v, 0) == p
  {
  }

  lemma AppendDigit(p: seq<byte>, v: nat, L: nat)
    requires L > 0
    ensures p + BigEndian(v, L) == (p + BigEndian(v / 256, L - 1)) + [v % 256]
  {
  }

  lemma AddCounterLast(t: seq<byte>, b: byte, n: nat)
    ensures AddCounter(t + [b], n) == AddCounter(t, (b + n) / 256) + [(b + n) % 256]
  {
    assert (t + [b])[..|t|] == t;
  }

  lemma {:induction false} AddNothing(p: seq<byte>)
    ensures AddCounter(p, 0) == p
  {
    if p != [] {
      AddNothing(p[..|p| - 1]);
      assert p == p[..|p| - 1] + [p[|p| - 1]];
    }
  }

  lemma Carry(c: nat, n: nat)
    ensures c / 256 + (c % 256 + n) / 256 == (c + n) / 256
    ensures (c % 256 + n) % 256 == (c + n) % 256
  {
  }

  /** As long as the counter fits its L bytes, counting on the whole block gives A_i. */
  lemma CounterIsA(nonce: seq<byte>, i: nat)
    requires 7 <= |nonce| <= 13 && i < Pow256(15 - |nonce|)
    ensures AddCounter(CounterBlock(nonce, 0), i) == CounterBlock(nonce, i)
  {
    hide AddCounter, BigEndian, Pow256;
    var L := 15 - |nonce|;
    AddCounterBigEndian([L - 1] + nonce, 0, L, i);
  }

  /** For every message of an admissible length the counter stays in its L bytes: the key stream that
      starts at A_0 gives the ciphertext of section 2.3. */
  lemma CounterIsStream(E: Cipher, nonce: seq<byte>, message: seq<byte>)
    requires 7 <= |nonce| <= 13 && |message| < Pow256(15 - |nonce|)
    ensures XorKeyStream(E, CounterBlock(nonce, 0), 16, message) == Crypt(E, nonce, message)
  {
    hide AddCounter, BigEndian, Xor, Pow256, CounterBlock;
    var l, r := XorKeyStream(E, CounterBlock(nonce, 0), 16, message), Crypt(E, nonce, message);
    forall i | 0 <= i < |message| ensures l[i] == r[i] {
      NextBlock(i);
      LengthAboveCounter(15 - |nonce|, |message|, i);
      CounterIsA(nonce, 1 + i / 16);
    }
  }

  lemma NextBlock(i: nat)
    ensures (16 + i) / 16 == 1 + i / 16 && (16 + i) % 16 == i % 16
  {
  }

  lemma LengthAboveCounter(L: nat, n: nat, i: nat)
    requires 2 <= L <= 8 && i < n < Pow256(L)
    ensures 1 + i / 16 < Pow256(L)
  {
    assert Pow256(1) == 256 && Pow256(2) == 256 * Pow256(1);
    Pow256Mono(2, L);
  }

  /** The first block of that key stream is S_0. */
  lemma CounterIsFirst(E: Cipher, nonce: seq<byte>, mac: seq<byte>)
    requires 7 <= |nonce| <= 13 && |mac| <= 16
    ensures XorKeyStream(E, CounterBlock(nonce, 0), 0, mac) == XorPrefix(mac, StreamBlock(E, nonce, 0)[..|mac|])
  {
    hide AddCounter, BigEndian, Xor, CounterBlock;
    AddNothing(CounterBlock(nonce, 0));
    var l, r := XorKeyStream(E, CounterBlock(nonce, 0), 0, mac), XorPrefix(mac, StreamBlock(E, nonce, 0)[..|mac|]);
    forall i | 0 <= i < |mac| ensures l[i] == r[i] {
      assert (0 + i) / 16 == 0 && (0 + i) % 16 == i;
    }
  }

  /** The key stream blocks and the MAC's first block never coincide. */
  lemma CounterBlocksDifferFromFirst(digestSize: nat, nonce: seq<byte>, hasHeader: bool, len: nat, nonce': seq<byte>,
                                     i: nat)
    requires 4 <= digestSize <= 16 && digestSize % 2 == 0 && 7 <= |nonce| <= 13 && 7 <= |nonce'| <= 13
    ensures FirstBlock(digestSize, nonce, hasHeader, len) != CounterBlock(nonce', i)
  {
    assert FirstBlock(digestSize, nonce, hasHeader, len)[0] >= 8;
    assert CounterBlock(nonce', i)[0] <= 7;
  }

  // ----- the MAC input determines its parts

  ghost predicate Admissible(digestSize: nat, nonce: seq<byte>, header: seq<byte>, message: seq<byte>) {
    && 4 <= digestSize <= 16 && digestSize % 2 == 0 && 7 <= |nonce| <= 13
    && |header| < LWORD && |message| < Pow256(15 - |nonce|)
  }

  lemma FlagsInjective(d: nat, L: nat, h: bool, d': nat, L': nat, h': bool)
    requires 4 <= d <= 16 && d % 2 == 0 && 2 <= L <= 8
    requires 4 <= d' <= 16 && d' % 2 == 0 && 2 <= L' <= 8
    requires Flags(d, L, h) == Flags(d', L', h')
    ensures d == d' && L == L' && h == h'
  {
  }

  lemma FirstBlockInjective(d: nat, n: seq<byte>, h: bool, len: nat, d': nat, n': seq<byte>, h': bool, len': nat)
    requires 4 <= d <= 16 && d % 2 == 0 && 7 <= |n| <= 13 && len < Pow256(15 - |n|)
    requires 4 <= d' <= 16 && d' % 2 == 0 && 7 <= |n'| <= 13 && len' < Pow256(15 - |n'|)
    requires FirstBlock(d, n, h, len) == FirstBlock(d', n', h', len')
    ensures d == d' && n == n' && h == h' && len == len'
  {
    hide Flags, BigEndian, Value, Pow256;
    var b, b' := FirstBlock(d, n, h, len), FirstBlock(d', n', h', len');
    assert b[0] == Flags(d, 15 - |n|, h) && b'[0] == Flags(d', 15 - |n'|, h');
    FlagsInjective(d, 15 - |n|, h, d', 15 - |n'|, h');
    assert b[1..1 + |n|] == n && b'[1..1 + |n'|] == n';
    assert b[1 + |n|..] == BigEndian(len, 15 - |n|) && b'[1 + |n'|..] == BigEndian(len', 15 - |n'|);
    ValueOfBigEndian(len, 15 - |n|);
    ValueOfBigEndian(len', 15 - |n'|);
  }

  /** The header length can be read off the front, whichever encoding was used. */
  function DecodeHeaderLength(s: seq<byte>): nat {
    if |s| < 2 then 0
    else if s[0] != 0xff then Value(s[..2])
    else if s[1] == 0xfe && |s| >= 6 then Value(s[2..6])
    else if |s| >= 10 then Value(s[2..10])
    else 0
  }

  lemma HeaderPrefixDecodes(h: nat, rest: seq<byte>)
    requires 0 < h < LWORD
    ensures DecodeHeaderLength(HeaderPrefix(h) + rest) == h
  {
    var s := HeaderPrefix(h) + rest;
    if h < 0xff00 {
      assert Pow256(2) == 0x1_0000;
      ValueOfBigEndian(h, 2);
      assert s[..2] == BigEndian(h, 2);
      assert BigEndian(h, 2) == BigEndian(h / 256, 1) + [h % 256];
      assert BigEndian(h / 256, 1) == BigEndian(h / 256 / 256, 0) + [h / 256 % 256];
      assert s[0] == h / 256;
    } else if h < 0x1_0000_0000 {
      assert Pow256(4) == 0x1_0000_0000;
      ValueOfBigEndian(h, 4);
      assert s[2..6] == BigEndian(h, 4);
    } else {
      assert Pow256(8) == LWORD;
      ValueOfBigEndian(h, 8);
      assert s[2..10] == BigEndian(h, 8);
    }
  }

  lemma PadLength(s: seq<byte>, t: seq<byte>)
    requires |s| == |t|
    ensures |Pad(s)| == |Pad(t)|
  {
  }

  /** Injectivity of the format (section 2.2): equal MAC inputs come from equal
      digest sizes, nonces, headers and messages. */
  lemma MacInputInjective(d: nat, n: seq<byte>, a: seq<byte>, m: seq<byte>,
                          d': nat, n': seq<byte>, a': seq<byte>, m': seq<byte>)
    requires Admissible(d, n, a, m) && Admissible(d', n', a', m')
    requires MacInput(d, n, a, m) == MacInput(d', n', a', m')
    ensures d == d' && n == n' && a == a' && m == m'
  {
    var b, b' := FirstBlock(d, n, a != [], |m|), FirstBlock(d', n', a' != [], |m'|);
    assert MacInput(d, n, a, m)[..16] == b && MacInput(d', n', a', m')[..16] == b';
    FirstBlockInjective(d, n, a != [], |m|, d', n', a' != [], |m'|);
    var t, t' := Tail(a, m), Tail(a', m');
    assert MacInput(d, n, a, m)[16..] == t && MacInput(d', n', a', m')[16..] == t';
    TailInjective(a, m, a', m');
  }

  lemma TailInjective(a: seq<byte>, m: seq<byte>, a': seq<byte>, m': seq<byte>)
    requires |a| < LWORD && |a'| < LWORD && (a == [] <==> a' == []) && |m| == |m'|
    requires Tail(a, m) == Tail(a', m')
    ensures a == a' && m == m'
  {
    hide HeaderPrefix, DecodeHeaderLength;
    if a != [] {
      TailDecodes(a, m);
      TailDecodes(a', m');
    }
    SameLengths(HeaderPrefix(|a|), a, m, a', m');
  }

  lemma TailDecodes(a: seq<byte>, m: seq<byte>)
    requires 0 < |a| < LWORD
    ensures DecodeHeaderLength(Tail(a, m)) == |a|
  {
    hide HeaderPrefix, DecodeHeaderLength;
    var p := HeaderPrefix(|a|);
    var rest := a + Zeros((16 - |p + a| % 16) % 16) + Pad(m);
    assert Tail(a, m) == p + rest;
    HeaderPrefixDecodes(|a|, rest);
  }

  lemma SameLengths(p: seq<byte>, a: seq<byte>, m: seq<byte>, a': seq<byte>, m': seq<byte>)
    requires |a| == |a'| && |m| == |m'| && Pad(p + a) + Pad(m) == Pad(p + a') + Pad(m')
    ensures a == a' && m == m'
  {
    var k := |Pad(p + a)|;
    PadLength(p + a, p + a');
    var t := Pad(p + a) + Pad(m);
    assert t[..k] == Pad(p + a) && t[k..] == Pad(m);
    assert t[..k] == Pad(p + a') && t[k..] == Pad(m');
    assert t[..k][..|p + a|] == p + a && t[..k][..|p + a|] == p + a';
    assert (p + a)[|p|..] == a && (p + a')[|p|..] == a';
    assert t[k..][..|m|] == m && t[k..][..|m|] == m';
  }
}
