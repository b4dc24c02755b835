/** The streaming BLAKE2b object of blake2.cpp against the one-shot hash of section 3.3 of
    RFC 7693. */
module Blake2Hash {
  import opened NatBits
  import opened Bytes
  import opened Options
  import opened Pieces
  import opened Blake2b

  const BLOCKSIZE := 128

  // ----- section 3.3 of RFC 7693

  function Flag(f: bool): Word { if f then LWORD - 1 else 0 }

  /** The 128-bit count of bytes in two words, and the finalization flags. */
  function CounterTail(n: nat, last: bool, lastNode: bool): Tail {
    Tail(n % LWORD, n / LWORD % LWORD, Flag(last), Flag(lastNode))
  }

  function PadBlock(data: seq<byte>): (b: seq<byte>)
    requires |data| <= BLOCKSIZE
    ensures |b| == BLOCKSIZE
  {
    data + Zeros(BLOCKSIZE - |data|)
  }

  /** The chaining words after all data, `count` bytes having been counted before: all blocks
      but the last are full, and the last is not empty unless there is no data. */
  function OneShot(h: State, data: seq<byte>, count: nat, lastNode: bool): State
    decreases |data|
  {
    if |data| <= BLOCKSIZE then
      Compress(h, MessageWords(PadBlock(data)), CounterTail(count + |data|, true, lastNode))
    else
      OneShot(Compress(h, MessageWords(data[..BLOCKSIZE]), CounterTail(count + BLOCKSIZE, false, false)),
              data[BLOCKSIZE..], count + BLOCKSIZE, lastNode)
  }

  /** The first chaining words: the initial vector combined with the parameter block. */
  function StartState(param: seq<byte>): State
    requires |param| == 64
  {
    hide *;
    [Xor64(IV[0], LoadWord(param, 0)), Xor64(IV[1], LoadWord(param, 8)),
     Xor64(IV[2], LoadWord(param, 16)), Xor64(IV[3], LoadWord(param, 24)),
     Xor64(IV[4], LoadWord(param, 32)), Xor64(IV[5], LoadWord(param, 40)),
     Xor64(IV[6], LoadWord(param, 48)), Xor64(IV[7], LoadWord(param, 56))]
  }

  /** Section 2.5 of RFC 7693, with salt and personalization: a sequential hash. */
  function ParameterBlock(digestSize: nat, keyLength: nat, salt: seq<byte>, personalization: seq<byte>): (p: seq<byte>)
    requires |salt| <= 16 && |personalization| <= 16
    ensures |p| == 64
  {
    [digestSize % 256, keyLength % 256, 1, 1] + Zeros(28)
    + salt + Zeros(16 - |salt|) + personalization + Zeros(16 - |personalization|)
  }

  /** A key fills a block of its own. */
  function KeyBlock(key: seq<byte>): seq<byte>
    requires |key| <= 64
  {
    if key == [] then [] else PadBlock(key)
  }

  function DigestBytes(h: State): (d: seq<byte>)
    ensures |d| == 64
  {
    ToBytes(h[0]) + ToBytes(h[1]) + ToBytes(h[2]) + ToBytes(h[3])
    + ToBytes(h[4]) + ToBytes(h[5]) + ToBytes(h[6]) + ToBytes(h[7])
  }

  // ----- whole blocks first, the last block later

  /** The chaining words after whole blocks. */
  function Chain(h: State, data: seq<byte>, count: nat): State
    requires |data| % BLOCKSIZE == 0
    decreases |data|
  {
    if data == [] then h
    else
      var k := |data| - BLOCKSIZE;
      Compress(Chain(h, data[..k], count), MessageWords(data[k..]), CounterTail(count + |data|, false, false))
  }

  lemma ChainStep(h: State, data: seq<byte>, block: seq<byte>, count: nat)
    requires |data| % BLOCKSIZE == 0 && |block| == BLOCKSIZE
    ensures Chain(h, data + block, count)
         == Compress(Chain(h, data, count), MessageWords(block), CounterTail(count + |data| + BLOCKSIZE, false, false))
  {
    hide Compress, MessageWords, CounterTail;
    assert (data + block)[..|data|] == data && (data + block)[|data|..] == block;
  }

  lemma {:induction false} ChainFront(h: State, block: seq<byte>, data: seq<byte>, count: nat)
    requires |data| % BLOCKSIZE == 0 && |block| == BLOCKSIZE
    ensures Chain(h, block + data, count)
         == Chain(Compress(h, MessageWords(block), CounterTail(count + BLOCKSIZE, false, false)), data,
                  count + BLOCKSIZE)
    decreases |data|
  {
    hide Compress, MessageWords, CounterTail;
    if data == [] {
      assert block + data == [] + block;
      ChainStep(h, [], block, count);
    } else {
      var k := |data| - BLOCKSIZE;
      ChainFront(h, block, data[..k], count);
      ChainStep(h, block + data[..k], data[k..], count);
      assert block + data == block + data[..k] + data[k..];
    }
  }

  /** Holding the last block back gives the one-shot hash. */
  lemma {:induction false} OneShotLast(h: State, whole: seq<byte>, tail: seq<byte>, count: nat, lastNode: bool)
    requires |whole| % BLOCKSIZE == 0 && |tail| <= BLOCKSIZE && (tail == [] ==> whole == [])
    ensures OneShot(h, whole + tail, count, lastNode)
         == Compress(Chain(h, whole, count), MessageWords(PadBlock(tail)),
                     CounterTail(count + |whole| + |tail|, true, lastNode))
    decreases |whole|
  {
    hide Compress, MessageWords, CounterTail;
    if whole == [] {
      assert whole + tail == tail;
    } else {
      var block, rest := whole[..BLOCKSIZE], whole[BLOCKSIZE..];
      var h' := Compress(h, MessageWords(block), CounterTail(count + BLOCKSIZE, false, false));
      assert (whole + tail)[..BLOCKSIZE] == block && (whole + tail)[BLOCKSIZE..] == rest + tail;
      OneShotLast(h', rest, tail, count + BLOCKSIZE, lastNode);
      ChainFront(h, block, rest, count);
      assert whole == block + rest;
    }
  }

  // ----- the two-word counter

  lemma CarryStep(n: nat, count: nat)
    requires count < LWORD
    ensures (n + count) % LWORD == (n % LWORD + count) % LWORD
    ensures (n + count) / LWORD % LWORD
         == (n / LWORD % LWORD + if (n % LWORD + count) % LWORD < count then 1 else 0) % LWORD
  {
    var q, r := n / LWORD, n % LWORD;
    if r + count < LWORD {
      EuclidUnique(n + count, LWORD, q, r + count);
    } else {
      EuclidUnique(n + count, LWORD, q + 1, r + count - LWORD);
      WrapNext(q);
    }
  }

  lemma WrapNext(q: nat)
    ensures (q + 1) % LWORD == (q % LWORD + 1) % LWORD
  {
  }

  // ----- the object

  /** The contents of `m_hft`. */
  function Mem(h: State, tf: Tail): Memory { h + [tf.t0, tf.t1, tf.f0, tf.f1] }

  lemma CompressedMem(h: State, tf: Tail, block: seq<byte>)
    requires |block| == BLOCKSIZE
    ensures Compressed(Mem(h, tf), block) == Mem(Compress(h, MessageWords(block), tf), tf)
  {
    hide Compress, MessageWords;
    var s := Mem(h, tf);
    assert s[..8] == h && s[8..] == [tf.t0, tf.t1, tf.f0, tf.f1];
  }

  class Blake2bHash {
    /** `HasSSE41` */
    const sse41: bool
    const hft: array<Word>
    const buf: array<byte>
    var len: nat
    var param: seq<byte>
    const key: seq<byte>
    const keyLength: nat
    const digestSize: nat
    var treeMode: bool

    /** The bytes compressed, and the count they started from. */
    ghost var absorbed: seq<byte>
    ghost var base: nat

    ghost predicate Parameters()
      reads this`param
    {
      && hft.Length == 12 && buf.Length == BLOCKSIZE && |param| == 64 && digestSize <= 64 && keyLength <= 64
      && |key| == (if keyLength == 0 then 0 else BLOCKSIZE)
    }

    ghost predicate Absorbed()
      reads this`param, this`absorbed, this`base, hft
    {
      && Parameters() && |absorbed| % BLOCKSIZE == 0
      && hft[..] == Mem(Chain(StartState(param), absorbed, base), CounterTail(base + |absorbed|, false, false))
    }

    /** The last block is held back: it is empty only if nothing was fed. */
    ghost predicate Valid()
      reads this, hft, buf
    {
      hide Chain, CounterTail, Mem, StartState;
      Parameters() && Absorbed() && len <= BLOCKSIZE && (len == 0 ==> absorbed == [])
    }

    ghost function Fed(): seq<byte>
      requires buf.Length == BLOCKSIZE && len <= BLOCKSIZE
      reads this, buf
    {
      absorbed + buf[..len]
    }

    /** The constructors, through `UncheckedSetKey` */
    constructor (sse41: bool, key0: seq<byte>, salt: seq<byte>, personalization: seq<byte>, treeMode: bool,
                 digestSize: nat)
      requires |key0| <= 64 && |salt| <= 16 && |personalization| <= 16 && digestSize <= 64
      ensures Valid() && base == 0 && Fed() == key == KeyBlock(key0) && fresh(hft) && fresh(buf)
      ensures param == ParameterBlock(digestSize, |key0|, salt, personalization)
      ensures this.treeMode == treeMode && this.digestSize == digestSize
    {
      hide StartState, Chain, CounterTail, Mem;
      this.sse41, this.treeMode, this.digestSize := sse41, treeMode, digestSize;
      hft := new Word[12](i => 0);
      buf := new byte[BLOCKSIZE](i => 0);
      len, absorbed, base := 0, [], 0;
      key, keyLength := KeyBlock(key0), |key0|;
      param := ParameterBlock(digestSize, |key0|, salt, personalization);
      new;
      Restart(param, 0, 0);
      assert param == ParameterBlock(digestSize, |key0|, salt, personalization);
    }

    /** `IncrementCounter` */
    method IncrementCounter(count: nat, ghost h: State, ghost n: nat, ghost last: bool, ghost lastNode: bool)
      requires hft.Length == 12 && count < LWORD && hft[..] == Mem(h, CounterTail(n, last, lastNode))
      modifies hft
      ensures hft[..] == Mem(h, CounterTail(n + count, last, lastNode))
    {
      CarryStep(n, count);
      hft[8] := (hft[8] + count) % LWORD;
      hft[9] := (hft[9] + if hft[8] < count then 1 else 0) % LWORD;
    }

    /** `Compress`: the engine the machine has */
    method CompressBlock(input: seq<byte>)
      requires hft.Length == 12 && |input| == BLOCKSIZE
      modifies hft
      ensures hft[..] == Compressed(old(hft[..]), input)
    {
      if sse41 {
        CompressSse4(input, hft);
      } else {
        CompressCxx(input, hft);
      }
    }

    /** Count a full block and compress it. */
    method AbsorbBlock(block: seq<byte>)
      requires Absorbed() && |block| == BLOCKSIZE
      modifies hft, this`absorbed
      ensures Absorbed() && absorbed == old(absorbed) + block
    {
      hide Chain, Compress, MessageWords, CounterTail, Mem, StartState, Compressed;
      ghost var h, n := Chain(StartState(param), absorbed, base), base + |absorbed|;
      IncrementCounter(BLOCKSIZE, h, n, false, false);
      CompressBlock(block);
      CompressedMem(h, CounterTail(n + BLOCKSIZE, false, false), block);
      ChainStep(StartState(param), absorbed, block, base);
      absorbed := absorbed + block;
    }

    /** `Update` */
    method Update(input0: seq<byte>)
      requires Valid()
      modifies hft, buf, this`len, this`absorbed
      ensures Valid() && Fed() == old(Fed()) + input0
    {
      hide Blake2bHash.Absorbed;
      var input := input0;
      if |input| > BLOCKSIZE - len {
        if len != 0 {
          var fill := BLOCKSIZE - len;
          CompleteBlock(input[..fill]);
          input := input[fill..];
          assert absorbed + input == old(Fed()) + (input0[..fill] + input0[fill..]);
          assert input0[..fill] + input0[fill..] == input0;
        }
        input := AbsorbFull(input);
      }
      if |input| > 0 {
        CopyIn(input);
        len := len + |input|;
      }
    }

    /** The first part of `Update`: the held bytes and the head of the input make a block. */
    method CompleteBlock(head: seq<byte>)
      requires Parameters() && Absorbed() && len + |head| == BLOCKSIZE
      modifies hft, buf, this`len, this`absorbed
      ensures Parameters() && Absorbed() && len == 0 && absorbed == old(Fed()) + head
    {
      hide Chain, CounterTail, Mem, StartState;
      CopyIn(head);
      assert buf[..] == buf[..len + |head|];
      AbsorbBlock(buf[..]);
      len := 0;
    }

    /** The loop of `Update`: full blocks are compressed where they are, but never the last. */
    method AbsorbFull(input0: seq<byte>) returns (input: seq<byte>)
      requires Parameters() && Absorbed() && len == 0 && |input0| > 0
      modifies hft, this`absorbed
      ensures Parameters() && Absorbed() && 0 < |input| <= BLOCKSIZE && absorbed + input == old(absorbed) + input0
    {
      hide Chain, CounterTail, Mem, StartState;
      input := input0;
      while |input| > BLOCKSIZE
        invariant Absorbed() && |input| > 0 && absorbed + input == old(absorbed) + input0
        decreases |input|
      {
        AbsorbBlock(input[..BLOCKSIZE]);
        input := input[BLOCKSIZE..];
      }
    }

    /** `memcpy` into the free part of the buffer */
    method CopyIn(data: seq<byte>)
      requires buf.Length == BLOCKSIZE && len + |data| <= BLOCKSIZE
      modifies buf
      ensures buf[..len + |data|] == old(buf[..len]) + data
    {
      for i := 0 to |data|
        invariant buf[..len + i] == old(buf[..len]) + data[..i]
      {
        buf[len + i] := data[i];
        assert buf[..len + i + 1] == buf[..len + i] + [data[i]];
      }
    }

    /** `TruncatedFinal`: `None` for its exception. */
    method TruncatedFinal(size: nat) returns (hash: Option<seq<byte>>)
      requires Valid()
      modifies hft, buf, this`len, this`absorbed, this`base, this`param
      ensures hash.None? <==> size > digestSize
      ensures hash.None? ==> Valid() && Fed() == old(Fed())
      ensures hash.Some? ==>
                hash.value == DigestBytes(OneShot(StartState(old(param)), old(Fed()), old(base), treeMode))[..size]
      ensures hash.Some? ==> Valid() && base == 0 && Fed() == key && param == Persisted(old(param))
    {
      hide Chain, CounterTail, Mem, StartState, OneShot, DigestBytes;
      if size > digestSize {
        return None;
      }
      ghost var h := FinalBlock();
      HashOfMem(h, CounterTail(base + |old(Fed())|, true, treeMode));
      var bytes := HashBytes();
      hash := Some(bytes[..size]);
      Restart(param, 0, 0);
    }

    /** The flags, the count of the held bytes and the last compression of `TruncatedFinal` */
    method FinalBlock() returns (ghost h: State)
      requires Valid()
      modifies hft, buf
      ensures h == OneShot(StartState(param), old(Fed()), base, treeMode)
      ensures hft[..] == Mem(h, CounterTail(base + |old(Fed())|, true, treeMode))
    {
      hide Chain, CounterTail, Mem, StartState, Compress, Compressed, MessageWords, OneShot, Flag;
      ghost var h0, n := Chain(StartState(param), absorbed, base), base + |absorbed|;
      ghost var tail := buf[..len];
      SetFlags(h0, n);
      IncrementCounter(len, h0, n, true, treeMode);
      for i := len to BLOCKSIZE
        invariant buf[..i] == PadBlock(tail)[..i]
        invariant hft[..] == Mem(h0, CounterTail(n + len, true, treeMode))
      {
        buf[i] := 0;
        assert buf[..i + 1] == buf[..i] + [0];
      }
      assert buf[..] == PadBlock(tail);
      CompressBlock(buf[..]);
      CompressedMem(h0, CounterTail(n + len, true, treeMode), PadBlock(tail));
      OneShotLast(StartState(param), absorbed, tail, base, treeMode);
      h := OneShot(StartState(param), absorbed + tail, base, treeMode);
    }

    method SetFlags(ghost h: State, ghost n: nat)
      requires hft.Length == 12 && hft[..] == Mem(h, CounterTail(n, false, false))
      modifies hft
      ensures hft[..] == Mem(h, CounterTail(n, true, treeMode))
    {
      hft[10] := LWORD - 1;
      if treeMode {
        hft[11] := LWORD - 1;
      }
    }

    /** The chaining words as they lie in the memory of a little-endian machine. */
    method HashBytes() returns (d: seq<byte>)
      requires hft.Length == 12
      ensures |d| == 64 && d == DigestBytes(hft[..8])
    {
      d := ToBytes(hft[0]) + ToBytes(hft[1]) + ToBytes(hft[2]) + ToBytes(hft[3])
           + ToBytes(hft[4]) + ToBytes(hft[5]) + ToBytes(hft[6]) + ToBytes(hft[7]);
    }

    /** The parameter block with the digest size and the key length of the object. */
    ghost function Persisted(block: seq<byte>): (p: seq<byte>)
      requires |block| == 64
      ensures |p| == 64
    {
      block[0 := digestSize % 256][1 := keyLength % 256]
    }

    /** `Restart` with a parameter block and a counter */
    method Restart(block: seq<byte>, counter0: Word, counter1: Word)
      requires Parameters() && |block| == 64
      modifies hft, buf, this`len, this`absorbed, this`base, this`param
      ensures Valid() && base == counter0 + LWORD * counter1 && Fed() == key && param == Persisted(block)
    {
      hide Chain, CounterTail, Mem, StartState;
      param := block[0 := digestSize % 256][1 := keyLength % 256];
      len := 0;
      ResetState(counter0, counter1);
      absorbed, base := [], counter0 + LWORD * counter1;
      EmptyChain(StartState(param), base);
      if keyLength != 0 {
        Update(key);
      }
    }

    method ResetState(counter0: Word, counter1: Word)
      requires Parameters()
      modifies hft
      ensures hft[..] == Mem(StartState(param), CounterTail(counter0 + LWORD * counter1, false, false))
    {
      hide Xor64, LoadWord;
      forall i | 0 <= i < 12 { hft[i] := 0; }
      hft[8], hft[9] := counter0, counter1;
      EuclidUnique(counter0 + LWORD * counter1, LWORD, counter1, counter0);
      for i := 0 to 8
        invariant forall k :: 0 <= k < i ==> hft[k] == StartState(param)[k]
        invariant hft[8] == counter0 && hft[9] == counter1 && hft[10] == hft[11] == 0
      {
        hft[i] := Xor64(IV[i], LoadWord(param, 8 * i));
      }
      assert hft[..] == Mem(StartState(param), CounterTail(counter0 + LWORD * counter1, false, false));
    }
  }

  lemma EmptyChain(h: State, count: nat)
    ensures Chain(h, [], count) == h && CounterTail(count + 0, false, false) == CounterTail(count, false, false)
  {
  }

  lemma HashOfMem(h: State, tf: Tail)
    ensures Mem(h, tf)[..8] == h
  {
  }

  /** Without salt and personalization, only the first word of the initial vector changes. */
  lemma PlainStart(digestSize: nat, keyLength: nat)
    requires digestSize <= 64 && keyLength <= 64
    ensures StartState(ParameterBlock(digestSize, keyLength, [], []))
         == IV[0 := Xor64(IV[0], 0x0101_0000 + 0x100 * keyLength + digestSize)]
  {
    hide Xor64, FromBytes;
    var p := ParameterBlock(digestSize, keyLength, [], []);
    assert p[0..8] == [digestSize, keyLength, 1, 1, 0, 0, 0, 0];
    FirstParameterWord(digestSize, keyLength);
    ZeroWord();
    forall i | 1 <= i < 8 ensures LoadWord(p, 8 * i) == 0 {
      assert p[8 * i..8 * i + 8] == [0, 0, 0, 0, 0, 0, 0, 0];
    }
    assert LoadWord(p, 8 * 1) == LoadWord(p, 8 * 2) == LoadWord(p, 8 * 3) == LoadWord(p, 8 * 4) == 0;
    assert LoadWord(p, 8 * 5) == LoadWord(p, 8 * 6) == LoadWord(p, 8 * 7) == 0;
    XorWordZero(IV[1]);
    XorWordZero(IV[2]);
    XorWordZero(IV[3]);
    XorWordZero(IV[4]);
    XorWordZero(IV[5]);
    XorWordZero(IV[6]);
    XorWordZero(IV[7]);
  }

  lemma FirstParameterWord(d: nat, k: nat)
    requires d <= 64 && k <= 64
    ensures FromBytes([d, k, 1, 1, 0, 0, 0, 0]) == 0x0101_0000 + 0x100 * k + d
  {
  }

  lemma ZeroWord()
    ensures FromBytes([0, 0, 0, 0, 0, 0, 0, 0]) == 0
  {
  }

  lemma XorWordZero(x: Word)
    ensures Xor64(x, 0) == x
  {
    hide XorBits;
    WordBits();
    XorBitsZero(x, 64);
  }

  /** The whole use of an object: the hash does not depend on the cut of the message, nor on
      the engine. */
  method Hash(sse41: bool, key: seq<byte>, salt: seq<byte>, personalization: seq<byte>, treeMode: bool, digestSize: nat,
              pieces: seq<seq<byte>>, size: nat) returns (hash: Option<seq<byte>>)
    requires |key| <= 64 && |salt| <= 16 && |personalization| <= 16 && digestSize <= 64
    ensures hash.None? <==> size > digestSize
    ensures hash.Some? ==>
              hash.value == DigestBytes(OneShot(StartState(ParameterBlock(digestSize, |key|, salt, personalization)),
                                                KeyBlock(key) + Flatten(pieces), 0, treeMode))[..size]
  {
    hide StartState, ParameterBlock, OneShot, DigestBytes, Flatten, KeyBlock, Blake2bHash.Absorbed;
    var hasher := new Blake2bHash(sse41, key, salt, personalization, treeMode, digestSize);
    ghost var param := hasher.param;
    FlattenStart(pieces);
    for i := 0 to |pieces|
      invariant hasher.Valid() && hasher.Fed() == KeyBlock(key) + Flatten(pieces[..i])
      invariant hasher.base == 0 && hasher.param == param && hasher.treeMode == treeMode
      invariant fresh(hasher) && fresh(hasher.hft) && fresh(hasher.buf)
    {
      FlattenNext(pieces, i);
      hasher.Update(pieces[i]);
    }
    assert pieces[..|pieces|] == pieces;
    hash := hasher.TruncatedFinal(size);
  }
}
