/** The power-of-two base codec of basecode.cpp: the streaming encoder, for every digit
    width from 1 to 7 bits. */
module BaseN {
  import opened NatBits
  import opened Bytes
  import opened BitStrings

  // ----- one byte into the digits of the encoder

  /** What one step of the encoder's inner loop does when s source bits are left and
      the target digit still wants t of them, t <= s. */
  lemma FillDigit(part: nat, filled: nat, c: nat, s: nat, t: nat) returns (hi: nat, rest: nat)
    requires part < Pow2(filled) && c < Pow2(s) && t <= s <= 8
    ensures hi == Shr(c, s - t) && rest == Low(c, s - t)
    ensures hi < Pow2(t) && rest < Pow2(s - t)
    ensures Shr(Shl(c, 8 - s), 8 - t) == hi
    ensures Or(Shl(part, t), hi) == Shl(part, t) + hi < Pow2(filled + t)
    ensures Bits(Shl(part, t) + hi, filled + t) == Bits(part, filled) + Bits(hi, t)
    ensures Bits(c, s) == Bits(hi, t) + Bits(rest, s - t)
    ensures Low(Shl(Shl(c, 8 - s), t), 8) == Shl(rest, 8 - (s - t))
  {
    hide *;
    hi, rest := Shr(c, s - t), Low(c, s - t);
    ShrBound(c, t, s - t);
    ShrOfShl(c, 8 - s, s - t);
    OrBelow(part, t, hi);
    ShlBound(part, filled, t);
    BitsJoin(part, filled, hi, t);
    BitsSplit(c, t, s - t);
    LowOfShifted(c, s, t);
  }

  /** The same when the source runs out first. */
  lemma PartDigit(part: nat, filled: nat, c: nat, s: nat, t: nat)
    requires part < Pow2(filled) && c < Pow2(s) && s <= t <= 8
    ensures Shr(Shl(c, 8 - s), 8 - t) == Shl(c, t - s)
    ensures Or(Shl(part, t), Shl(c, t - s)) == Shl(Shl(part, s) + c, t - s)
    ensures Shl(part, s) + c < Pow2(filled + s)
    ensures Bits(Shl(part, s) + c, filled + s) == Bits(part, filled) + Bits(c, s)
  {
    hide *;
    ShlOfShl(c, t - s, 8 - t);
    ShrOfShl(Shl(c, t - s), 8 - t, 0);
    ShrNone(Shl(c, t - s));
    ShlBound(c, s, t - s);
    OrBelow(part, t, Shl(c, t - s));
    ShlAdd(Shl(part, s), c, t - s);
    ShlShl(part, s, t - s);
    ShlBound(part, filled, s);
    BitsJoin(part, filled, c, s);
  }

  lemma ShrNone(c: nat)
    ensures Shr(c, 0) == c
  {
  }

  lemma ShlOfShl(c: nat, a: nat, b: nat)
    ensures Shl(c, a + b) == Shl(Shl(c, a), b)
  {
    ShlShl(c, a, b);
  }

  lemma {:induction false} ShrOfShl(c: nat, a: nat, d: nat)
    ensures Shr(Shl(c, a), a + d) == Shr(c, d)
    decreases a
  {
    if a > 0 {
      ShrOfShl(c, a - 1, d);
      assert Shl(c, a) / 2 == Shl(c, a - 1);
    }
  }

  /** Shifting the source byte up by t drops the bits already taken. */
  lemma LowOfShifted(c: nat, s: nat, t: nat)
    requires c < Pow2(s) && t <= s <= 8
    ensures Low(Shl(Shl(c, 8 - s), t), 8) == Shl(Low(c, s - t), 8 - (s - t))
  {
    hide *;
    var hi, rest := Shr(c, s - t), Low(c, s - t);
    ShrLow(c, s - t);
    ShlShl(c, 8 - s, t);
    ShlAdd(Shl(hi, s - t), rest, 8 - s + t);
    ShlShl(hi, s - t, 8 - s + t);
    ShlBound(rest, s - t, 8 - s + t);
    LowAbove(hi, 8, Shl(rest, 8 - s + t));
  }

  lemma {:induction false} LowAbove(h: nat, k: nat, y: nat)
    requires y < Pow2(k)
    ensures Low(Shl(h, k) + y, k) == y
    decreases k
  {
    if k > 0 {
      LowAbove(h, k - 1, y / 2);
      Halves(Shl(h, k - 1), y);
    }
  }

  // ----- the encoding as a function

  /** The digits of a message, without the alphabet. */
  function MessageDigits(message: seq<byte>, w: nat): seq<nat>
    requires w > 0
  {
    Digits(DigitBits(message, 8), w)
  }

  function Spell(digits: seq<nat>, alphabet: seq<byte>): (s: seq<byte>)
    requires forall i :: 0 <= i < |digits| ==> digits[i] < |alphabet|
    ensures |s| == |digits|
  {
    seq(|digits|, i requires 0 <= i < |digits| => alphabet[digits[i]])
  }

  lemma SpellAppend(a: seq<nat>, b: seq<nat>, alphabet: seq<byte>)
    requires forall i :: 0 <= i < |a| ==> a[i] < |alphabet|
    requires forall i :: 0 <= i < |b| ==> b[i] < |alphabet|
    ensures forall i :: 0 <= i < |a + b| ==> (a + b)[i] < |alphabet|
    ensures Spell(a + b, alphabet) == Spell(a, alphabet) + Spell(b, alphabet)
  {
  }

  /** The padding that completes the last block of characters, if there is one. */
  function PaddingFor(count: nat, blockSize: nat, padding: int): seq<byte>
    requires blockSize > 0 && -1 <= padding < 256
  {
    if padding == -1 || count % blockSize == 0 then [] else seq(blockSize - count % blockSize, i => padding)
  }

  /** The encoding of a message. */
  function Encode(message: seq<byte>, w: nat, alphabet: seq<byte>, blockSize: nat, padding: int): seq<byte>
    requires w > 0 && |alphabet| >= Pow2(w) && blockSize > 0 && -1 <= padding < 256
  {
    var digits := MessageDigits(message, w);
    EncodeDigits(message, w);
    Spell(digits, alphabet) + PaddingFor(|digits|, blockSize, padding)
  }

  lemma EncodeDigits(message: seq<byte>, w: nat)
    requires w > 0
    ensures AreDigits(MessageDigits(message, w), w)
  {
    DigitBitsAreBits(message, 8);
    var z := BitsOfDigits(DigitBits(message, 8), w);
  }

  // ----- the encoder's buffer

  /** Complete digits, then one digit filled from the top with `bitPos` bits of
      value `part`, then zeros. */
  ghost predicate Buffered(buf: seq<byte>, bytePos: nat, bitPos: nat, part: nat, w: nat) {
    && bytePos < |buf| && bitPos < w && part < Pow2(bitPos)
    && (forall k :: 0 <= k < bytePos ==> buf[k] < Pow2(w))
    && buf[bytePos] == Shl(part, w - bitPos)
    && (forall k :: bytePos < k < |buf| ==> buf[k] == 0)
  }

  /** The bits held. */
  ghost function Held(buf: seq<byte>, bytePos: nat, bitPos: nat, part: nat, w: nat): seq<nat>
    requires bytePos <= |buf|
  {
    DigitBits(buf[..bytePos], w) + Bits(part, bitPos)
  }

  /** The state between two bytes or, when the block is full, at its end. */
  ghost predicate Between(buf: seq<byte>, bytePos: nat, bitPos: nat, part: nat, w: nat) {
    && bytePos <= |buf|
    && (bytePos < |buf| ==> Buffered(buf, bytePos, bitPos, part, w))
    && (bytePos == |buf| ==> bitPos == part == 0 && AreDigits(buf, w))
  }

  lemma NothingHeld(buf: seq<byte>, w: nat)
    ensures Held(buf, 0, 0, 0, w) == []
  {
  }

  lemma SmallPow2(w: nat)
    requires w <= 7
    ensures Pow2(w) <= 128
  {
    assert Pow2(0) == 1 && Pow2(1) == 2 && Pow2(2) == 4 && Pow2(3) == 8;
    assert Pow2(4) == 16 && Pow2(5) == 32 && Pow2(6) == 64 && Pow2(7) == 128;
  }

  /** The full-digit step on the buffer. */
  lemma StepFill(buf: seq<byte>, bytePos: nat, bitPos: nat, part: nat, w: nat, c: nat, s: nat)
      returns (digit: byte, rest: nat)
    requires Buffered(buf, bytePos, bitPos, part, w) && w <= 7 && c < Pow2(s) && w - bitPos <= s <= 8
    ensures digit == Or(buf[bytePos], Shr(Shl(c, 8 - s), 8 - (w - bitPos)))
    ensures rest < Pow2(s - (w - bitPos))
    ensures Low(Shl(Shl(c, 8 - s), w - bitPos), 8) == Shl(rest, 8 - (s - (w - bitPos)))
    ensures Between(buf[bytePos := digit], bytePos + 1, 0, 0, w)
    ensures Held(buf[bytePos := digit], bytePos + 1, 0, 0, w) + Bits(rest, s - (w - bitPos))
         == Held(buf, bytePos, bitPos, part, w) + Bits(c, s)
  {
    hide Shl, Shr, Low, Bits, Or, DigitBits, Pow2;
    var t := w - bitPos;
    var hi;
    hi, rest := FillDigit(part, bitPos, c, s, t);
    SmallPow2(w);
    digit := Shl(part, t) + hi;
    var buf' := buf[bytePos := digit];
    assert buf'[..bytePos + 1] == buf[..bytePos] + [digit];
    DigitBitsSnoc(buf[..bytePos], digit, w);
    NoBits(w);
    assert AreDigits(buf'[..bytePos + 1], w);
    assert bytePos + 1 == |buf| ==> buf' == buf'[..bytePos + 1];
    assert DigitBits(buf[..bytePos], w) + (Bits(part, bitPos) + Bits(hi, t)) + [] + Bits(rest, s - t)
        == DigitBits(buf[..bytePos], w) + Bits(part, bitPos) + (Bits(hi, t) + Bits(rest, s - t));
  }

  lemma NoBits(w: nat)
    ensures Bits(0, 0) == [] && 0 < Pow2(0) && Shl(0, w) == 0
  {
    ShlZero(w);
  }

  /** The last step of a byte that ends inside a digit. */
  lemma StepPart(buf: seq<byte>, bytePos: nat, bitPos: nat, part: nat, w: nat, c: nat, s: nat)
      returns (digit: byte, part': nat)
    requires Buffered(buf, bytePos, bitPos, part, w) && w <= 7 && c < Pow2(s) && s < w - bitPos
    ensures digit == Or(buf[bytePos], Shr(Shl(c, 8 - s), 8 - (w - bitPos)))
    ensures Buffered(buf[bytePos := digit], bytePos, bitPos + s, part', w)
    ensures Held(buf[bytePos := digit], bytePos, bitPos + s, part', w)
         == Held(buf, bytePos, bitPos, part, w) + Bits(c, s)
  {
    hide Shl, Shr, Low, Bits, Or, DigitBits, Pow2;
    var t := w - bitPos;
    PartDigit(part, bitPos, c, s, t);
    part' := Shl(part, s) + c;
    ShlBound(part', bitPos + s, t - s);
    SmallPow2(w);
    PowPositive(t - s);
    digit := Shl(part', t - s);
    assert buf[bytePos := digit][..bytePos] == buf[..bytePos];
  }

  lemma PowPositive(k: nat)
    ensures Pow2(k) >= 1
  {
  }

  class Encoder {
    const alphabet: seq<byte>
    const bitsPerChar: nat
    const padding: int
    const outputBlockSize: nat
    const outBuf: array<byte>
    var bytePos: nat
    var bitPos: nat
    /** What has been passed to the attached transformation. */
    var output: seq<byte>

    /** The output before the current message, the part of the message consumed, the
        digits already output for it, and the bits of the incomplete digit. */
    ghost var base: seq<byte>
    ghost var consumed: seq<byte>
    ghost var done: seq<nat>
    ghost var part: nat
    ghost const blockBytes: nat
    ghost var inBlock: nat

    ghost predicate Parameters()
      reads this
    {
      && 1 <= bitsPerChar <= 7 && |alphabet| >= Pow2(bitsPerChar) && -1 <= padding < 256
      && outBuf.Length == outputBlockSize > 0 && outputBlockSize * bitsPerChar == 8 * blockBytes
    }

    ghost predicate Valid()
      reads this, outBuf
    {
      && Parameters()
      && bytePos < outputBlockSize && bitPos < bitsPerChar && bytePos * bitsPerChar + bitPos == 8 * inBlock
      && (bytePos > 0 ==> Buffered(outBuf[..], bytePos, bitPos, part, bitsPerChar))
      && (bytePos == 0 ==> bitPos == part == 0)
      && AreDigits(done, bitsPerChar) && |done| % outputBlockSize == 0 && output == base + Spell(done, alphabet)
      && DigitBits(consumed, 8) == DigitBits(done, bitsPerChar) + Held(outBuf[..], bytePos, bitPos, part, bitsPerChar)
    }

    /** The inner loop of `Put2`: the eight bits of one byte go into the buffer. */
    method PutByte(b0: byte)
      requires Parameters() && Buffered(outBuf[..], bytePos, bitPos, part, bitsPerChar)
      requires bytePos * bitsPerChar + bitPos + 8 <= outputBlockSize * bitsPerChar
      modifies outBuf, this`bytePos, this`bitPos, this`part
      ensures Between(outBuf[..], bytePos, bitPos, part, bitsPerChar)
      ensures bytePos * bitsPerChar + bitPos == old(bytePos * bitsPerChar + bitPos) + 8
      ensures Held(outBuf[..], bytePos, bitPos, part, bitsPerChar)
              == old(Held(outBuf[..], bytePos, bitPos, part, bitsPerChar)) + Bits(b0, 8)
    {
      hide Shl, Shr, Low, Bits, Or, Held, Pow2;
      var b, bitsLeftInSource := b0, 8;
      ghost var c: nat := b0;
      ByteStart(b0);
      while true
        invariant Parameters() && 0 < bitsLeftInSource <= 8
        invariant Buffered(outBuf[..], bytePos, bitPos, part, bitsPerChar)
        invariant b == Shl(c, 8 - bitsLeftInSource) && c < Pow2(bitsLeftInSource)
        invariant bytePos * bitsPerChar + bitPos + bitsLeftInSource == old(bytePos * bitsPerChar + bitPos) + 8
        invariant Held(outBuf[..], bytePos, bitPos, part, bitsPerChar) + Bits(c, bitsLeftInSource)
               == old(Held(outBuf[..], bytePos, bitPos, part, bitsPerChar)) + Bits(b0, 8)
        decreases bitsLeftInSource
      {
        var bitsLeftInTarget := bitsPerChar - bitPos;
        ghost var digit: byte, next: nat;
        if bitsLeftInSource >= bitsLeftInTarget {
          digit, next := StepFill(outBuf[..], bytePos, bitPos, part, bitsPerChar, c, bitsLeftInSource);
        } else {
          digit, next := StepPart(outBuf[..], bytePos, bitPos, part, bitsPerChar, c, bitsLeftInSource);
        }
        ghost var buf := outBuf[..];
        outBuf[bytePos] := Or(outBuf[bytePos], Shr(b, 8 - bitsLeftInTarget));
        assert outBuf[..] == buf[bytePos := digit];
        if bitsLeftInSource >= bitsLeftInTarget {
          NextDigit(bytePos, outputBlockSize, bitsPerChar);
          bitPos, part, c := 0, 0, next;
          bytePos := bytePos + 1;
          bitsLeftInSource := bitsLeftInSource - bitsLeftInTarget;
          if bitsLeftInSource == 0 {
            NoBitsLeft(c);
            return;
          }
          b := Low(Shl(b, bitsLeftInTarget), 8);
        } else {
          bitPos, part := bitPos + bitsLeftInSource, next;
          return;
        }
      }
    }

    /** `IsolatedInitialize`, for a width the source accepts; see `NewEncoder`. */
    constructor (alphabet: seq<byte>, log2Base: nat, padding: int, blockSize: nat, ghost blockBytes: nat)
      requires 1 <= log2Base <= 7 && |alphabet| >= Pow2(log2Base) && -1 <= padding < 256
      requires blockSize > 0 && blockSize * log2Base == 8 * blockBytes
      ensures Valid() && fresh(outBuf) && output == base == consumed == []
      ensures this.alphabet == alphabet && bitsPerChar == log2Base && this.padding == padding
      ensures outputBlockSize == blockSize
    {
      this.alphabet, bitsPerChar, this.padding, outputBlockSize := alphabet, log2Base, padding, blockSize;
      outBuf := new byte[blockSize](i => 0);
      bytePos, bitPos, output := 0, 0, [];
      base, consumed, done, part, inBlock := [], [], [], 0, 0;
      this.blockBytes := blockBytes;
      new;
      NothingHeld(outBuf[..], log2Base);
    }

    /** Replaces the first `count` digits by their characters. */
    method Translate(count: nat)
      requires Parameters() && count <= outputBlockSize
      requires forall i :: 0 <= i < count ==> outBuf[i] < Pow2(bitsPerChar)
      modifies outBuf
      ensures outBuf[..count] == Spell(old(outBuf[..count]), alphabet)
      ensures outBuf[count..] == old(outBuf[count..])
    {
      for i := 0 to count
        invariant forall k :: 0 <= k < i ==> outBuf[k] == alphabet[old(outBuf[k])]
        invariant forall k :: i <= k < outBuf.Length ==> outBuf[k] == old(outBuf[k])
      {
        outBuf[i] := alphabet[outBuf[i]];
      }
    }

    /** The body of the outer loop of `Put2`: one byte, and the block when it is full. */
    method PutOne(b: byte)
      requires Valid()
      modifies this`bytePos, this`bitPos, this`part, this`output, this`consumed, this`done, this`inBlock, outBuf
      ensures Valid() && consumed == old(consumed) + [b]
    {
      hide Buffered, Held, DigitBits, Bits, Pow2;
      ghost var w := bitsPerChar;
      ghost var held := Held(outBuf[..], bytePos, bitPos, part, w);
      if bytePos == 0 {
        forall i | 0 <= i < outBuf.Length { outBuf[i] := 0; }
        EmptyBuffer(outBuf[..], w);
        NothingHeld(old(outBuf[..]), w);
        NothingHeld(outBuf[..], w);
      }
      RoomForByte(bytePos, bitPos, w, outputBlockSize, inBlock, blockBytes);
      PutByte(b);
      DigitBitsSnoc(consumed, b, 8);
      consumed := consumed + [b];
      inBlock := inBlock + 1;
      assert DigitBits(consumed, 8) == DigitBits(done, w) + Held(outBuf[..], bytePos, bitPos, part, w);
      if bytePos == outputBlockSize {
        FlushBlock();
      } else {
        BufferedPos(outBuf[..], bytePos, bitPos, part, w);
        PastFirst(bytePos, bitPos, w, inBlock);
      }
    }

    /** Outputs a full block. */
    method FlushBlock()
      requires Parameters() && bytePos == outputBlockSize && AreDigits(outBuf[..], bitsPerChar) && bitPos == part == 0
      requires AreDigits(done, bitsPerChar) && |done| % outputBlockSize == 0 && output == base + Spell(done, alphabet)
      requires DigitBits(consumed, 8) == DigitBits(done, bitsPerChar) + Held(outBuf[..], bytePos, 0, 0, bitsPerChar)
      modifies this`bytePos, this`bitPos, this`part, this`output, this`done, this`inBlock, outBuf
      ensures Valid()
    {
      hide DigitBits, Bits, Pow2, Shl;
      ghost var digits: seq<nat> := outBuf[..];
      FullBlock(outBuf[..], bitsPerChar);
      DigitBitsAppend(done, digits, bitsPerChar);
      SpellAppend(done, digits, alphabet);
      MultipleAdd(|done|, outputBlockSize);
      Translate(bytePos);
      assert outBuf[..bytePos] == outBuf[..];
      output := output + outBuf[..];
      done := done + digits;
      bytePos, bitPos, part, inBlock := 0, 0, 0, 0;
      NothingHeld(outBuf[..], bitsPerChar);
    }

    /** Outputs the first `count` digits of the buffer, padded to a block if asked. */
    method WriteTail(count: nat)
      requires Parameters() && count <= outputBlockSize
      requires forall i :: 0 <= i < count ==> outBuf[i] < Pow2(bitsPerChar)
      modifies this`output, outBuf
      ensures output == old(output) + Spell(old(outBuf[..count]), alphabet)
                        + (if padding != -1 && count > 0 then seq(outputBlockSize - count, i => padding) else [])
    {
      hide Pow2;
      Translate(count);
      ghost var text := outBuf[..count];
      if padding != -1 && count > 0 {
        forall i | count <= i < outputBlockSize { outBuf[i] := padding; }
        assert outBuf[..] == text + seq(outputBlockSize - count, i => padding);
        output := output + outBuf[..];
      } else {
        output := output + outBuf[..count];
      }
    }

    /** The `messageEnd` part of `Put2`. */
    method EndMessage()
      requires Valid()
      modifies this`bytePos, this`bitPos, this`part, this`output, this`base, this`consumed, this`done
      modifies this`inBlock, outBuf
      ensures Valid() && consumed == [] && base == output
      ensures output == old(base) + Encode(old(consumed), bitsPerChar, alphabet, outputBlockSize, padding)
    {
      hide DigitBits, Bits, Pow2, Shl, Digits, Held, Buffered, Encode, Spell;
      ghost var w := bitsPerChar;
      ghost var last := EndDigits(done, outBuf[..], bytePos, bitPos, part, w, consumed);
      SpellAppend(done, last, alphabet);
      EncodeParts(done, last, consumed, w, alphabet, outputBlockSize, padding);
      if bitPos > 0 {
        bytePos := bytePos + 1;
      }
      assert last == outBuf[..bytePos];
      WriteTail(bytePos);
      Rewind();
    }

    /** Back to the start of a message. */
    method Rewind()
      requires Parameters()
      modifies this`bytePos, this`bitPos, this`part, this`base, this`consumed, this`done, this`inBlock
      ensures Valid() && consumed == [] && base == output
    {
      hide DigitBits, Bits, Pow2, Shl, Digits, Held, Buffered;
      bytePos, bitPos := 0, 0;
      base, consumed, done, part, inBlock := output, [], [], 0, 0;
      NothingHeld(outBuf[..], bitsPerChar);
      EmptyDigits(bitsPerChar);
    }

    /** `Put2`: any piece of a message; the last piece also ends it. */
    method Put2(begin: seq<byte>, messageEnd: bool)
      requires Valid()
      modifies this`bytePos, this`bitPos, this`part, this`output, this`base, this`consumed, this`done
      modifies this`inBlock, outBuf
      ensures Valid()
      ensures !messageEnd ==> consumed == old(consumed) + begin && base == old(base)
      ensures messageEnd ==> consumed == [] && base == output
      ensures messageEnd ==>
                output == old(base) + Encode(old(consumed) + begin, bitsPerChar, alphabet, outputBlockSize, padding)
    {
      hide *;
      for i := 0 to |begin|
        invariant Valid() && consumed == old(consumed) + begin[..i] && base == old(base)
      {
        PutOne(begin[i]);
        assert begin[..i + 1] == begin[..i] + [begin[i]];
      }
      assert begin[..|begin|] == begin;
      if messageEnd {
        EndMessage();
      }
    }
  }

  /** Computes the size of a block: the least number of units that is a whole number of steps. */
  method BlockSize(unit: nat, step: nat) returns (size: nat, ghost count: nat)
    requires 1 <= unit <= 8 && 1 <= step <= 8
    ensures LeastBlock(size, unit, step) && size * unit == step * count
  {
    hide LeastBlock, NoneBelow;
    var i := step;
    count := 1;
    NoneYet(unit, step);
    while i % unit != 0
      invariant i == step * count && 1 <= count <= unit && NoneBelow(unit, step, count)
      decreases unit - count
    {
      if count == unit { ProductMultiple(unit, step); }
      NoneNext(unit, step, count);
      i := i + step;
      count := count + 1;
    }
    size := i / unit;
    assert size * unit == step * count;
    Least(unit, step, size, count);
  }

  ghost predicate LeastBlock(size: nat, unit: nat, step: nat)
    requires step > 0
  {
    size > 0 && size * unit % step == 0 && forall s: nat :: 0 < s < size ==> s * unit % step != 0
  }

  /** Fewer than `count` steps are no whole number of units. */
  ghost predicate NoneBelow(unit: nat, step: nat, count: nat)
    requires unit > 0
  {
    forall c: nat :: 0 < c < count ==> step * c % unit != 0
  }

  lemma NoneYet(unit: nat, step: nat)
    requires unit > 0
    ensures NoneBelow(unit, step, 1)
  {
  }

  lemma NoneNext(unit: nat, step: nat, count: nat)
    requires unit > 0 && NoneBelow(unit, step, count) && step * count % unit != 0
    ensures NoneBelow(unit, step, count + 1)
  {
  }

  lemma Least(unit: nat, step: nat, size: nat, count: nat)
    requires unit > 0 && step > 0 && count > 0 && size * unit == step * count && NoneBelow(unit, step, count)
    ensures LeastBlock(size, unit, step)
  {
    hide NoneBelow;
    EuclidUnique(size * unit, step, count, 0);
    if size == 0 { MulMono(1, count, step); }
    forall s: nat | 0 < s < size ensures s * unit % step != 0 { NoSmaller(unit, step, size, count, s); }
  }

  lemma NoSmaller(unit: nat, step: nat, size: nat, count: nat, s: nat)
    requires unit > 0 && step > 0 && size * unit == step * count && 0 < s < size && NoneBelow(unit, step, count)
    ensures s * unit % step != 0
  {
    if s * unit % step == 0 {
      var c := s * unit / step;
      assert step * c == s * unit;
      MulMono(s + 1, size, unit);
      assert (s + 1) * unit == s * unit + unit;
      if c >= count { MulMono(count, c, step); }
      if c == 0 { MulMono(1, s, unit); }
      EuclidUnique(step * c, unit, s, 0);
    }
  }

  lemma ProductMultiple(unit: nat, step: nat)
    requires unit > 0
    ensures step * unit % unit == 0
  {
    EuclidUnique(step * unit, unit, step, 0);
  }

  /** `BaseN_Encoder::IsolatedInitialize`: widths outside 1..7 are refused. */
  method NewEncoder(alphabet: seq<byte>, log2Base: int, padding: int) returns (e: Encoder?)
    requires -1 <= padding < 256 && (1 <= log2Base <= 7 ==> |alphabet| >= Pow2(log2Base))
    ensures e == null <==> log2Base <= 0 || log2Base >= 8
    ensures e != null ==> e.Valid() && fresh(e) && fresh(e.outBuf) && e.output == e.base == e.consumed == []
    ensures e != null ==> e.alphabet == alphabet && e.bitsPerChar == log2Base && e.padding == padding
    ensures e != null ==> LeastBlock(e.outputBlockSize, log2Base, 8)
  {
    if log2Base <= 0 || log2Base >= 8 {
      return null;
    }
    var size;
    ghost var bytes;
    size, bytes := BlockSize(log2Base, 8);
    e := new Encoder(alphabet, log2Base, padding, size, bytes);
  }

  lemma EmptyBuffer(buf: seq<byte>, w: nat)
    requires |buf| > 0 && w > 0 && forall k :: 0 <= k < |buf| ==> buf[k] == 0
    ensures Buffered(buf, 0, 0, 0, w)
  {
    NoBits(w);
  }

  lemma RoomForByte(pos: nat, bit: nat, w: nat, size: nat, inBlock: nat, blockBytes: nat)
    requires pos < size && bit < w && pos * w + bit == 8 * inBlock && size * w == 8 * blockBytes
    ensures pos * w + bit + 8 <= size * w
  {
    MulMono(pos + 1, size, w);
    assert (pos + 1) * w == pos * w + w;
  }

  lemma PastFirst(pos: nat, bit: nat, w: nat, inBlock: nat)
    requires bit < w <= 7 && inBlock >= 1 && pos * w + bit == 8 * inBlock
    ensures pos > 0
  {
    assert 0 * w == 0;
  }

  lemma BufferedPos(buf: seq<byte>, pos: nat, bit: nat, part: nat, w: nat)
    requires pos < |buf| && Between(buf, pos, bit, part, w)
    ensures Buffered(buf, pos, bit, part, w) && bit < w && (bit == 0 ==> part == 0)
  {
  }

  lemma FullBlock(buf: seq<byte>, w: nat)
    ensures Held(buf, |buf|, 0, 0, w) == DigitBits(buf, w)
  {
    NoBits(w);
    assert buf[..|buf|] == buf;
  }

  lemma MultipleAdd(n: nat, size: nat)
    requires size > 0 && n % size == 0
    ensures (n + size) % size == 0
  {
    var q := n / size;
    EuclidUnique(n + size, size, q + 1, 0);
  }

  lemma RemainderAdd(n: nat, m: nat, size: nat)
    requires size > 0 && n % size == 0 && m <= size
    ensures (n + m) % size == if m == size then 0 else m
  {
    var q := n / size;
    if m == size { EuclidUnique(n + m, size, q + 1, 0); } else { EuclidUnique(n + m, size, q, m); }
  }

  lemma EmptyDigits(w: nat)
    ensures DigitBits([], w) == [] && DigitBits([], 8) == []
  {
  }

  lemma EncodeParts(done: seq<nat>, last: seq<nat>, message: seq<byte>, w: nat, alphabet: seq<byte>, blockSize: nat,
                    padding: int)
    requires w > 0 && |alphabet| >= Pow2(w) && blockSize > 0 && -1 <= padding < 256
    requires AreDigits(done, w) && AreDigits(last, w) && |done| % blockSize == 0 && |last| <= blockSize
    requires MessageDigits(message, w) == done + last
    ensures Encode(message, w, alphabet, blockSize, padding)
         == Spell(done, alphabet) + Spell(last, alphabet)
            + (if padding != -1 && |last| > 0 then seq(blockSize - |last|, i => padding) else [])
  {
    hide MessageDigits, Pow2;
    SpellAppend(done, last, alphabet);
    RemainderAdd(|done|, |last|, blockSize);
    assert |last| == blockSize ==> seq(blockSize - |last|, i => padding) == [];
  }

  /** The digits of the message are those output and those in the buffer, the
      incomplete one as it stands. */
  lemma EndDigits(done: seq<nat>, buf: seq<byte>, bytePos: nat, bitPos: nat, part: nat, w: nat, consumed: seq<byte>)
      returns (last: seq<nat>)
    requires w > 0 && bytePos < |buf| && AreDigits(done, w)
    requires bytePos > 0 ==> Buffered(buf, bytePos, bitPos, part, w)
    requires bytePos == 0 ==> bitPos == part == 0
    requires DigitBits(consumed, 8) == DigitBits(done, w) + Held(buf, bytePos, bitPos, part, w)
    ensures last == if bitPos > 0 then buf[..bytePos + 1] else buf[..bytePos]
    ensures AreDigits(last, w) && MessageDigits(consumed, w) == done + last
  {
    hide DigitBits, Bits, Digits, Shl, Pow2;
    var whole: seq<nat> := buf[..bytePos];
    NoBits(w);
    DigitBitsAppend(done, whole, w);
    assert DigitBits(consumed, 8) == DigitBits(done + whole, w) + Bits(part, bitPos);
    DigitsOfBits(done + whole, part, bitPos, w);
    last := if bitPos > 0 then buf[..bytePos + 1] else buf[..bytePos];
    if bitPos > 0 {
      ShlBound(part, bitPos, w - bitPos);
      PowPositive(w - bitPos);
      assert last == whole + [Shl(part, w - bitPos)];
      assert done + whole + [Shl(part, w - bitPos)] == done + last;
    } else {
      assert done + whole + [] == done + last;
    }
  }

  lemma ByteStart(b: byte)
    ensures b == Shl(b, 0) && b < Pow2(8)
  {
  }

  lemma NoBitsLeft(c: nat)
    ensures Bits(c, 0) == []
  {
  }

  lemma NextDigit(pos: nat, size: nat, w: nat)
    requires w > 0
    ensures (pos + 1) * w == pos * w + w
    ensures (pos + 1) * w < size * w ==> pos + 1 < size
  {
    if pos + 1 >= size { MulMono(size, pos + 1, w); }
  }
}
