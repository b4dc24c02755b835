/** The authenticated-encryption state machine of authenc.cpp with the CCM steps of
    ccm.cpp, and its agreement with the one-shot mode for every way of calling it. */
module Ccm {
  import opened NatBits
  import opened Bytes
  import opened Options
  import opened CcmSpec
  import opened Pieces

  datatype State = Start | KeySet | IVSet | AuthUntransformed | AuthTransformed | AuthFooter

  /** The exceptions the source throws. */
  datatype Outcome = Done | BadState | InvalidArgument

  class CcmCipher {
    const forward: bool
    var cipher: Cipher
    var state: State
    var digestSize: nat
    var L: nat
    var aadLength: nat
    var messageLength: nat
    var totalHeaderLength: nat
    var totalMessageLength: nat
    var totalFooterLength: nat
    /** Two blocks: buffered data and the CBC chaining value. */
    const buffer: array<byte>
    var bufferedDataLength: nat
    /** Counter mode: its initial block and the next key stream position. */
    var ctrBlock: Block
    var ctrPosition: nat

    /** Where the CBC chain started and the whole blocks it has absorbed since. */
    ghost var chain0: Block
    ghost var whole: seq<byte>

    ghost predicate Valid()
      reads this, buffer
      ensures Valid() ==> buffer.Length == 32 && bufferedDataLength < 16
    {
      && buffer.Length == 32 && bufferedDataLength < 16
      && |whole| % 16 == 0 && buffer[16..32] == Chain(cipher, chain0, whole)
      && (state != Start ==> 4 <= digestSize <= 16 && digestSize % 2 == 0 && 2 <= L <= 8)
      && (!state.Start? && !state.KeySet? ==> totalMessageLength <= MaxMessageLength())
    }

    /** Everything given to CBC-MAC since the chain started. */
    ghost function Fed(): seq<byte>
      requires Valid()
      reads this, buffer
    {
      whole + buffer[..bufferedDataLength]
    }

    function MaxMessageLength(): nat
      reads this
    {
      if L < 8 then Pow256(L) - 1 else LWORD - 1
    }

    constructor (forward: bool)
      ensures Valid() && state == Start && this.forward == forward && fresh(buffer)
    {
      this.forward := forward;
      cipher := x => x;
      state, digestSize, L := Start, 0, 0;
      aadLength, messageLength := 0, 0;
      totalHeaderLength, totalMessageLength, totalFooterLength := 0, 0, 0;
      bufferedDataLength := 0;
      buffer := new byte[32](i => 0);
      ctrBlock, ctrPosition := Zeros(16), 0;
      chain0, whole := Zeros(16), [];
      new;
      assert buffer[16..32] == Zeros(16);
    }

    /** `memcpy(m_buffer + at, data, |data|)` within the data block. */
    method PutData(at: nat, data: seq<byte>)
      requires at + |data| <= 16 <= buffer.Length == 32
      modifies buffer
      ensures buffer[..at + |data|] == old(buffer[..at]) + data
      ensures buffer[at + |data|..] == old(buffer[at + |data|..])
      ensures buffer[16..32] == old(buffer[16..32])
    {
      forall i | 0 <= i < |data| { buffer[at + i] := data[i]; }
    }

    /** Writes the CBC block. */
    method PutCbc(data: Block)
      requires buffer.Length == 32
      modifies buffer
      ensures buffer[..16] == old(buffer[..16]) && buffer[16..32] == data
    {
      forall i | 0 <= i < 16 { buffer[16 + i] := data[i]; }
    }

    /** One block chained into the MAC. */
    method ChainBlock(next: Block)
      requires Valid()
      modifies buffer, this`whole
      ensures Valid() && whole == old(whole) + next && buffer[..16] == old(buffer[..16])
    {
      hide Chain, XorPrefix, Pow256;
      var cbc := cipher(XorPrefix(buffer[16..32], next));
      ChainStep(cipher, chain0, whole, next);
      PutCbc(cbc);
      whole := whole + next;
    }

    /** `AuthenticateBlocks`: the whole blocks of data are chained into the MAC. */
    method AuthenticateBlocks(data: seq<byte>) returns (leftOver: nat)
      requires Valid()
      modifies buffer, this`whole
      ensures Valid() && leftOver == |data| % 16
      ensures whole == old(whole) + data[..|data| - leftOver] && buffer[..16] == old(buffer[..16])
    {
      hide *;
      var done := 0;
      while |data| - done >= 16
        invariant done % 16 == 0 && 0 <= done <= |data|
        invariant Valid() && whole == old(whole) + data[..done] && buffer[..16] == old(buffer[..16])
      {
        var next := data[done..done + 16];
        ChainBlock(next);
        assert data[..done + 16] == data[..done] + next;
        done := done + 16;
      }
      leftOver := |data| - done;
    }

    /** `AuthenticateData`: any amount of data, with partial blocks buffered. */
    method AuthenticateData(input: seq<byte>)
      requires Valid()
      modifies buffer, this`whole, this`bufferedDataLength
      ensures Valid() && Fed() == old(Fed()) + input && bufferedDataLength == (old(bufferedDataLength) + |input|) % 16
      ensures buffer[..16] == AfterData(old(buffer[..16]), old(bufferedDataLength), input)
    {
      hide Chain, Pow256, AfterData, AfterRest;
      ghost var block := buffer[..16];
      if |input| == 0 {
        AfterNothing(block, bufferedDataLength);
        return;
      }
      var rest, num := input, bufferedDataLength;
      if num > 0 {
        if num + |rest| >= 16 {
          rest := CompleteBlock(rest);
        } else {
          AppendPart(input);
          return;
        }
      }
      assert Fed() == whole && whole + rest == old(Fed()) + input;
      if num > 0 { BlockLess(num + |input|); }
      AuthenticateRest(rest);
      AfterSteps(block, num, input);
    }

    /** The branch that only adds to the buffered data. */
    method AppendPart(input: seq<byte>)
      requires Valid() && bufferedDataLength + |input| < 16
      modifies buffer, this`bufferedDataLength
      ensures Valid() && Fed() == old(Fed()) + input && bufferedDataLength == old(bufferedDataLength) + |input|
      ensures buffer[..16] == AfterData(old(buffer[..16]), old(bufferedDataLength), input)
    {
      hide Chain, Pow256;
      var num := bufferedDataLength;
      ghost var kept := buffer[num + |input|..];
      assert kept[..16 - (num + |input|)] == buffer[..16][num + |input|..];
      assert buffer[..num] == buffer[..16][..num];
      PutData(num, input);
      bufferedDataLength := num + |input|;
      BufferParts(buffer, num + |input|);
      assert buffer[num + |input|..][..16 - (num + |input|)] == buffer[..16][num + |input|..];
    }

    /** The second half of `AuthenticateData`, with nothing buffered. */
    method AuthenticateRest(input: seq<byte>)
      requires Valid() && bufferedDataLength == 0
      modifies buffer, this`whole, this`bufferedDataLength
      ensures Valid() && Fed() == old(whole) + input && bufferedDataLength == |input| % 16
      ensures buffer[..16] == AfterRest(old(buffer[..16]), input)
    {
      hide Chain, Pow256;
      var rest := input;
      if |rest| >= 16 {
        var leftOver := AuthenticateBlocks(rest);
        rest := rest[|rest| - leftOver..];
        assert input == input[..|input| - leftOver] + rest;
      } else {
        BelowBlock(|input|);
        assert input[0..] == input;
      }
      assert whole + rest == old(whole) + input && |rest| == |input| % 16 && rest == input[|input| - |rest|..];
      if |rest| > 0 {
        ghost var kept := buffer[|rest|..];
        assert kept[..16 - |rest|] == buffer[..16][|rest|..];
        PutData(0, rest);
        assert buffer[|rest|..][..16 - |rest|] == buffer[..16][|rest|..];
      }
      bufferedDataLength := |rest|;
      assert buffer[..bufferedDataLength] == rest;
      BufferParts(buffer, |rest|);
    }

    /** The left-over branch: fills the buffered block and chains it. */
    method CompleteBlock(input: seq<byte>) returns (rest: seq<byte>)
      requires Valid() && 0 < bufferedDataLength && bufferedDataLength + |input| >= 16
      modifies buffer, this`whole, this`bufferedDataLength
      ensures Valid() && bufferedDataLength == 0 && Fed() + rest == old(Fed()) + input
      ensures rest == input[16 - old(bufferedDataLength)..]
      ensures buffer[..16] == old(buffer[..16])[..old(bufferedDataLength)] + input[..16 - old(bufferedDataLength)]
    {
      hide Chain, Pow256;
      var num := bufferedDataLength;
      PutData(num, input[..16 - num]);
      ghost var block := buffer[..16];
      assert block == old(buffer[..num]) + input[..16 - num];
      var leftOver := AuthenticateBlocks(buffer[..16]);
      rest := input[16 - num..];
      bufferedDataLength := 0;
      assert whole == old(whole) + block;
      assert input == input[..16 - num] + rest;
    }

    /** The common body of `AuthenticateLastHeaderBlock` and
        `AuthenticateLastConfidentialBlock`: a partial block is chained as it stands,
        which is the same as chaining it padded with zeros. */
    method AuthenticateLastBlock()
      requires Valid()
      modifies buffer, this`whole, this`bufferedDataLength
      ensures Valid() && bufferedDataLength == 0 && Fed() == Pad(old(Fed()))
      ensures buffer[..16] == old(buffer[..16])
    {
      hide Chain, Pow256, Pad, Zeros;
      var num := bufferedDataLength;
      PadOpen(whole, buffer[..num]);
      if num > 0 {
        ChainPart(buffer[..num]);
        bufferedDataLength := 0;
      }
    }

    /** A part of a block chained into the MAC as if completed by zeros. */
    method ChainPart(part: seq<byte>)
      requires Valid() && |part| <= 16
      modifies buffer, this`whole
      ensures Valid() && whole == old(whole) + (part + Zeros(16 - |part|)) && buffer[..16] == old(buffer[..16])
    {
      hide Chain, Pow256, XorPrefix, Zeros;
      XorPrefixPadded(buffer[16..32], part);
      ChainStep(cipher, chain0, whole, part + Zeros(16 - |part|));
      var cbc := cipher(XorPrefix(buffer[16..32], part));
      PutCbc(cbc);
      whole := whole + (part + Zeros(16 - |part|));
    }

    /** `SetKey`: chooses the block cipher and the digest size; an initialization
        vector among the parameters starts a message. */
    method SetKey(key: Cipher, size: nat, iv: Option<seq<byte>>) returns (o: Outcome)
      requires Valid()
      modifies this, buffer
      ensures Valid() && cipher == key && digestSize == size
      ensures !(size % 2 == 0 && 4 <= size <= 16) ==> o == InvalidArgument && state == Start
      ensures size % 2 == 0 && 4 <= size <= 16 && iv.None? ==> o == Done && state == KeySet
      ensures size % 2 == 0 && 4 <= size <= 16 && iv.Some? ==>
                if 7 <= |iv.value| <= 13 then o == Done && Started(iv.value)
                else o == InvalidArgument && state == KeySet
    {
      bufferedDataLength := 0;
      state := Start;
      cipher := key;
      chain0, whole := buffer[16..32], [];
      digestSize := size;
      if size % 2 > 0 || size < 4 || size > 16 {
        return InvalidArgument;
      }
      L := 8;
      state := KeySet;
      o := Done;
      if iv.Some? {
        o := Resynchronize(iv.value);
      }
    }

    /** A message with this nonce has been started and nothing given to it. */
    ghost predicate Started(iv: seq<byte>)
      requires Valid()
      reads this, buffer
    {
      && 7 <= |iv| <= 13 && state == IVSet && L == 15 - |iv|
      && totalHeaderLength == totalMessageLength == totalFooterLength == 0
      && aadLength == messageLength == bufferedDataLength == 0
      && ctrBlock == CounterBlock(iv, 0) && ctrPosition == 16
      && buffer[..16] == ctrBlock && buffer[1..16 - L] == iv
    }

    /** `Resynchronize` and `Resync`: starts a message. */
    method Resynchronize(iv: seq<byte>) returns (o: Outcome)
      requires Valid()
      modifies this`state, this`L, this`aadLength, this`messageLength
      modifies this`totalHeaderLength, this`totalMessageLength, this`totalFooterLength
      modifies this`bufferedDataLength, this`ctrBlock, this`ctrPosition, this`chain0, this`whole, buffer
      ensures Valid()
      ensures old(state) == Start ==> o == BadState && state == Start && Fed() == old(Fed())
      ensures old(state) != Start && !(7 <= |iv| <= 13) ==> o == InvalidArgument && state == KeySet
      ensures old(state) != Start && 7 <= |iv| <= 13 ==> o == Done && Started(iv)
    {
      hide Chain, Pow256;
      if state == Start {
        return BadState;
      }
      bufferedDataLength := 0;
      totalHeaderLength, totalMessageLength, totalFooterLength := 0, 0, 0;
      state := KeySet;
      if |iv| < 7 || |iv| > 13 {
        return InvalidArgument;
      }
      Resync(iv);
      state := IVSet;
      o := Done;
    }

    /** `Resync`: sets the counter block and the nonce for the first MAC block. */
    method Resync(iv: seq<byte>)
      requires Valid() && 7 <= |iv| <= 13
      modifies this`L, this`aadLength, this`messageLength, this`ctrBlock, this`ctrPosition, buffer
      ensures buffer[16..32] == old(buffer[16..32]) && buffer[1..1 + |iv|] == iv
      ensures L == 15 - |iv| && aadLength == messageLength == 0
      ensures ctrBlock == CounterBlock(iv, 0) == buffer[..16] && ctrPosition == 16
    {
      hide Chain, Pow256, Valid;
      L := 15 - |iv|;
      PutData(0, [L - 1] + iv + Zeros(15 - |iv|));
      ZeroCounter(L);
      assert buffer[..16] == CounterBlock(iv, 0);
      assert buffer[..16][1..1 + |iv|] == iv;
      ctrBlock, ctrPosition := buffer[..16], 16;
      aadLength, messageLength := 0, 0;
    }

    /** `SpecifyDataLengths` and `UncheckedSpecifyDataLengths`: the first block is
        formed from the flags, the nonce kept in the buffer and the message length,
        and the chain restarts from it; the header length goes into the buffer. */
    method SpecifyDataLengths(headerLength: nat, length: nat, footerLength: nat) returns (o: Outcome)
      requires Valid() && headerLength < LWORD
      modifies this`aadLength, this`messageLength, this`bufferedDataLength, this`chain0, this`whole, buffer
      ensures Valid()
      ensures length > MaxMessageLength() || footerLength > 0 ==> o == InvalidArgument
      ensures length <= MaxMessageLength() && footerLength == 0 && state != IVSet ==> o == BadState
      ensures o != Done ==> Fed() == old(Fed()) && aadLength == old(aadLength) && messageLength == old(messageLength)
      ensures length <= MaxMessageLength() && footerLength == 0 && state == IVSet ==>
                && o == Done && aadLength == headerLength && messageLength == length
                && chain0 == cipher([Flags(digestSize, L, headerLength > 0)] + old(buffer[1..16 - L])
                                    + BigEndian(length, L))
                && Fed() == if headerLength > 0 then HeaderPrefix(headerLength) else old(buffer[..bufferedDataLength])
    {
      hide Chain, Pow256, BigEndian, Flags;
      if length > MaxMessageLength() || footerLength > 0 {
        return InvalidArgument;
      }
      if state != IVSet {
        return BadState;
      }
      aadLength, messageLength := headerLength, length;
      StartChain(Flags(digestSize, L, headerLength > 0), buffer[1..16 - L]);
      if headerLength > 0 {
        PutHeaderLength(headerLength);
      }
      o := Done;
    }

    /** Forms the first block in the CBC half of the buffer and enciphers it. */
    method StartChain(flags: byte, nonce: seq<byte>)
      requires Valid() && 2 <= L <= 8 && |nonce| == 15 - L
      modifies this`chain0, this`whole, buffer
      ensures Valid() && whole == [] && buffer[..16] == old(buffer[..16])
      ensures chain0 == cipher([flags] + nonce + BigEndian(messageLength, L))
    {
      hide Chain, Pow256, BigEndian;
      var block := FormFirstBlock(flags, nonce, buffer[17..24], messageLength, L);
      var cbc := cipher(block);
      PutCbc(cbc);
      chain0, whole := cbc, [];
      ChainEmpty(cipher, cbc);
    }

    method PutHeaderLength(headerLength: nat)
      requires buffer.Length == 32 && 0 < headerLength < LWORD
      modifies buffer, this`bufferedDataLength
      ensures bufferedDataLength < 16 && buffer[..bufferedDataLength] == HeaderPrefix(headerLength)
      ensures buffer[16..32] == old(buffer[16..32])
    {
      hide BigEndian;
      if headerLength < 0x1_0000 - 0x100 {
        PutData(0, BigEndian(headerLength, 2));
        bufferedDataLength := 2;
      } else if headerLength < 0x1_0000_0000 {
        PutData(0, [0xff, 0xfe] + BigEndian(headerLength, 4));
        bufferedDataLength := 6;
      } else {
        PutData(0, [0xff, 0xff] + BigEndian(headerLength, 8));
        bufferedDataLength := 10;
      }
    }

    /** `Update`: header data before the message; afterwards it opens the footer,
        which CCM only rejects at the end. */
    method Update(input: seq<byte>) returns (o: Outcome)
      requires Valid()
      modifies this`state, this`totalHeaderLength, this`totalFooterLength, this`bufferedDataLength, this`whole, buffer
      ensures Valid()
      ensures input == [] ==> o == Done
      ensures input != [] && (old(state) == Start || old(state) == KeySet) ==> o == BadState
      ensures input != [] && old(state) == IVSet ==>
                && o == Done && Fed() == old(Fed()) + input
                && totalHeaderLength == (old(totalHeaderLength) + |input|) % LWORD
      ensures old(state) == IVSet ==>
                && bufferedDataLength == (old(bufferedDataLength) + |input|) % 16
                && buffer[..16] == AfterData(old(buffer[..16]), old(bufferedDataLength), input)
      ensures input != [] && (old(state) == AuthUntransformed || old(state) == AuthTransformed) ==>
                if messageLength != totalMessageLength then o == InvalidArgument
                else o == Done && state == AuthFooter && Fed() == Pad(old(Fed())) + input
      ensures input != [] && old(state) == AuthFooter ==> o == Done && Fed() == old(Fed()) + input
      ensures o == Done && input != [] && old(state) != IVSet ==>
                totalFooterLength == (old(totalFooterLength) + |input|) % LWORD
      ensures (input == [] || old(state) == IVSet || o != Done) ==>
                state == old(state) && totalFooterLength == old(totalFooterLength)
      ensures (input == [] || o != Done) ==> Fed() == old(Fed())
      ensures (input == [] || old(state) != IVSet) ==> totalHeaderLength == old(totalHeaderLength)
    {
      hide *;
      if |input| == 0 {
        AfterNothing(buffer[..16], bufferedDataLength);
        return Done;
      }
      if state == Start || state == KeySet {
        return BadState;
      }
      if state == IVSet {
        UpdateHeader(input);
        return Done;
      }
      o := UpdateFooter(input);
    }

    method UpdateHeader(input: seq<byte>)
      requires Valid() && state == IVSet
      modifies this`totalHeaderLength, this`bufferedDataLength, this`whole, buffer
      ensures Valid() && Fed() == old(Fed()) + input && totalHeaderLength == (old(totalHeaderLength) + |input|) % LWORD
      ensures bufferedDataLength == (old(bufferedDataLength) + |input|) % 16
      ensures buffer[..16] == AfterData(old(buffer[..16]), old(bufferedDataLength), input)
    {
      hide Chain, Pow256, AfterData;
      AuthenticateData(input);
      totalHeaderLength := (totalHeaderLength + |input|) % LWORD;
    }

    method UpdateFooter(input: seq<byte>) returns (o: Outcome)
      requires Valid() && state in {AuthUntransformed, AuthTransformed, AuthFooter}
      modifies this`state, this`totalFooterLength, this`bufferedDataLength, this`whole, buffer
      ensures Valid()
      ensures o == if old(state) != AuthFooter && messageLength != totalMessageLength then InvalidArgument else Done
      ensures o == Done ==>
                && state == AuthFooter && totalFooterLength == (old(totalFooterLength) + |input|) % LWORD
                && Fed() == (if old(state) == AuthFooter then old(Fed()) else Pad(old(Fed()))) + input
      ensures o != Done ==> Fed() == old(Fed()) && state == old(state) && totalFooterLength == old(totalFooterLength)
    {
      hide Chain, Pow256, Pad, AfterData;
      if state == AuthUntransformed || state == AuthTransformed {
        if messageLength != totalMessageLength {
          return InvalidArgument;
        }
        AuthenticateLastBlock();
        state := AuthFooter;
      }
      AuthenticateData(input);
      totalFooterLength := (totalFooterLength + |input|) % LWORD;
      o := Done;
    }

    /** `ProcessData`: closes the header on the first call, then authenticates the
        plaintext side and applies the key stream. */
    method ProcessData(input: seq<byte>) returns (o: Outcome, out: seq<byte>)
      requires Valid()
      modifies this`state, this`totalMessageLength, this`bufferedDataLength, this`whole, this`ctrPosition, buffer
      ensures Valid()
      ensures old(state) in {Start, KeySet, AuthFooter} ==> o != Done
      ensures old(state) == IVSet && aadLength != totalHeaderLength ==> o == InvalidArgument
      ensures old(state) != Start && old(state) != KeySet && |input| > MaxMessageLength() - old(totalMessageLength) ==>
                o == InvalidArgument
      ensures old(state) == IVSet && aadLength == totalHeaderLength
              && |input| <= MaxMessageLength() - old(totalMessageLength) ==>
                o == Done && state == (if forward then AuthUntransformed else AuthTransformed)
      ensures old(state) in {AuthUntransformed, AuthTransformed}
              && |input| <= MaxMessageLength() - old(totalMessageLength) ==>
                o == Done && state == old(state)
      ensures o == Done ==>
                && out == XorKeyStream(cipher, ctrBlock, old(ctrPosition), input)
                && ctrPosition == old(ctrPosition) + |input|
                && totalMessageLength == old(totalMessageLength) + |input|
                && Fed() == (if old(state) == IVSet then Pad(old(Fed())) else old(Fed()))
                            + (if state == AuthUntransformed then input else out)
      ensures o != Done ==> out == [] && state == old(state) && ctrPosition == old(ctrPosition) && Fed() == old(Fed())
      ensures totalMessageLength
           == if old(state) == Start || old(state) == KeySet then (old(totalMessageLength) + |input|) % LWORD
              else if |input| > MaxMessageLength() - old(totalMessageLength) then old(totalMessageLength)
              else old(totalMessageLength) + |input|
    {
      hide Chain, Pow256, Pad, XorKeyStream, AfterData;
      out := [];
      if state != Start && state != KeySet && |input| > MaxMessageLength() - totalMessageLength {
        return InvalidArgument, [];
      }
      totalMessageLength := if state == Start || state == KeySet then (totalMessageLength + |input|) % LWORD
                            else totalMessageLength + |input|;
      if state == Start || state == KeySet || state == AuthFooter {
        return BadState, [];
      }
      if state == IVSet {
        if aadLength != totalHeaderLength {
          return InvalidArgument, [];
        }
        AuthenticateLastBlock();
        state := if forward then AuthUntransformed else AuthTransformed;
      }
      out := XorKeyStream(cipher, ctrBlock, ctrPosition, input);
      ctrPosition := ctrPosition + |input|;
      AuthenticateData(if state == AuthUntransformed then input else out);
      o := Done;
    }

    /** `TruncatedFinal`: closes what is open, checks the declared lengths and gives
        out the tag, encrypted with the first key stream block. */
    method TruncatedFinal(macSize: nat) returns (o: Outcome, mac: seq<byte>)
      requires Valid()
      modifies this`state, this`bufferedDataLength, this`whole, this`ctrPosition, buffer
      ensures Valid()
      ensures macSize > digestSize || totalFooterLength > 0 ==> o == InvalidArgument
      ensures macSize <= digestSize && totalFooterLength == 0 && (old(state) == Start || old(state) == KeySet) ==>
                o == BadState
      ensures old(state) == IVSet && aadLength != totalHeaderLength ==> o == InvalidArgument
      ensures old(state) in {IVSet, AuthUntransformed, AuthTransformed} && messageLength != totalMessageLength ==>
                o == InvalidArgument
      ensures (macSize <= digestSize && totalFooterLength == 0 && messageLength == totalMessageLength
              && (old(state) in {AuthUntransformed, AuthTransformed}
                  || (old(state) == IVSet && aadLength == totalHeaderLength))) ==>
                && o == Done && state == KeySet
                && mac == XorKeyStream(cipher, ctrBlock, 0, Chain(cipher, chain0, Pad(old(Fed())))[..macSize])
      ensures macSize <= digestSize && totalFooterLength == 0 && old(state) == AuthFooter ==>
                && o == Done && state == KeySet
                && mac == XorKeyStream(cipher, ctrBlock, 0, Chain(cipher, chain0, old(whole))[..macSize])
      ensures o != Done ==> mac == [] && state == old(state) && ctrPosition == old(ctrPosition)
      ensures o != Done ==>
                Fed() == if old(state) == IVSet && macSize <= digestSize && totalFooterLength == 0
                            && aadLength == totalHeaderLength
                         then Pad(old(Fed())) else old(Fed())
    {
      hide Pow256, XorKeyStream, Chain, Pad;
      mac := [];
      if macSize > digestSize || totalFooterLength > 0 {
        return InvalidArgument, [];
      }
      if state == Start || state == KeySet {
        return BadState, [];
      }
      if state == IVSet {
        if aadLength != totalHeaderLength {
          return InvalidArgument, [];
        }
        AuthenticateLastBlock();
      }
      if state != AuthFooter {
        if messageLength != totalMessageLength {
          return InvalidArgument, [];
        }
        PadTwice(old(Fed()));
        AuthenticateLastBlock();
        assert Fed() == whole;
      }
      CbcPrefix(buffer, macSize);
      mac := XorKeyStream(cipher, ctrBlock, 0, buffer[16..16 + macSize]);
      ctrPosition := macSize;
      bufferedDataLength := 0;
      state := KeySet;
      o := Done;
    }
  }

  /** The three writes that form B_0: flags, a 64-bit length at the end, and then the
      nonce over the high bytes of the length. */
  function FormFirstBlock(flags: byte, nonce: seq<byte>, stale: seq<byte>, length: nat, L: nat): (block: Block)
    requires 2 <= L <= 8 && |nonce| == 15 - L && |stale| == 7
    ensures block == [flags] + nonce + BigEndian(length, L)
  {
    hide BigEndian;
    BigEndianSuffix(length, 8, L);
    var b := [flags] + stale + BigEndian(length, 8);
    assert b[16 - L..] == BigEndian(length, 8)[8 - L..];
    b[..1] + nonce + b[16 - L..]
  }

  // ----- the data block of the buffer

  /** The first half of the buffer when `num` bytes of it are buffered and more data comes: a block that was
      begun is completed in place, whole blocks go past the buffer, and what is left goes to its front. */
  function AfterData(block: seq<byte>, num: nat, input: seq<byte>): (r: seq<byte>)
    requires |block| == 16 && num < 16
    ensures |r| == 16
  {
    if num == 0 then AfterRest(block, input)
    else if num + |input| < 16 then block[..num] + input + block[num + |input|..]
    else AfterRest(block[..num] + input[..16 - num], input[16 - num..])
  }

  function AfterRest(block: seq<byte>, rest: seq<byte>): (r: seq<byte>)
    requires |block| == 16
    ensures |r| == 16
  {
    rest[|rest| - |rest| % 16..] + block[|rest| % 16..]
  }

  lemma AfterNothing(block: seq<byte>, num: nat)
    requires |block| == 16 && num < 16
    ensures AfterData(block, num, []) == block && (num + 0) % 16 == num
  {
  }

  lemma AfterSteps(block: seq<byte>, num: nat, input: seq<byte>)
    requires |block| == 16 && num < 16
    ensures num == 0 ==> AfterData(block, num, input) == AfterRest(block, input)
    ensures num > 0 && num + |input| >= 16 ==>
              AfterData(block, num, input) == AfterRest(block[..num] + input[..16 - num], input[16 - num..])
  {
    hide AfterRest;
  }

  lemma BlockLess(n: nat)
    requires n >= 16
    ensures (n - 16) % 16 == n % 16 <= n - 16
  {
  }

  lemma BelowBlock(n: nat)
    requires n < 16
    ensures n % 16 == n
  {
  }

  lemma BufferParts(buffer: array<byte>, k: nat)
    requires buffer.Length == 32 && k <= 16
    ensures buffer[..16] == buffer[..k] + buffer[..16][k..]
  {
  }

  lemma CbcPrefix(buffer: array<byte>, k: nat)
    requires buffer.Length == 32 && k <= 16
    ensures buffer[16..16 + k] == buffer[16..32][..k]
  {
    var l, r := buffer[16..16 + k], buffer[16..32][..k];
    forall j | 0 <= j < k ensures l[j] == r[j] { assert l[j] == buffer[16 + j] == buffer[16..32][j]; }
  }

  /** Padding closes the open block. */
  lemma PadOpen(whole: seq<byte>, part: seq<byte>)
    requires |whole| % 16 == 0 && |part| < 16
    ensures Pad(whole + part) == if part == [] then whole else whole + (part + Zeros(16 - |part|))
  {
    assert |whole + part| % 16 == |part|;
    assert part == [] ==> whole + part + Zeros(0) == whole;
  }

  lemma PadTwice(s: seq<byte>)
    ensures Pad(Pad(s)) == Pad(s)
  {
  }

  lemma ZeroCounter(L: nat)
    ensures BigEndian(0, L) == Zeros(L)
  {
    if L > 0 { ZeroCounter(L - 1); }
  }

  lemma ChainEmpty(E: Cipher, x: Block)
    ensures Chain(E, x, []) == x
  {
  }

  // ----- whole messages, in any pieces

  /** The configuration of a message in progress, fixed by its nonce and lengths. */
  ghost predicate Configured(c: CcmCipher, E: Cipher, d: nat, nonce: seq<byte>, h: nat, m: nat)
    reads c
  {
    && 4 <= d <= 16 && d % 2 == 0 && 7 <= |nonce| <= 13
    && c.cipher == E && c.digestSize == d && c.L == 15 - |nonce|
    && c.aadLength == h && c.messageLength == m && c.totalFooterLength == 0
    && c.ctrBlock == CounterBlock(nonce, 0)
    && c.chain0 == E(FirstBlock(d, nonce, h > 0, m))
  }

  /** Starts a message: nonce and declared lengths. */
  method Begin(c: CcmCipher, nonce: seq<byte>, h: nat, m: nat)
    requires c.Valid() && c.state != Start
    requires 7 <= |nonce| <= 13 && h < LWORD && m < Pow256(15 - |nonce|)
    modifies c, c.buffer
    ensures c.Valid() && c.state == IVSet && c.Fed() == HeaderPrefix(h)
    ensures Configured(c, old(c.cipher), old(c.digestSize), nonce, h, m)
    ensures c.totalHeaderLength == c.totalMessageLength == 0 && c.ctrPosition == 16
  {
    hide Chain, Pow256, Flags, BigEndian;
    var o := c.Resynchronize(nonce);
    LengthFits(c, nonce, m);
    o := c.SpecifyDataLengths(h, m, 0);
  }

  /** The header, one `Update` per piece. */
  method FeedHeader(c: CcmCipher, ghost E: Cipher, ghost d: nat, ghost nonce: seq<byte>, pieces: seq<seq<byte>>,
                    ghost m: nat)
    requires c.Valid() && c.state == IVSet && |Flatten(pieces)| < LWORD
    requires Configured(c, E, d, nonce, |Flatten(pieces)|, m) && c.Fed() == HeaderPrefix(|Flatten(pieces)|)
    requires c.totalHeaderLength == c.totalMessageLength == 0 && c.ctrPosition == 16
    modifies c, c.buffer
    ensures c.Valid() && c.state == IVSet && Configured(c, E, d, nonce, |Flatten(pieces)|, m)
    ensures c.Fed() == HeaderPrefix(|Flatten(pieces)|) + Flatten(pieces)
    ensures c.totalHeaderLength == |Flatten(pieces)| && c.totalMessageLength == 0 && c.ctrPosition == 16
  {
    hide Chain, Pow256, Flatten, HeaderPrefix, CcmCipher.Valid, CcmCipher.Fed, FirstBlock, CounterBlock, BigEndian, Pad;
    hide AfterData;
    ghost var h := |Flatten(pieces)|;
    FlattenStart(pieces);
    for i := 0 to |pieces|
      invariant c.Valid() && c.state == IVSet && Configured(c, E, d, nonce, h, m)
      invariant c.Fed() == HeaderPrefix(h) + Flatten(pieces[..i])
      invariant c.totalHeaderLength == |Flatten(pieces[..i])| && c.totalMessageLength == 0 && c.ctrPosition == 16
    {
      FlattenNext(pieces, i);
      FlattenLength(pieces, i + 1);
      var o := c.Update(pieces[i]);
    }
    assert pieces[..|pieces|] == pieces;
  }

  /** The message, one `ProcessData` per piece. */
  method FeedMessage(c: CcmCipher, ghost E: Cipher, ghost d: nat, ghost nonce: seq<byte>, ghost h: nat,
                     pieces: seq<seq<byte>>)
      returns (out: seq<byte>)
    requires c.Valid() && c.state == IVSet && |Flatten(pieces)| <= c.MaxMessageLength()
    requires Configured(c, E, d, nonce, h, |Flatten(pieces)|)
    requires c.totalHeaderLength == h && c.totalMessageLength == 0 && c.ctrPosition == 16
    modifies c, c.buffer
    ensures c.Valid() && c.state in {IVSet, AuthUntransformed, AuthTransformed}
    ensures Configured(c, E, d, nonce, h, |Flatten(pieces)|)
    ensures c.totalHeaderLength == h && c.totalMessageLength == |Flatten(pieces)|
    ensures out == Crypt(E, nonce, Flatten(pieces))
    ensures Pad(c.Fed()) == Pad(old(c.Fed())) + Pad(if c.forward then Flatten(pieces) else out)
  {
    hide Chain, Pow256, Flatten, XorKeyStream, CcmCipher.Valid, Pad, CounterBlock, BigEndian, Value, XorPrefix;
    hide AddCounter, Crypt, FirstBlock, CcmCipher.Fed;
    out := [];
    ghost var m := |Flatten(pieces)|;
    ghost var head := Pad(old(c.Fed()));
    FlattenStart(pieces);
    XorNothing(E, c.ctrBlock, 16);
    PadTwice(old(c.Fed()));
    PadEmpty();
    for i := 0 to |pieces|
      invariant c.Valid() && Configured(c, E, d, nonce, h, m)
      invariant c.totalHeaderLength == h && c.totalMessageLength == |Flatten(pieces[..i])|
      invariant c.ctrPosition == 16 + |Flatten(pieces[..i])|
      invariant out == XorKeyStream(E, c.ctrBlock, 16, Flatten(pieces[..i]))
      invariant i == 0 ==> c.state == IVSet && c.Fed() == old(c.Fed())
      invariant i > 0 ==> c.state == if c.forward then AuthUntransformed else AuthTransformed
      invariant i > 0 ==> c.Fed() == head + (if c.forward then Flatten(pieces[..i]) else out)
    {
      FlattenNext(pieces, i);
      FlattenLength(pieces, i + 1);
      XorKeyStreamAppend(E, c.ctrBlock, 16, Flatten(pieces[..i]), pieces[i]);
      var o, piece := c.ProcessData(pieces[i]);
      out := out + piece;
    }
    assert pieces[..|pieces|] == pieces;
    WithinCounter(c);
    CounterIsStream(E, nonce, Flatten(pieces));
    PadAfterWhole(head, if c.forward then Flatten(pieces) else out);
  }

  lemma WithinCounter(c: CcmCipher)
    requires 2 <= c.L <= 8
    ensures c.MaxMessageLength() < Pow256(c.L)
  {
    if c.L == 8 {
      assert Pow256(4) == WORD32;
      assert Pow256(8) == LWORD;
    }
  }

  lemma XorNothing(E: Cipher, iv: Block, pos: nat)
    ensures XorKeyStream(E, iv, pos, []) == []
  {
  }

  lemma PadEmpty()
    ensures Pad([]) == []
  {
  }

  lemma PadAfterWhole(a: seq<byte>, b: seq<byte>)
    requires |a| % 16 == 0
    ensures Pad(a + b) == a + Pad(b) && Pad(a) == a
  {
    WholeBlocks(a, b);
  }

  /** A whole message through the state machine, header and message in any pieces,
      in either direction: the output and the tag are those of the mode. */
  method Process(c: CcmCipher, nonce: seq<byte>, header: seq<seq<byte>>, message: seq<seq<byte>>, macSize: nat)
      returns (o: Outcome, out: seq<byte>, mac: seq<byte>)
    requires c.Valid() && c.state != Start && macSize <= c.digestSize
    requires Admissible(c.digestSize, nonce, Flatten(header), Flatten(message))
    modifies c, c.buffer
    ensures c.Valid() && c.state == KeySet && c.cipher == old(c.cipher) && c.digestSize == old(c.digestSize)
    ensures o == Done && out == Crypt(c.cipher, nonce, Flatten(message))
    ensures mac
         == Tag(c.cipher, c.digestSize, nonce, Flatten(header), if c.forward then Flatten(message) else out)[..macSize]
  {
    hide Chain, Flatten, XorKeyStream, CcmCipher.Valid, Pad, Pow256, HeaderPrefix, StreamBlock, XorPrefix, Crypt;
    ghost var E, d, h, m := c.cipher, c.digestSize, Flatten(header), Flatten(message);
    Begin(c, nonce, FlattenedLength(header), FlattenedLength(message));
    FeedHeader(c, E, d, nonce, header, |m|);
    LengthFits(c, nonce, |m|);
    out := FeedMessage(c, E, d, nonce, |h|, message);
    o, mac := c.TruncatedFinal(macSize);
    ghost var plain := if c.forward then m else out;
    ghost var full := Chain(E, c.chain0, Tail(h, plain));
    TagPrefix(E, nonce, full, d, macSize);
  }

  lemma LengthFits(c: CcmCipher, nonce: seq<byte>, m: nat)
    requires 7 <= |nonce| <= 13 && c.L == 15 - |nonce| && m < Pow256(15 - |nonce|)
    ensures m <= c.MaxMessageLength()
  {
    if c.L == 8 {
      assert Pow256(4) == WORD32;
      assert Pow256(8) == LWORD;
    }
  }

  lemma TagPrefix(E: Cipher, nonce: seq<byte>, mac: Block, d: nat, n: nat)
    requires n <= d <= 16 && 7 <= |nonce| <= 13
    ensures XorKeyStream(E, CounterBlock(nonce, 0), 0, mac[..n])
         == XorPrefix(mac[..d], StreamBlock(E, nonce, 0)[..d])[..n]
  {
    hide StreamBlock, XorKeyStream, Xor, CounterBlock;
    CounterIsFirst(E, nonce, mac[..n]);
  }

  // ----- header data before its length

  /** The first half of the buffer after pieces of header data, from an empty one. */
  function BufferAfter(block: seq<byte>, pieces: seq<seq<byte>>): (r: seq<byte>)
    requires |block| == 16
    ensures |r| == 16
  {
    if pieces == [] then block
    else
      var front := pieces[..|pieces| - 1];
      AfterData(BufferAfter(block, front), FlattenedLength(front) % 16, pieces[|pieces| - 1])
  }

  /** The bytes in place of the nonce. */
  function NonceAfter(nonce: seq<byte>, pieces: seq<seq<byte>>): (n: seq<byte>)
    requires 7 <= |nonce| <= 13
    ensures |n| == |nonce|
  {
    BufferAfter(CounterBlock(nonce, 0), pieces)[1..1 + |nonce|]
  }

  /** Header data given before `SpecifyDataLengths`, in any number of calls, counts as header data, but it is not
      in the MAC, and the first block takes its nonce from the buffer that was written over. */
  method HeaderBeforeLengths(c: CcmCipher, nonce: seq<byte>, pieces: seq<seq<byte>>, h: nat, m: nat)
    requires c.Valid() && c.state != Start && 7 <= |nonce| <= 13 && |Flatten(pieces)| < LWORD
    requires h < LWORD && m < Pow256(15 - |nonce|)
    modifies c, c.buffer
    ensures c.Valid() && c.state == IVSet && c.totalHeaderLength == |Flatten(pieces)| && c.aadLength == h
    ensures 4 <= c.digestSize <= 16 && c.digestSize % 2 == 0
    ensures c.chain0 == c.cipher(FirstBlock(c.digestSize, NonceAfter(nonce, pieces), h > 0, m))
    ensures var data := Flatten(pieces);
            c.Fed() == if h > 0 then HeaderPrefix(h) else data[|data| - |data| % 16..]
  {
    hide Chain, Pow256, Flags, BigEndian, HeaderPrefix, NonceAfter, CcmCipher.Fed, Flatten;
    var o := c.Resynchronize(nonce);
    EarlyUpdates(c, nonce, pieces);
    LengthFits(c, nonce, m);
    o := c.SpecifyDataLengths(h, m, 0);
  }

  /** One `Update` per piece, before the lengths. */
  method EarlyUpdates(c: CcmCipher, nonce: seq<byte>, pieces: seq<seq<byte>>)
    requires c.Valid() && c.Started(nonce) && |Flatten(pieces)| < LWORD
    modifies c`state, c`totalHeaderLength, c`totalFooterLength, c`bufferedDataLength, c`whole, c.buffer
    ensures c.Valid() && c.state == IVSet && c.totalHeaderLength == |Flatten(pieces)|
    ensures c.buffer[1..16 - c.L] == NonceAfter(nonce, pieces)
    ensures var data := Flatten(pieces); c.buffer[..c.bufferedDataLength] == data[|data| - |data| % 16..]
  {
    hide *;
    StartedWith(c, nonce);
    ghost var block := CounterBlock(nonce, 0);
    ghost var fed := c.Fed();
    FlattenStart(pieces);
    BufferStart(block, pieces);
    assert fed + [] == fed;
    for i := 0 to |pieces|
      invariant c.Valid() && c.state == IVSet && c.Fed() == fed + Flatten(pieces[..i])
      invariant c.totalHeaderLength == |Flatten(pieces[..i])| && c.bufferedDataLength == |Flatten(pieces[..i])| % 16
      invariant c.buffer[..16] == BufferAfter(block, pieces[..i])
    {
      FlattenNext(pieces, i);
      FlattenLength(pieces, i + 1);
      Unwrapped(|Flatten(pieces[..i + 1])|);
      BufferNext(block, pieces, i);
      SumRemainder(|Flatten(pieces[..i])|, |pieces[i]|);
      assert fed + (Flatten(pieces[..i]) + pieces[i]) == fed + Flatten(pieces[..i]) + pieces[i];
      var o := c.Update(pieces[i]);
    }
    assert pieces[..|pieces|] == pieces;
    WholeFed(c);
    KeptTail(fed, Flatten(pieces), c.whole, c.buffer[..c.bufferedDataLength]);
    NonceParts(nonce, pieces);
    BufferNonce(c.buffer, |nonce|);
  }

  lemma Unwrapped(n: nat)
    requires n < LWORD
    ensures n % LWORD == n
  {
  }

  lemma SumRemainder(a: nat, b: nat)
    ensures (a % 16 + b) % 16 == (a + b) % 16
  {
    var q := a / 16;
    EuclidUnique(a % 16 + b, 16, (a + b) / 16 - q, (a + b) % 16);
  }

  lemma BufferStart(block: seq<byte>, pieces: seq<seq<byte>>)
    requires |block| == 16
    ensures BufferAfter(block, pieces[..0]) == block
  {
  }

  lemma BufferNext(block: seq<byte>, pieces: seq<seq<byte>>, i: nat)
    requires |block| == 16 && i < |pieces|
    ensures BufferAfter(block, pieces[..i + 1])
         == AfterData(BufferAfter(block, pieces[..i]), |Flatten(pieces[..i])| % 16, pieces[i])
  {
    hide AfterData;
    assert pieces[..i + 1][..i] == pieces[..i];
  }

  lemma NonceParts(nonce: seq<byte>, pieces: seq<seq<byte>>)
    requires 7 <= |nonce| <= 13
    ensures NonceAfter(nonce, pieces) == BufferAfter(CounterBlock(nonce, 0), pieces)[1..1 + |nonce|]
  {
  }

  lemma StartedWith(c: CcmCipher, nonce: seq<byte>)
    requires c.Valid() && c.Started(nonce)
    ensures 7 <= |nonce| <= 13 && c.state == IVSet && c.L == 15 - |nonce|
    ensures c.totalHeaderLength == 0 && c.bufferedDataLength == 0 && c.buffer[..16] == CounterBlock(nonce, 0)
    ensures |c.Fed()| % 16 == 0 && c.buffer.Length == 32
  {
  }

  lemma WholeFed(c: CcmCipher)
    requires c.Valid()
    ensures |c.whole| % 16 == 0 && c.Fed() == c.whole + c.buffer[..c.bufferedDataLength]
  {
  }

  lemma BufferNonce(buffer: array<byte>, n: nat)
    requires buffer.Length == 32 && n <= 15
    ensures buffer[..16][1..1 + n] == buffer[1..1 + n]
  {
    var l, r := buffer[..16][1..1 + n], buffer[1..1 + n];
    forall j | 0 <= j < n ensures l[j] == r[j] { assert l[j] == buffer[..16][1 + j] == buffer[1 + j]; }
  }

  /** What is buffered after whole blocks. */
  lemma KeptTail(before: seq<byte>, early: seq<byte>, whole: seq<byte>, part: seq<byte>)
    requires |before| % 16 == 0 && |whole| % 16 == 0 && |part| == |early| % 16 && whole + part == before + early
    ensures part == early[|early| - |early| % 16..]
  {
    var all, k := before + early, |before| + |early| - |part|;
    assert |whole| == k;
    assert part == (whole + part)[k..];
    assert all[k..] == early[|early| - |part|..];
  }

  // ----- which bytes of the header data are left in the buffer

  /** Byte t of the data, given in the call for bytes from s to e, goes through the buffer: its block of 16 does
      not lie within the call. */
  predicate Through(s: nat, e: nat, t: nat) { s <= t < e && !(s <= Floor(t) && Floor(t) + 16 <= e) }

  /** Where the block of byte t starts. */
  function Floor(t: nat): nat { t - t % 16 }

  lemma SameFloor(a: nat, b: nat)
    requires Floor(a) <= b < Floor(a) + 16
    ensures Floor(b) == Floor(a)
  {
    EuclidUnique(b, 16, a / 16, b - Floor(a));
  }

  lemma FloorPlus(a: nat, i: nat)
    requires i < 16
    ensures (Floor(a) + i) % 16 == i && Floor(Floor(a) + i) == Floor(a)
  {
    EuclidUnique(Floor(a) + i, 16, a / 16, i);
  }

  lemma FloorBounds(a: nat)
    ensures Floor(a) <= a < Floor(a) + 16 && a % 16 == a - Floor(a)
  {
  }

  predicate Buffered(pieces: seq<seq<byte>>, t: nat) {
    pieces != []
    && (Through(FlattenedLength(pieces[..|pieces| - 1]), FlattenedLength(pieces), t)
        || Buffered(pieces[..|pieces| - 1], t))
  }

  /** No later byte of the data took its place. */
  ghost predicate LastBuffered(pieces: seq<seq<byte>>, t: nat) {
    Buffered(pieces, t) && forall u: nat :: u > t && u % 16 == t % 16 ==> !Buffered(pieces, u)
  }

  lemma {:induction false} BufferedInside(pieces: seq<seq<byte>>, t: nat)
    requires Buffered(pieces, t)
    ensures t < |Flatten(pieces)|
    decreases |pieces|
  {
    var front := pieces[..|pieces| - 1];
    assert |Flatten(front)| <= |Flatten(pieces)|;
    if Buffered(front, t) { BufferedInside(front, t); }
  }

  /** The last byte of one call that is left at position i of the buffer, or -1. */
  function LastIn(s: nat, e: nat, i: nat): int {
    if s <= Floor(e) + i < e then Floor(e) + i
    else if Floor(s) < s <= Floor(s) + i < e then Floor(s) + i
    else -1
  }

  lemma LastThrough(s: nat, e: nat, i: nat)
    requires s <= e && i < 16 && LastIn(s, e, i) >= 0
    ensures LastIn(s, e, i) % 16 == i && Through(s, e, LastIn(s, e, i))
  {
    FloorPlus(e, i);
    FloorPlus(s, i);
    FloorBounds(e);
    hide Floor;
  }

  lemma NoneLater(s: nat, e: nat, i: nat, u: nat)
    requires s <= e && u % 16 == i && Through(s, e, u)
    ensures u <= LastIn(s, e, i)
  {
    FloorBounds(u);
    if e < Floor(u) + 16 { SameFloor(u, e); }
    if Floor(u) < s {
      SameFloor(u, s);
    }
    hide Floor;
  }

  lemma AfterDataAt(block: seq<byte>, s: nat, input: seq<byte>, i: nat)
    requires |block| == 16 && i < 16
    ensures var t := LastIn(s, s + |input|, i);
            t < s + |input| && (t >= 0 ==> s <= t)
            && AfterData(block, s % 16, input)[i] == if t >= 0 then input[t - s] else block[i]
  {
    var e, num := s + |input|, s % 16;
    SumRemainder(s, |input|);
    FloorBounds(s);
    FloorBounds(e);
    AfterDataParts(block, num, input, i);
    if num + |input| < 16 {
      SameFloor(s, e);
    } else {
      NextFloor(s, e);
    }
    hide Floor, AfterData;
  }

  lemma AfterDataParts(block: seq<byte>, num: nat, input: seq<byte>, i: nat)
    requires |block| == 16 && num < 16 && i < 16
    ensures num + |input| < 16 ==>
              AfterData(block, num, input)[i] == if num <= i < num + |input| then input[i - num] else block[i]
    ensures num + |input| >= 16 ==>
              var left := (num + |input|) % 16;
              left <= |input| && AfterData(block, num, input)[i]
              == if i < left then input[|input| - left + i] else if 0 < num <= i then input[i - num] else block[i]
  {
    if num + |input| >= 16 {
      AfterLong(block, num, input, i);
    } else if num > 0 {
      AfterShort(block, num, input, i);
    } else {
      hide AfterData;
      AfterSteps(block, num, input);
      BelowBlock(|input|);
      AfterRestAt(block, input, i);
    }
  }

  lemma AfterShort(block: seq<byte>, num: nat, input: seq<byte>, i: nat)
    requires |block| == 16 && 0 < num && num + |input| < 16 && i < 16
    ensures AfterData(block, num, input)[i] == if num <= i < num + |input| then input[i - num] else block[i]
  {
    hide AfterRest;
  }

  lemma AfterLong(block: seq<byte>, num: nat, input: seq<byte>, i: nat)
    requires |block| == 16 && num < 16 && num + |input| >= 16 && i < 16
    ensures var left := (num + |input|) % 16;
            left <= |input| && AfterData(block, num, input)[i]
            == if i < left then input[|input| - left + i] else if 0 < num <= i then input[i - num] else block[i]
  {
    hide AfterData, AfterRest;
    AfterSteps(block, num, input);
    BlockLess(num + |input|);
    if num > 0 {
      var filled, rest := block[..num] + input[..16 - num], input[16 - num..];
      AfterRestAt(filled, rest, i);
      assert |rest| % 16 == (num + |input|) % 16;
    } else {
      AfterRestAt(block, input, i);
    }
  }

  lemma AfterRestAt(block: seq<byte>, rest: seq<byte>, i: nat)
    requires |block| == 16 && i < 16
    ensures var left := |rest| % 16;
            left <= |rest| && AfterRest(block, rest)[i] == if i < left then rest[|rest| - left + i] else block[i]
  {
  }

  lemma NextFloor(a: nat, b: nat)
    requires Floor(a) + 16 <= b
    ensures Floor(a) + 16 <= Floor(b)
  {
    FloorBounds(b);
    FloorSixteen(a);
    if Floor(b) < Floor(a) + 16 { SameFloor(b, Floor(a) + 16); }
  }

  lemma FloorSixteen(a: nat)
    ensures Floor(Floor(a) + 16) == Floor(a) + 16
  {
    EuclidUnique(Floor(a) + 16, 16, a / 16 + 1, 0);
  }

  /** Where the byte at position i of the buffer comes from. */
  lemma {:induction false} BufferByte(block: seq<byte>, pieces: seq<seq<byte>>, i: nat) returns (t: int)
    requires |block| == 16 && i < 16
    ensures t == -1 || (0 <= t < |Flatten(pieces)| && t % 16 == i && Buffered(pieces, t))
    ensures forall u: nat :: u % 16 == i && Buffered(pieces, u) ==> u <= t
    ensures BufferAfter(block, pieces)[i] == if t >= 0 then Flatten(pieces)[t] else block[i]
    decreases |pieces|
  {
    hide AfterData, LastIn, Through, Floor;
    if pieces == [] {
      t := -1;
    } else {
      var front, p := pieces[..|pieces| - 1], pieces[|pieces| - 1];
      var s := |Flatten(front)|;
      t := BufferByte(block, front, i);
      AfterDataAt(BufferAfter(block, front), s, p, i);
      var l := LastIn(s, s + |p|, i);
      if l >= 0 {
        LastThrough(s, s + |p|, i);
        t := l;
      }
      forall u: nat | u % 16 == i && Buffered(pieces, u) ensures u <= t {
        if Buffered(front, u) { BufferedInside(front, u); } else { NoneLater(s, s + |p|, i, u); }
      }
      assert Flatten(pieces) == Flatten(front) + p;
    }
  }

  /** The first block is the intended one exactly when every byte left over the nonce agrees with it. */
  lemma EarlyHeaderExact(digestSize: nat, nonce: seq<byte>, pieces: seq<seq<byte>>, hasHeader: bool, m: nat)
    requires 4 <= digestSize <= 16 && digestSize % 2 == 0 && 7 <= |nonce| <= 13 && m < Pow256(15 - |nonce|)
    ensures FirstBlock(digestSize, NonceAfter(nonce, pieces), hasHeader, m)
         == FirstBlock(digestSize, nonce, hasHeader, m)
       <==> forall t: nat :: LastBuffered(pieces, t) && 1 <= t % 16 <= |nonce| ==>
              t < |Flatten(pieces)| && Flatten(pieces)[t] == nonce[t % 16 - 1]
  {
    hide FirstBlock, Pow256, LastBuffered, NonceAfter;
    var n := NonceAfter(nonce, pieces);
    if FirstBlock(digestSize, n, hasHeader, m) == FirstBlock(digestSize, nonce, hasHeader, m) {
      FirstBlockInjective(digestSize, n, hasHeader, m, digestSize, nonce, hasHeader, m);
      forall t: nat | LastBuffered(pieces, t) && 1 <= t % 16 <= |nonce|
        ensures t < |Flatten(pieces)| && Flatten(pieces)[t] == nonce[t % 16 - 1]
      {
        NonceByte(nonce, pieces, t % 16 - 1, t);
      }
    }
    if forall t: nat :: LastBuffered(pieces, t) && 1 <= t % 16 <= |nonce| ==>
         t < |Flatten(pieces)| && Flatten(pieces)[t] == nonce[t % 16 - 1] {
      forall i | 0 <= i < |nonce| ensures n[i] == nonce[i] {
        var t := NonceSource(nonce, pieces, i);
        assert t >= 0 ==> LastBuffered(pieces, t);
      }
      assert n == nonce;
    }
  }

  lemma NonceSource(nonce: seq<byte>, pieces: seq<seq<byte>>, i: nat) returns (t: int)
    requires 7 <= |nonce| <= 13 && i < |nonce|
    ensures t == -1 || (0 <= t < |Flatten(pieces)| && t % 16 == i + 1 && LastBuffered(pieces, t))
    ensures NonceAfter(nonce, pieces)[i] == if t >= 0 then Flatten(pieces)[t] else nonce[i]
    ensures forall u: nat :: u % 16 == i + 1 && Buffered(pieces, u) ==> u <= t
  {
    hide BufferAfter, Buffered, Flatten;
    t := BufferByte(CounterBlock(nonce, 0), pieces, i + 1);
  }

  lemma NonceByte(nonce: seq<byte>, pieces: seq<seq<byte>>, i: nat, t: nat)
    requires 7 <= |nonce| <= 13 && i < |nonce| && LastBuffered(pieces, t) && t % 16 == i + 1
    ensures t < |Flatten(pieces)| && NonceAfter(nonce, pieces)[i] == Flatten(pieces)[t]
  {
    hide NonceAfter, Buffered, Flatten;
    var u := NonceSource(nonce, pieces, i);
    assert Buffered(pieces, t);
  }

  /** Three bytes and then thirteen: no incomplete block is left, and the nonce is gone. */
  lemma EarlyHeaderFails(three: seq<byte>, thirteen: seq<byte>)
    requires |three| == 3 && |thirteen| == 13 && forall i :: 0 <= i < 13 ==> thirteen[i] == 1
    ensures var pieces := [three, thirteen];
            |Flatten(pieces)| % 16 == 0 && NonceAfter(Zeros(7), pieces)[2..] == [1, 1, 1, 1, 1]
  {
    hide CounterBlock, AfterData;
    var pieces, block := [three, thirteen], CounterBlock(Zeros(7), 0);
    var before := BufferAfter(block, [three]);
    assert pieces[..1] == [three] && [three][..0] == [];
    assert Flatten([three]) == Flatten([]) + three == three;
    assert Flatten(pieces) == three + thirteen;
    forall i | 3 <= i < 8 ensures BufferAfter(block, pieces)[i] == 1 { AfterDataParts(before, 3, thirteen, i); }
    var n := NonceAfter(Zeros(7), pieces);
    assert n[2] == 1 && n[3] == 1 && n[4] == 1 && n[5] == 1 && n[6] == 1;
  }

  /** Decryption of an encryption, with independent ways of cutting the header and
      the message on the two sides, returns the message and the same tag. */
  method EncryptThenDecrypt(enc: CcmCipher, dec: CcmCipher, nonce: seq<byte>, header: seq<byte>, message: seq<byte>,
                            headerCuts: seq<nat>, messageCuts: seq<nat>, headerCuts': seq<nat>, messageCuts': seq<nat>,
                            macSize: nat)
      returns (plain: seq<byte>, sent: seq<byte>, computed: seq<byte>)
    requires enc != dec && enc.buffer != dec.buffer && enc.forward && !dec.forward
    requires enc.Valid() && dec.Valid() && enc.state != Start && dec.state != Start
    requires enc.cipher == dec.cipher && enc.digestSize == dec.digestSize && macSize <= enc.digestSize
    requires Admissible(enc.digestSize, nonce, header, message)
    modifies enc, dec, enc.buffer, dec.buffer
    ensures plain == message && computed == sent
    ensures sent == Tag(old(enc.cipher), old(enc.digestSize), nonce, header, message)[..macSize]
  {
    hide Flatten, Cut, Tag, Crypt, CcmCipher.Valid;
    FlattenCut(header, headerCuts);
    FlattenCut(message, messageCuts);
    FlattenCut(header, headerCuts');
    var o, ciphertext;
    o, ciphertext, sent := Process(enc, nonce, Cut(header, headerCuts), Cut(message, messageCuts), macSize);
    FlattenCut(ciphertext, messageCuts');
    CryptTwice(enc.cipher, nonce, message);
    o, plain, computed := Process(dec, nonce, Cut(header, headerCuts'), Cut(ciphertext, messageCuts'), macSize);
  }
}
