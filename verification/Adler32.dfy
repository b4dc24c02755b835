/** The Adler-32 object of adler32.cpp against section 2.2 of RFC 1950. */
module Adler32 {
  import opened NatBits
  import opened Bytes
  import opened Options
  import opened Pieces

  const BASE: nat := 65521

  /** `unsigned long` where it is narrowest. */
  type Ulong = x: nat | x < 0x1_0000_0000

  /** The sum of all bytes, started at one, and the sum of those sums. */
  function Sum1(data: seq<byte>): nat {
    if data == [] then 1 else Sum1(data[..|data| - 1]) + data[|data| - 1]
  }

  function Sum2(data: seq<byte>): nat {
    if data == [] then 0 else Sum2(data[..|data| - 1]) + Sum1(data)
  }

  /** The four bytes of the checksum, most significant first. */
  function Checksum(data: seq<byte>): (c: seq<byte>)
    ensures |c| == 4
  {
    BigEndian(Sum2(data) % BASE, 2) + BigEndian(Sum1(data) % BASE, 2)
  }

  ghost predicate Congruent(a: nat, b: nat) { a % BASE == b % BASE }

  lemma SumSnoc(data: seq<byte>, b: byte)
    ensures Sum1(data + [b]) == Sum1(data) + b && Sum2(data + [b]) == Sum2(data) + Sum1(data + [b])
  {
    assert (data + [b])[..|data|] == data;
  }

  lemma CongruentSum(a: nat, b: nat, c: nat, d: nat)
    requires Congruent(a, b) && Congruent(c, d)
    ensures Congruent(a + c, b + d)
  {
    SumMod(a, c);
    SumMod(b, d);
  }

  lemma SumMod(a: nat, c: nat)
    ensures (a + c) % BASE == (a % BASE + c % BASE) % BASE
  {
  }

  lemma Reduced(a: nat, b: nat)
    requires Congruent(a, b)
    ensures Congruent(a % BASE, b) && (a >= BASE ==> Congruent(a - BASE, b)) && a % BASE < BASE
  {
  }

  /** The sums after one more byte. */
  lemma NextByte(s1: nat, s2: nat, data: seq<byte>, b: byte)
    requires Congruent(s1, Sum1(data)) && Congruent(s2, Sum2(data))
    ensures Congruent(s1 + b, Sum1(data + [b])) && Congruent(s2 + (s1 + b), Sum2(data + [b]))
  {
    hide Congruent, Sum1, Sum2;
    SumSnoc(data, b);
    Same(b);
    CongruentSum(s1, Sum1(data), b, b);
    CongruentSum(s2, Sum2(data), s1 + b, Sum1(data + [b]));
  }

  lemma Same(b: nat)
    ensures Congruent(b, b)
  {
  }

  class Checker {
    var s1: nat
    var s2: nat

    /** What was hashed. */
    ghost var fed: seq<byte>

    ghost predicate Valid()
      reads this
    {
      s1 == Sum1(fed) % BASE && s2 == Sum2(fed) % BASE
    }

    constructor ()
      ensures Valid() && fed == []
    {
      s1, s2, fed := 1, 0, [];
    }

    /** `Update`: no sum leaves 32 bits, and both are below the base at the end. */
    method Update(input: seq<byte>)
      requires Valid()
      modifies this
      ensures Valid() && fed == old(fed) + input && s1 < BASE && s2 < BASE
    {
      hide Sum1, Sum2, Congruent;
      StartSums(fed);
      var a, b := Sums(input, s1, s2, fed);
      fed := fed + input;
      FinalSums(a, b, fed);
      s1, s2 := a % 0x1_0000, b % 0x1_0000;
    }

    /** `TruncatedFinal`: `None` for its exception. */
    method TruncatedFinal(size: nat) returns (hash: Option<seq<byte>>)
      requires Valid()
      modifies this
      ensures hash.None? <==> size > 4
      ensures hash.None? ==> Valid() && fed == old(fed)
      ensures hash.Some? ==> Valid() && fed == [] && hash.value == Checksum(old(fed))[..size]
    {
      if size > 4 {
        return None;
      }
      TwoBytes(s1);
      TwoBytes(s2);
      var all: seq<byte> := [s2 / 256 % 256, s2 % 256, s1 / 256 % 256, s1 % 256];
      assert all == Checksum(fed);
      hash := Some(all[..size]);
      s1, s2, fed := 1, 0, [];
    }
  }

  /** The bytes added since the last reduction of the second sum, at most. */
  function Since(length: nat): nat { if length % 0x8000 == 0 then 0 else 0x8000 - length % 0x8000 }

  /** How large the second sum can be when so many bytes are left. */
  predicate Bound(length: nat, b: nat) { length % 8 == 0 && b < BASE + 67561 * Since(length) }

  lemma BoundStarts(length: nat, b: nat)
    requires length % 8 == 0 && b < BASE
    ensures Bound(length, b)
  {
  }

  lemma BoundEnds(b: nat)
    requires Bound(0, b)
    ensures b < BASE
  {
  }

  /** There is room for eight more bytes. */
  lemma BoundRoom(length: nat, b: nat)
    requires Bound(length, b) && length > 0
    ensures length >= 8 && b < BASE + 67561 * (0x8000 - 8)
  {
    SinceStep(length, length / 0x8000, length % 0x8000);
  }

  /** After them the sum is in its bound, or it is reduced. */
  lemma BoundStep(length: nat, b: nat, c: nat)
    requires Bound(length, b) && length >= 8
    requires c < BASE || (c <= b + 67561 * 8 && (length - 8) % 0x8000 != 0)
    ensures Bound(length - 8, c)
  {
    SinceStep(length, length / 0x8000, length % 0x8000);
  }

  lemma SinceStep(length: nat, q: nat, r: nat)
    requires length >= 8 && length % 8 == 0 && length == q * 0x8000 + r && r < 0x8000
    ensures r % 8 == 0 && (length - 8) % 8 == 0 && (length - 8) % 0x8000 == if r == 0 then 0x8000 - 8 else r - 8
    ensures Since(length) == if r == 0 then 0 else 0x8000 - r
  {
    assert length % 8 == r % 8;
    EuclidUnique(length, 0x8000, q, r);
    if r == 0 {
      EuclidUnique(length - 8, 0x8000, q - 1, 0x8000 - 8);
    } else {
      EuclidUnique(length - 8, 0x8000, q, r - 8);
    }
  }

  lemma TwoBytes(v: nat)
    requires v < 0x1_0000
    ensures BigEndian(v, 2) == [v / 256 % 256, v % 256]
  {
    BigEndianPair(v / 256, v % 256);
  }

  lemma StartSums(data: seq<byte>)
    ensures Congruent(Sum1(data) % BASE, Sum1(data)) && Congruent(Sum2(data) % BASE, Sum2(data))
  {
  }

  lemma FinalSums(a: nat, b: nat, data: seq<byte>)
    requires a < BASE && b < BASE && Congruent(a, Sum1(data)) && Congruent(b, Sum2(data))
    ensures a == Sum1(data) % BASE && b == Sum2(data) % BASE
  {
  }

  /** The loops of `Update`, on its local sums */
  method Sums(input: seq<byte>, s1: Ulong, s2: Ulong, ghost all: seq<byte>) returns (a: Ulong, b: Ulong)
    requires s1 < BASE && s2 < BASE && Congruent(s1, Sum1(all)) && Congruent(s2, Sum2(all))
    ensures a < BASE && b < BASE && Congruent(a, Sum1(all + input)) && Congruent(b, Sum2(all + input))
  {
    hide Sum1, Sum2, Congruent, Bound;
    a, b := s1, s2;
    var length, pos := |input|, 0;
    assert all + input[..0] == all;
    if length % 8 != 0 {
      a, b, pos := Odd(input, a, b, all);
      length := |input| - pos;
    }
    BoundStarts(length, b);
    while length > 0
      invariant pos + length == |input| && 0 <= length && a < BASE && Bound(length, b)
      invariant Congruent(a, Sum1(all + input[..pos])) && Congruent(b, Sum2(all + input[..pos]))
    {
      BoundRoom(length, b);
      ghost var before := b;
      a, b := Eight(input, pos, a, b, all);
      length := length - 8;
      pos := pos + 8;
      Reduced(a, Sum1(all + input[..pos]));
      Reduced(b, Sum2(all + input[..pos]));
      if a >= BASE {
        a := a - BASE;
      }
      if length % 0x8000 == 0 {
        b := b % BASE;
      }
      BoundStep(length + 8, before, b);
    }
    BoundEnds(b);
    assert input[..pos] == input;
  }

  /** The first loop: the bytes that make the rest a multiple of eight */
  method Odd(input: seq<byte>, s1: Ulong, s2: Ulong, ghost all: seq<byte>) returns (a: Ulong, b: Ulong, pos: nat)
    requires |input| % 8 != 0 && s1 < BASE && s2 < BASE
    requires Congruent(s1, Sum1(all)) && Congruent(s2, Sum2(all))
    ensures pos == |input| % 8 && a < BASE && b < BASE
    ensures Congruent(a, Sum1(all + input[..pos])) && Congruent(b, Sum2(all + input[..pos]))
  {
    hide Sum1, Sum2, Congruent;
    var length := |input|;
    a, b, pos := s1, s2, 0;
    assert all + input[..0] == all;
    while length % 8 != 0
      invariant pos + length == |input| && pos <= |input| % 8 && a < BASE + 255 * pos && b < BASE + 67561 * pos
      invariant length % 8 == |input| % 8 - pos
      invariant Congruent(a, Sum1(all + input[..pos])) && Congruent(b, Sum2(all + input[..pos]))
      decreases length
    {
      NextByte(a, b, all + input[..pos], input[pos]);
      assert all + input[..pos + 1] == all + input[..pos] + [input[pos]];
      a := a + input[pos];
      b := b + a;
      pos := pos + 1;
      length := length - 1;
    }
    Reduced(a, Sum1(all + input[..pos]));
    Reduced(b, Sum2(all + input[..pos]));
    if a >= BASE {
      a := a - BASE;
    }
    b := b % BASE;
  }

  /** Eight bytes of the second loop, before any reduction */
  method Eight(input: seq<byte>, pos: nat, s1: Ulong, s2: Ulong, ghost all: seq<byte>) returns (a: Ulong, b: Ulong)
    requires pos + 8 <= |input| && s1 < BASE && s2 < BASE + 67561 * (0x8000 - 8)
    requires Congruent(s1, Sum1(all + input[..pos])) && Congruent(s2, Sum2(all + input[..pos]))
    ensures a <= s1 + 2040 && b <= s2 + 67561 * 8
    ensures Congruent(a, Sum1(all + input[..pos + 8])) && Congruent(b, Sum2(all + input[..pos + 8]))
  {
    hide Sum1, Sum2, Congruent;
    a, b := s1, s2;
    for i := 0 to 8
      invariant a <= s1 + 255 * i && b <= s2 + 67561 * i
      invariant Congruent(a, Sum1(all + input[..pos + i])) && Congruent(b, Sum2(all + input[..pos + i]))
    {
      NextByte(a, b, all + input[..pos + i], input[pos + i]);
      assert all + input[..pos + i + 1] == all + input[..pos + i] + [input[pos + i]];
      a := a + input[pos + i];
      b := b + a;
    }
  }

  /** The whole use of an object, whatever the cut of the message. */
  method Hash(pieces: seq<seq<byte>>, size: nat) returns (hash: Option<seq<byte>>)
    ensures hash.None? <==> size > 4
    ensures hash.Some? ==> hash.value == Checksum(Flatten(pieces))[..size]
  {
    hide Flatten, Checksum, Checker.Valid;
    var c := new Checker();
    FlattenStart(pieces);
    for i := 0 to |pieces|
      invariant fresh(c) && c.Valid() && c.fed == Flatten(pieces[..i])
    {
      FlattenNext(pieces, i);
      c.Update(pieces[i]);
    }
    assert pieces[..|pieces|] == pieces;
    hash := c.TruncatedFinal(size);
  }
}
