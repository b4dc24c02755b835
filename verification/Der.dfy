/** Lengths, object identifiers and unsigned integers in the basic and the
    distinguished encoding rules: asn.cpp and asn.h, after X.690. */
module Der {
  import opened NatBits
  import opened Bytes
  import opened Options

  const BOOLEAN: byte := 0x01
  const INTEGER: byte := 0x02
  const OBJECT_IDENTIFIER: byte := 0x06
  const ENUMERATED: byte := 0x0a
  const CONSTRUCTED: byte := 0x20

  /** A `BufferedTransformation` that holds the bytes put into it. */
  class ByteQueue {
    var data: seq<byte>

    constructor ()
      ensures data == []
    {
      data := [];
    }

    method Put(b: byte)
      modifies this
      ensures data == old(data) + [b]
    {
      data := data + [b];
    }

    method PutAll(s: seq<byte>)
      modifies this
      ensures data == old(data) + s
    {
      data := data + s;
    }

    method Get() returns (ok: bool, b: byte)
      modifies this
      ensures ok <==> old(data) != []
      ensures ok ==> [b] + data == old(data)
      ensures !ok ==> data == []
    {
      if data == [] {
        return false, 0;
      }
      ok, b := true, data[0];
      data := data[1..];
    }

    /** At most n bytes. */
    method GetAll(n: nat) returns (s: seq<byte>)
      modifies this
      ensures s + data == old(data)
      ensures |s| == if n <= |old(data)| then n else |old(data)|
    {
      var k := if n <= |data| then n else |data|;
      s, data := data[..k], data[k..];
    }
  }

  // ----- numbers of bytes and of bits

  /** The number of bytes of a number. */
  function BytesFor(n: nat): (k: nat)
    ensures k == 0 <==> n == 0
  {
    if n == 0 then 0 else 1 + BytesFor(n / 256)
  }

  lemma ShrByte(n: nat)
    ensures Shr(n, 8) == n / 256
  {
    assert Shr(n, 8) == Shr(n / 2 / 2 / 2 / 2, 4) == n / 2 / 2 / 2 / 2 / 2 / 2 / 2 / 2;
  }

  lemma ShrSeven(n: nat)
    ensures Shr(n, 7) == n / 128
  {
    assert Shr(n, 7) == Shr(n / 2 / 2 / 2 / 2, 3) == n / 2 / 2 / 2 / 2 / 2 / 2 / 2;
  }

  lemma {:induction false} BytesForShr(n: nat, k: nat)
    ensures Shr(n, 8 * k) == 0 <==> BytesFor(n) <= k
    decreases k
  {
    if k > 0 {
      ShrAdd(n, 8, 8 * (k - 1));
      ShrByte(n);
      BytesForShr(n / 256, k - 1);
      ShrZero(8 * k);
    }
  }

  lemma {:induction false} BytesForPow(n: nat, k: nat)
    ensures n < Pow256(k) <==> BytesFor(n) <= k
    decreases k
  {
    if k > 0 { BytesForPow(n / 256, k - 1); }
  }

  lemma LwordBytes()
    ensures Pow256(8) == LWORD && Pow256(7) == 0x100_0000_0000_0000
  {
    assert Pow256(2) == 0x1_0000;
    assert Pow256(4) == 0x1_0000_0000;
    assert Pow256(6) == 0x1_0000_0000_0000;
  }

  /** `BytePrecision` of an `lword`, by bisection */
  method BytePrecision(value: nat) returns (k: nat)
    requires value < LWORD
    ensures k == BytesFor(value)
  {
    hide Shr, BytesFor, Pow256;
    if value == 0 {
      return 0;
    }
    var l, h := 0, 64;
    LwordBytes();
    BytesForPow(value, 8);
    BytesForShr(value, 8);
    while h - l > 8
      invariant h - l == 64 || h - l == 32 || h - l == 16 || h - l == 8
      invariant 0 <= l && l % 8 == 0
      invariant Shr(value, h) == 0 && (l > 0 ==> Shr(value, l) != 0)
    {
      var t := (l + h) / 2;
      if Shr(value, t) != 0 { l := t; } else { h := t; }
    }
    BytesForShr(value, l / 8);
    BytesForShr(value, h / 8);
    k := h / 8;
  }

  /** `BitPrecision` of a `word32`, by bisection */
  method BitPrecision(value: nat) returns (k: nat)
    requires value < WORD32
    ensures k == BitCount(value)
  {
    hide Shr;
    if value == 0 {
      return 0;
    }
    var l, h := 0, 32;
    Word32Bits(value);
    BitCountShr(value, 32);
    while h - l > 1
      invariant 0 <= l < h <= 32
      invariant Shr(value, h) == 0 && (l > 0 ==> Shr(value, l) != 0)
    {
      var t := (l + h) / 2;
      if Shr(value, t) != 0 { l := t; } else { h := t; }
    }
    BitCountShr(value, l);
    BitCountShr(value, h);
    k := h;
  }

  lemma Word32Bits(v: nat)
    requires v < WORD32
    ensures BitCount(v) <= 32
  {
    assert Pow256(2) == 0x1_0000;
    assert Pow256(4) == WORD32;
    BytesForPow(v, 4);
    BytesForShr(v, 4);
    BitCountShr(v, 32);
  }

  // ----- lengths

  /** Section 10.1 of X.690: a length in the fewest octets. */
  function EncodeLength(n: nat): (s: seq<byte>)
    requires n < LWORD
    ensures 1 <= |s| <= 9
  {
    if n <= 0x7f then [n]
    else
      LwordBytes();
      BytesForPow(n, 8);
      [0x80 + BytesFor(n)] + BigEndian(n, BytesFor(n))
  }

  /** `Short` when the octets end, `TooLong` when a bit would be lost. */
  datatype Length = Definite(length: nat, used: nat) | Indefinite | Short | TooLong

  predicate Failed(l: Length) { l.Short? || l.TooLong? }

  /** Section 8.1.3 of X.690, for lengths that fit an `lword`. */
  function DecodeLength(data: seq<byte>): Length {
    if data == [] then Short
    else if data[0] < 0x80 then Definite(data[0], 1)
    else if data[0] == 0x80 then Indefinite
    else
      var k := data[0] - 0x80;
      if |data| < 1 + k then (if 256 * Value(data[1..]) >= LWORD then TooLong else Short)
      else if Value(data[1..1 + k]) >= LWORD then TooLong
      else Definite(Value(data[1..1 + k]), 1 + k)
  }

  lemma {:induction false} BigEndianAt(v: nat, n: nat, i: nat)
    requires i < n
    ensures BigEndian(v, n)[i] == Shr(v, 8 * (n - 1 - i)) % 256
    decreases n
  {
    if i < n - 1 {
      BigEndianAt(v / 256, n - 1, i);
      ShrAdd(v, 8, 8 * (n - 2 - i));
      ShrByte(v);
    }
  }

  /** `DERLengthEncode` */
  method DERLengthEncode(bt: ByteQueue, length: nat) returns (i: nat)
    requires length < LWORD
    modifies bt
    ensures bt.data == old(bt.data) + EncodeLength(length) && i == |EncodeLength(length)|
  {
    hide Shr, BigEndian, BytesFor, Pow256;
    if length <= 0x7f {
      bt.Put(length);
      return 1;
    }
    var k := BytePrecision(length);
    LwordBytes();
    BytesForPow(length, 8);
    ghost var code := EncodeLength(length);
    bt.Put(0x80 + k);
    i := 1;
    var j := k;
    while j != 0
      invariant 0 <= j <= k && i == 1 + k - j
      invariant bt.data == old(bt.data) + code[..i]
    {
      BigEndianAt(length, k, k - j);
      bt.Put(Shr(length, (j - 1) * 8) % 256);
      assert code[..i + 1] == code[..i] + [code[i]];
      i := i + 1;
      j := j - 1;
    }
    assert code[..i] == code;
  }

  lemma ValueSnoc(s: seq<byte>, b: byte)
    ensures Value(s + [b]) == 256 * Value(s) + b
  {
    assert (s + [b])[..|s|] == s;
  }

  lemma {:induction false} ValueMono(s: seq<byte>, i: nat)
    requires i <= |s|
    ensures Value(s) >= Value(s[..i]) && (i < |s| ==> Value(s) >= 256 * Value(s[..i]))
    decreases |s|
  {
    if i < |s| {
      var k := |s| - 1;
      ValueMono(s[..k], i);
      assert s[..k][..i] == s[..i];
    } else {
      assert s[..i] == s;
    }
  }

  /** `BERLengthDecode`: `Short` is its `false` and `TooLong` its exception. */
  method BERLengthDecode(bt: ByteQueue) returns (r: Length)
    modifies bt
    ensures r == DecodeLength(old(bt.data))
    ensures r.Definite? ==> r.used <= |old(bt.data)| && bt.data == old(bt.data)[r.used..]
    ensures r.Indefinite? ==> bt.data == old(bt.data)[1..]
  {
    hide Value;
    var all := bt.data;
    var ok, b := bt.Get();
    if !ok {
      return Short;
    }
    assert all == [b] + bt.data;
    if b < 0x80 {
      return Definite(b, 1);
    }
    var lengthBytes := b - 0x80;
    if lengthBytes == 0 {
      return Indefinite;
    }
    r := ReadLength(bt, all, lengthBytes);
  }

  /** The loop of `BERLengthDecode`, which refuses to shift a bit out of the length. */
  method ReadLength(bt: ByteQueue, ghost all: seq<byte>, count: nat) returns (r: Length)
    requires all != [] && bt.data == all[1..] && 0 < count < 0x80 && all[0] == 0x80 + count
    modifies bt
    ensures r == DecodeLength(all)
    ensures r.Definite? ==> r.used <= |all| && bt.data == all[r.used..]
    ensures !r.Indefinite?
  {
    hide Value;
    var length: nat, lengthBytes := 0, count;
    ghost var i := 1;
    assert all[1..1] == [];
    EmptyValue();
    while lengthBytes > 0
      invariant 0 <= lengthBytes && i == 1 + count - lengthBytes && i <= |all|
      invariant bt.data == all[i..] && length == Value(all[1..i]) < LWORD
      decreases lengthBytes
    {
      lengthBytes := lengthBytes - 1;
      if length >= 0x100_0000_0000_0000 {
        if 1 + count <= |all| {
          assert all[1..1 + count][..i - 1] == all[1..i];
          ValueMono(all[1..1 + count], i - 1);
        } else {
          assert all[1..][..i - 1] == all[1..i];
          ValueMono(all[1..], i - 1);
        }
        return TooLong;
      }
      var ok, b := bt.Get();
      if !ok {
        assert all[1..] == all[1..i];
        return Short;
      }
      assert all[i..] == [b] + bt.data && bt.data == all[i + 1..];
      assert all[1..i + 1] == all[1..i] + [b];
      ValueSnoc(all[1..i], b);
      length := length * 256 + b;
      i := i + 1;
    }
    r := Definite(length, 1 + count);
  }

  lemma EmptyValue()
    ensures Value([]) == 0
  {
  }

  /** What `DERLengthEncode` writes, `BERLengthDecode` reads, whatever follows. */
  lemma LengthRoundTrip(n: nat, rest: seq<byte>)
    requires n < LWORD
    ensures DecodeLength(EncodeLength(n) + rest) == Definite(n, |EncodeLength(n)|)
  {
    hide Value, BigEndian;
    if n > 0x7f {
      var k := BytesFor(n);
      BytesForPow(n, k);
      ValueOfBigEndian(n, k);
      var code := EncodeLength(n);
      assert (code + rest)[1..1 + k] == BigEndian(n, k);
    }
  }

  /** No accepted form of a length is shorter. */
  lemma LengthIsMinimal(data: seq<byte>)
    requires DecodeLength(data).Definite?
    ensures var r := DecodeLength(data); r.length < LWORD && |EncodeLength(r.length)| <= r.used
  {
    hide Value, BigEndian, Pow256, BytesFor;
    var r := DecodeLength(data);
    if data[0] > 0x80 {
      BigEndianOfValue(data[1..r.used]);
      BytesForPow(r.length, r.used - 1);
    }
  }

  // ----- the values of an object identifier

  /** Section 8.19.2 of X.690: groups of seven bits, all but the last marked. */
  function EncodeValue(v: nat): (s: seq<byte>)
    ensures s != []
  {
    MarkedGroups(v / 128) + [v % 128]
  }

  function MarkedGroups(v: nat): (s: seq<byte>)
    ensures forall i :: 0 <= i < |s| ==> s[i] >= 128
  {
    if v == 0 then [] else MarkedGroups(v / 128) + [128 + v % 128]
  }

  /** The number in groups of seven bits. */
  function GroupValue(s: seq<byte>): nat {
    if s == [] then 0 else 128 * GroupValue(s[..|s| - 1]) + s[|s| - 1] % 128
  }

  /** The position after the first unmarked octet, or zero. */
  function ValueEnd(data: seq<byte>, i: nat): (n: nat)
    requires i <= |data|
    ensures n == 0 || (i < n <= |data| && data[n - 1] < 128)
    ensures forall k :: i <= k < (if n == 0 then |data| else n - 1) ==> data[k] >= 128
    decreases |data| - i
  {
    if i == |data| then 0 else if data[i] < 128 then i + 1 else ValueEnd(data, i + 1)
  }

  /** A value and its length, if there is one and it fits a `word32`. */
  function DecodeValue(data: seq<byte>): Option<(nat, nat)> {
    var n := ValueEnd(data, 0);
    if n == 0 || GroupValue(data[..n]) >= WORD32 then None else Some((GroupValue(data[..n]), n))
  }

  /** `OID::EncodeValue` */
  method OidEncodeValue(bt: ByteQueue, v: nat)
    requires v < WORD32
    modifies bt
    ensures bt.data == old(bt.data) + EncodeValue(v)
  {
    hide Shr, MarkedGroups, BitCount;
    var bits := BitPrecision(v);
    var i := RoundUp(if bits > 7 then bits else 7, 7) - 7;
    BitCountShr(v, i + 7);
    NoGroups();
    while i != 0
      invariant 0 <= i <= bits + 6 && i % 7 == 0 && (i > 0 ==> i < bits)
      invariant bt.data == old(bt.data) + MarkedGroups(Shr(v, i + 7))
    {
      BitCountShr(v, i);
      NextGroup(v, i);
      bt.Put(0x80 + Shr(v, i) % 128);
      i := i - 7;
    }
    ShrSeven(v);
    bt.Put(v % 128);
  }

  /** `RoundUpToMultipleOf` */
  function RoundUp(n: nat, m: nat): (r: nat)
    requires n > 0 && m > 0
    ensures n <= r < n + m && r % m == 0
  {
    RoundUpMultiple(n, m);
    n - 1 + m - (n - 1) % m
  }

  lemma RoundUpMultiple(n: nat, m: nat)
    requires n > 0 && m > 0
    ensures (n - 1 + m - (n - 1) % m) % m == 0
  {
    var q, r := (n - 1) / m, (n - 1) % m;
    assert n - 1 == q * m + r;
    assert q * m + m == (q + 1) * m;
    EuclidUnique((q + 1) * m, m, q + 1, 0);
  }

  lemma NoGroups()
    ensures MarkedGroups(0) == []
  {
  }

  lemma NextGroup(v: nat, i: nat)
    requires Shr(v, i) != 0
    ensures MarkedGroups(Shr(v, i)) == MarkedGroups(Shr(v, i + 7)) + [0x80 + Shr(v, i) % 128]
  {
    ShrAdd(v, i, 7);
    ShrSeven(Shr(v, i));
  }

  lemma GroupSnoc(s: seq<byte>, b: byte)
    ensures GroupValue(s + [b]) == 128 * GroupValue(s) + b % 128
  {
    assert (s + [b])[..|s|] == s;
  }

  lemma {:induction false} GroupMono(s: seq<byte>, i: nat)
    requires i <= |s|
    ensures GroupValue(s) >= GroupValue(s[..i]) && (i < |s| ==> GroupValue(s) >= 128 * GroupValue(s[..i]))
    decreases |s|
  {
    if i < |s| {
      var k := |s| - 1;
      GroupMono(s[..k], i);
      assert s[..k][..i] == s[..i];
    } else {
      assert s[..i] == s;
    }
  }

  /** While all octets are marked, the end of the value is still ahead. */
  lemma {:induction false} EndAhead(data: seq<byte>, i: nat)
    requires i <= |data| && forall k :: 0 <= k < i ==> data[k] >= 128
    ensures ValueEnd(data, 0) == ValueEnd(data, i)
    decreases i
  {
    if i > 0 { EndAhead(data, i - 1); }
  }

  /** `OID::DecodeValue`: `None` for its exceptions. */
  method OidDecodeValue(bt: ByteQueue) returns (r: Option<(nat, nat)>)
    modifies bt
    ensures r == DecodeValue(old(bt.data))
    ensures r.Some? ==> 0 < r.value.1 <= |old(bt.data)| && bt.data == old(bt.data)[r.value.1..]
  {
    hide GroupValue, ValueEnd;
    ghost var all := bt.data;
    var v: nat, i := 0, 0;
    NoGroupValue();
    while true
      invariant 0 <= i <= |all| && bt.data == all[i..]
      invariant forall k :: 0 <= k < i ==> all[k] >= 128
      invariant v == GroupValue(all[..i]) < WORD32
      decreases |bt.data|
    {
      EndAhead(all, i);
      var ok, b := bt.Get();
      if !ok {
        return None;
      }
      assert all[i..] == [b] + bt.data && bt.data == all[i + 1..];
      i := i + 1;
      if v >= 0x200_0000 {
        TooLarge(all, i - 1);
        return None;
      }
      assert all[..i] == all[..i - 1] + [b];
      GroupSnoc(all[..i - 1], b);
      v := v * 128;
      v := v + b % 128;
      if b < 0x80 {
        EndHere(all, i - 1);
        return Some((v, i));
      }
    }
  }

  lemma NoGroupValue()
    ensures GroupValue([]) == 0
  {
  }

  lemma EndHere(data: seq<byte>, i: nat)
    requires i < |data| && data[i] < 128
    ensures ValueEnd(data, i) == i + 1
  {
  }

  lemma TooLarge(data: seq<byte>, i: nat)
    requires i < |data| && ValueEnd(data, 0) == ValueEnd(data, i) && GroupValue(data[..i]) >= 0x200_0000
    ensures DecodeValue(data) == None
  {
    hide GroupValue;
    var n := ValueEnd(data, i);
    if n != 0 {
      assert data[..n][..i] == data[..i];
      GroupMono(data[..n], i);
    }
  }

  lemma {:induction false} GroupValueOfMarked(v: nat)
    ensures GroupValue(MarkedGroups(v)) == v
  {
    if v > 0 {
      GroupValueOfMarked(v / 128);
      MarkedStep(v);
      hide *;
      GroupSnoc(MarkedGroups(v / 128), 128 + v % 128);
      Unmark(v);
    }
  }

  lemma MarkedStep(v: nat)
    requires v > 0
    ensures MarkedGroups(v) == MarkedGroups(v / 128) + [128 + v % 128]
  {
  }

  lemma Unmark(v: nat)
    ensures 128 * (v / 128) + (128 + v % 128) % 128 == v
  {
  }

  /** What `EncodeValue` writes, `DecodeValue` reads, whatever follows. */
  lemma ValueRoundTrip(v: nat, rest: seq<byte>)
    requires v < WORD32
    ensures DecodeValue(EncodeValue(v) + rest) == Some((v, |EncodeValue(v)|))
  {
    hide GroupValue, ValueEnd, MarkedGroups;
    var marked := MarkedGroups(v / 128);
    var data := EncodeValue(v) + rest;
    assert forall k :: 0 <= k < |marked| ==> data[k] == marked[k];
    EndAhead(data, |marked|);
    EndHere(data, |marked|);
    assert data[..|marked| + 1] == marked + [v % 128];
    GroupSnoc(marked, v % 128);
    GroupValueOfMarked(v / 128);
  }

  lemma {:induction false} MarkedIsShortest(s: seq<byte>)
    ensures |MarkedGroups(GroupValue(s))| <= |s|
  {
    if s != [] {
      var k := |s| - 1;
      MarkedIsShortest(s[..k]);
      var v := GroupValue(s);
      assert v / 128 == GroupValue(s[..k]);
    }
  }

  /** No accepted form of a value is shorter. */
  lemma ValueIsMinimal(data: seq<byte>)
    requires DecodeValue(data).Some?
    ensures var r := DecodeValue(data).value; r.0 < WORD32 && |EncodeValue(r.0)| <= r.1
  {
    var r := DecodeValue(data).value;
    var s := data[..r.1];
    assert r.0 / 128 == GroupValue(s[..|s| - 1]);
    MarkedIsShortest(s[..|s| - 1]);
  }

  // ----- object identifiers

  function EncodeValues(values: seq<nat>): seq<byte> {
    if values == [] then [] else EncodeValue(values[0]) + EncodeValues(values[1..])
  }

  /** Values that fill exactly `length` octets. */
  function DecodeValues(data: seq<byte>, length: nat): Option<seq<nat>>
    decreases length
  {
    if length == 0 then Some([])
    else
      match DecodeValue(data)
      case None => None
      case Some(r) =>
        if r.1 > length then None
        else match DecodeValues(data[r.1..], length - r.1)
             case None => None
             case Some(vs) => Some([r.0] + vs)
  }

  /** The contents octets: the first two values share an octet. */
  function OidContents(values: seq<nat>): (c: seq<byte>)
    requires |values| >= 2
    ensures c != []
  {
    [(values[0] * 40 + values[1]) % WORD32 % 256] + EncodeValues(values[2..])
  }

  function EncodeOid(values: seq<nat>): seq<byte>
    requires |values| >= 2 && |OidContents(values)| < LWORD
  {
    [OBJECT_IDENTIFIER] + EncodeLength(|OidContents(values)|) + OidContents(values)
  }

  /** The values and the octets used. */
  function DecodeOid(data: seq<byte>): Option<(seq<nat>, nat)> {
    if data == [] || data[0] != OBJECT_IDENTIFIER then None
    else
      match DecodeLength(data[1..])
      case Definite(length, used) =>
        var rest := data[1..][used..];
        if length < 1 || rest == [] then None
        else (match DecodeValues(rest[1..], length - 1)
              case None => None
              case Some(vs) => Some(([rest[0] / 40, rest[0] % 40] + vs, 1 + used + length)))
      case _ => None
  }

  class Oid {
    var values: seq<nat>

    constructor (values: seq<nat>)
      ensures this.values == values
    {
      this.values := values;
    }

    /** `OID::DEREncode`; the temporary queue holds fewer octets than an `lword` counts. */
    method DEREncode(bt: ByteQueue)
      requires |values| >= 2 && forall i :: 0 <= i < |values| ==> values[i] < WORD32
      requires |OidContents(values)| < LWORD
      modifies bt
      ensures bt.data == old(bt.data) + EncodeOid(values)
    {
      hide EncodeValue, EncodeLength;
      var temp := new ByteQueue();
      temp.Put((values[0] * 40 + values[1]) % WORD32 % 256);
      assert values[2..2] == [];
      for i := 2 to |values|
        invariant temp.data == [(values[0] * 40 + values[1]) % WORD32 % 256] + EncodeValues(values[2..i])
        invariant fresh(temp) && unchanged(bt)
      {
        EncodeValuesSnoc(values[2..i], values[i]);
        assert values[2..i + 1] == values[2..i] + [values[i]];
        OidEncodeValue(temp, values[i]);
      }
      assert values[2..|values|] == values[2..];
      assert temp.data == OidContents(values);
      bt.Put(OBJECT_IDENTIFIER);
      var n := DERLengthEncode(bt, |temp.data|);
      bt.PutAll(temp.data);
    }

    /** `OID::BERDecode`: false for its exceptions. */
    method BERDecode(bt: ByteQueue) returns (ok: bool)
      modifies this, bt
      ensures ok <==> DecodeOid(old(bt.data)).Some?
      ensures ok ==> values == DecodeOid(old(bt.data)).value.0
      ensures ok ==> DecodeOid(old(bt.data)).value.1 <= |old(bt.data)|
      ensures ok ==> bt.data == old(bt.data)[DecodeOid(old(bt.data)).value.1..]
    {
      hide DecodeLength, DecodeValue, DecodeValues;
      ghost var all := bt.data;
      var got, b := bt.Get();
      if !got || b != OBJECT_IDENTIFIER {
        return false;
      }
      assert bt.data == all[1..];
      var r := BERLengthDecode(bt);
      if !r.Definite? || r.length < 1 {
        return false;
      }
      ghost var rest := all[1..][r.used..];
      got, b := bt.Get();
      if !got {
        return false;
      }
      assert bt.data == rest[1..];
      values := [b / 40, b % 40];
      ok := DecodeRest(bt, r.length - 1);
      if ok { OidSuffix(all, r.used, r.length); }
    }

    /** The loop of `OID::BERDecode` */
    method DecodeRest(bt: ByteQueue, total: nat) returns (ok: bool)
      modifies this, bt
      ensures ok <==> DecodeValues(old(bt.data), total).Some?
      ensures ok ==> values == old(values) + DecodeValues(old(bt.data), total).value
      ensures ok ==> total <= |old(bt.data)| && bt.data == old(bt.data)[total..]
    {
      hide DecodeValue, DecodeValues;
      ghost var all := bt.data;
      var length := total;
      AllDecoded(bt.data);
      while length > 0
        invariant 0 <= length <= total && total - length <= |all| && bt.data == all[total - length..]
        invariant DecodeValues(all, total).Some? <==> DecodeValues(bt.data, length).Some?
        invariant DecodeValues(all, total).Some? ==>
                    old(values) + DecodeValues(all, total).value == values + DecodeValues(bt.data, length).value
      {
        NextDecoded(bt.data, length);
        var r := OidDecodeValue(bt);
        if r.None? || r.value.1 > length {
          return false;
        }
        assert all[total - length..][r.value.1..] == all[total - (length - r.value.1)..];
        values := values + [r.value.0];
        length := length - r.value.1;
      }
      AllDecoded(bt.data);
      return true;
    }
  }

  lemma AllDecoded(data: seq<byte>)
    ensures DecodeValues(data, 0) == Some([])
  {
  }

  lemma NextDecoded(data: seq<byte>, length: nat)
    requires length > 0
    ensures var r := DecodeValue(data);
            DecodeValues(data, length)
            == if r.None? || r.value.1 > length || DecodeValues(data[r.value.1..], length - r.value.1).None? then None
               else Some([r.value.0] + DecodeValues(data[r.value.1..], length - r.value.1).value)
  {
  }

  lemma OidSuffix(all: seq<byte>, used: nat, length: nat)
    requires 1 + used + length <= |all| && length >= 1
    ensures all[1..][used..][1..][length - 1..] == all[1 + used + length..]
  {
  }

  lemma {:induction false} EncodeValuesSnoc(values: seq<nat>, v: nat)
    ensures EncodeValues(values + [v]) == EncodeValues(values) + EncodeValue(v)
  {
    hide EncodeValue;
    if values == [] {
      assert EncodeValues([v]) == EncodeValue(v) + EncodeValues([]);
    } else {
      EncodeValuesSnoc(values[1..], v);
      assert (values + [v])[1..] == values[1..] + [v];
    }
  }

  lemma {:induction false} ValuesRoundTrip(values: seq<nat>, rest: seq<byte>)
    requires forall i :: 0 <= i < |values| ==> values[i] < WORD32
    ensures DecodeValues(EncodeValues(values) + rest, |EncodeValues(values)|) == Some(values)
  {
    hide EncodeValue, DecodeValue;
    if values != [] {
      var code, tail := EncodeValue(values[0]), EncodeValues(values[1..]);
      ValuesRoundTrip(values[1..], rest);
      ValueRoundTrip(values[0], tail + rest);
      assert code + tail + rest == code + (tail + rest);
      assert (code + (tail + rest))[|code|..] == tail + rest;
      assert values == [values[0]] + values[1..];
    }
  }

  /** Decoding returns the identifier exactly when its first two values share an octet. */
  lemma OidRoundTrip(values: seq<nat>, rest: seq<byte>)
    requires |values| >= 2 && forall i :: 0 <= i < |values| ==> values[i] < WORD32
    requires |OidContents(values)| < LWORD
    ensures DecodeOid(EncodeOid(values) + rest) == Some((values, |EncodeOid(values)|))
       <==> values[1] < 40 && values[0] * 40 + values[1] < 256
  {
    hide EncodeLength, DecodeLength, EncodeValues, DecodeValues, EncodeValue, DecodeValue;
    var c := OidContents(values);
    var code := EncodeLength(|c|);
    var data := EncodeOid(values) + rest;
    LengthRoundTrip(|c|, c + rest);
    assert data[1..] == code + (c + rest);
    assert data[1..][|code|..] == c + rest;
    assert (c + rest)[1..] == EncodeValues(values[2..]) + rest;
    ValuesRoundTrip(values[2..], rest);
    SharedOctet(values[0], values[1]);
    assert values == [values[0], values[1]] + values[2..];
    var first: seq<nat> := [c[0] / 40, c[0] % 40] + values[2..];
    assert first[0] == c[0] / 40 && first[1] == c[0] % 40;
    var used: nat := |EncodeOid(values)|;
    assert DecodeOid(data) == Some((first, used));
    if c[0] / 40 == values[0] && c[0] % 40 == values[1] { assert first == values; }
  }

  /** The identifier 2.999 comes back as 1.15. */
  lemma OidFails()
    ensures EncodeOid([2, 999]) == [OBJECT_IDENTIFIER, 1, 55]
    ensures DecodeOid([OBJECT_IDENTIFIER, 1, 55]) == Some(([1, 15], 3))
  {
    var data: seq<byte> := [OBJECT_IDENTIFIER, 1, 55];
    assert OidContents([2, 999]) == [55];
    assert data[1..] == [1, 55] && DecodeLength(data[1..]) == Definite(1, 1);
    assert data[1..][1..] == [55];
    assert DecodeValues([], 0) == Some([]) && [55][1..] == [];
    var values: seq<nat> := [55 / 40, 55 % 40] + [];
    assert values == [1, 15];
    assert DecodeOid(data) == Some((values, 3));
  }

  lemma SharedOctet(a: nat, b: nat)
    ensures var c := (a * 40 + b) % WORD32 % 256; (c / 40 == a && c % 40 == b) <==> b < 40 && a * 40 + b < 256
  {
    OctetQuotient(a, b, (a * 40 + b) % WORD32 % 256);
    if a * 40 + b < 256 { SmallRemainder(a * 40 + b); }
  }

  lemma SmallRemainder(x: nat)
    requires x < 256
    ensures x % WORD32 % 256 == x
  {
  }

  lemma OctetQuotient(a: nat, b: nat, c: nat)
    requires c < 256
    ensures (c / 40 == a && c % 40 == b) <==> b < 40 && a * 40 + b == c
  {
    if b < 40 && a * 40 + b == c { EuclidUnique(c, 40, a, b); }
  }

  // ----- unsigned integers

  /** The octets of a number as a non-negative two's complement integer. */
  function SignedBytes(w: nat): (k: nat)
    ensures k >= 1
  {
    if w < 128 then 1 else 1 + SignedBytes(w / 256)
  }

  /** Section 8.2 of X.690 for a boolean, section 8.3 otherwise. */
  function UnsignedContents(w: nat, tag: byte): (c: seq<byte>)
  {
    if tag == BOOLEAN then [if w != 0 then 0xff else 0] else BigEndian(w, SignedBytes(w))
  }

  lemma {:induction false} SignedBytesBound(w: nat, size: nat)
    requires w < Pow256(size)
    ensures SignedBytes(w) <= size + 1
    decreases size
  {
    if w >= 128 && size > 0 { SignedBytesBound(w / 256, size - 1); }
  }

  function EncodeUnsigned(w: nat, tag: byte): seq<byte>
    requires w < LWORD
  {
    LwordBytes();
    SignedBytesBound(w, 8);
    [tag] + EncodeLength(|UnsignedContents(w, tag)|) + UnsignedContents(w, tag)
  }

  /** The value and the octets used, for a type of `size` octets. */
  function DecodeUnsigned(data: seq<byte>, tag: byte, size: nat, min: nat, max: nat): Option<(nat, nat)> {
    if data == [] || data[0] != tag then None
    else
      match DecodeLength(data[1..])
      case Definite(bc, used) =>
        var rest := data[1..][used..];
        if bc > |rest| || (tag == BOOLEAN && bc != 1) || ((tag == INTEGER || tag == ENUMERATED) && bc == 0) then None
        else
          var w := Value(rest[..bc]);
          if w < Pow256(size) && min <= w <= max then Some((w, 1 + used + bc)) else None
      case _ => None
  }

  lemma {:induction false} TopByte(w: nat, bc: nat)
    requires bc >= 1 && w < Pow256(bc) && (bc == 1 || BigEndian(w, bc)[0] != 0)
    ensures SignedBytes(w) == if BigEndian(w, bc)[0] >= 128 then bc + 1 else bc
    decreases bc
  {
    if bc == 1 {
      assert Pow256(1) == 256;
      assert BigEndian(w, 1) == BigEndian(w / 256, 0) + [w % 256];
    } else {
      assert BigEndian(w, bc)[0] == BigEndian(w / 256, bc - 1)[0];
      if w < 256 { TopOfSmall(bc - 1); }
      TopByte(w / 256, bc - 1);
    }
  }

  lemma {:induction false} TopOfSmall(n: nat)
    requires n >= 1
    ensures BigEndian(0, n)[0] == 0
  {
    if n > 1 { TopOfSmall(n - 1); }
  }

  /** A leading zero octet leaves a smaller number. */
  lemma {:induction false} TopZero(w: nat, bc: nat)
    requires bc >= 1 && w < Pow256(bc) && BigEndian(w, bc)[0] == 0
    ensures w < Pow256(bc - 1)
    decreases bc
  {
    if bc > 1 {
      assert BigEndian(w, bc)[0] == BigEndian(w / 256, bc - 1)[0];
      TopZero(w / 256, bc - 1);
    } else {
      assert BigEndian(w, 1) == BigEndian(w / 256, 0) + [w % 256];
    }
  }

  /** `DEREncodeUnsigned` for a type of `size` octets */
  method DEREncodeUnsigned(out: ByteQueue, w: nat, tag: byte, size: nat) returns (n: nat)
    requires 1 <= size <= 8 && w < Pow256(size) && w < LWORD
    modifies out
    ensures out.data == old(out.data) + EncodeUnsigned(w, tag) && n == |EncodeUnsigned(w, tag)|
  {
    hide *;
    var c := BuildContents(w, tag, size);
    UnsignedParts(w, tag);
    out.Put(tag);
    var lengthBytes := DERLengthEncode(out, |c|);
    out.PutAll(c);
    n := 1 + lengthBytes + |c|;
  }

  lemma UnsignedParts(w: nat, tag: byte)
    requires w < LWORD
    ensures |UnsignedContents(w, tag)| < LWORD
    ensures EncodeUnsigned(w, tag) == [tag] + EncodeLength(|UnsignedContents(w, tag)|) + UnsignedContents(w, tag)
  {
    hide UnsignedContents;
    UnsignedLength(w, tag);
  }

  lemma UnsignedLength(w: nat, tag: byte)
    requires w < LWORD
    ensures |UnsignedContents(w, tag)| < LWORD
  {
    hide Pow256, BigEndian, SignedBytes;
    LwordBytes();
    SignedBytesBound(w, 8);
  }

  /** The buffer of `DEREncodeUnsigned` */
  method BuildContents(w: nat, tag: byte, size: nat) returns (c: seq<byte>)
    requires 1 <= size && w < Pow256(size)
    ensures c == UnsignedContents(w, tag)
  {
    hide BigEndian, Pow256, SignedBytes;
    var buf := new byte[size + 1](i => 0);
    if tag == BOOLEAN {
      buf[size] := if w != 0 then 0xff else 0;
      c := buf[size..];
    } else {
      FillBytes(buf, w, size);
      var bc := TrimBytes(buf, w, size);
      c := buf[size + 1 - bc..];
    }
  }

  method FillBytes(buf: array<byte>, w: nat, size: nat)
    requires 1 <= size && buf.Length == size + 1 && w < Pow256(size)
    modifies buf
    ensures buf[..] == BigEndian(w, size + 1)
  {
    hide BigEndian, Pow256, Shr;
    buf[0] := 0;
    for i := 0 to size
      invariant buf[0] == 0 && forall k :: 1 <= k <= i ==> buf[k] == BigEndian(w, size)[k - 1]
    {
      BigEndianAt(w, size, i);
      buf[i + 1] := Shr(w, (size - 1 - i) * 8) % 256;
    }
    BigEndianSuffix(w, size + 1, size);
    LeadingZero(w, size);
    ghost var all := BigEndian(w, size + 1);
    forall k | 1 <= k <= size ensures buf[k] == all[k] { assert all[1..][k - 1] == all[k]; }
  }

  lemma {:induction false} LeadingZero(w: nat, size: nat)
    requires w < Pow256(size)
    ensures BigEndian(w, size + 1)[0] == 0
    decreases size
  {
    if size > 0 {
      LeadingZero(w / 256, size - 1);
    } else {
      assert BigEndian(w, 1) == BigEndian(w / 256, 0) + [w % 256];
    }
  }

  method TrimBytes(buf: array<byte>, w: nat, size: nat) returns (bc: nat)
    requires 1 <= size && w < Pow256(size) && buf[..] == BigEndian(w, size + 1)
    ensures bc == SignedBytes(w) && bc <= size + 1 && buf[size + 1 - bc..] == BigEndian(w, bc)
  {
    hide BigEndian, Pow256, SignedBytes;
    bc := size;
    ghost var all := BigEndian(w, size + 1);
    while bc > 1 && buf[size + 1 - bc] == 0
      invariant 1 <= bc <= size && w < Pow256(bc)
    {
      BigEndianSuffix(w, size + 1, bc);
      assert all[size + 1 - bc..][0] == all[size + 1 - bc];
      TopZero(w, bc);
      bc := bc - 1;
    }
    BigEndianSuffix(w, size + 1, bc);
    assert all[size + 1 - bc..][0] == all[size + 1 - bc];
    TopByte(w, bc);
    if buf[size + 1 - bc] >= 0x80 {
      bc := bc + 1;
    }
    BigEndianSuffix(w, size + 1, bc);
    assert buf[size + 1 - bc..] == all[size + 1 - bc..];
  }

  lemma {:induction false} ValueWithoutZero(s: seq<byte>)
    requires s != [] && s[0] == 0
    ensures Value(s) == Value(s[1..])
    decreases |s|
  {
    if |s| > 1 {
      var k := |s| - 1;
      ValueWithoutZero(s[..k]);
      assert s[..k][1..] == s[1..][..k - 1];
    }
  }

  lemma {:induction false} ValueAtLeast(s: seq<byte>)
    requires s != [] && s[0] != 0
    ensures Value(s) >= Pow256(|s| - 1)
    decreases |s|
  {
    if |s| > 1 { ValueAtLeast(s[..|s| - 1]); }
  }

  /** `BERDecodeUnsigned` for a type of `size` octets: `None` for its exceptions. */
  method BERDecodeUnsigned(input: ByteQueue, tag: byte, size: nat, min: nat, max: nat) returns (r: Option<(nat, nat)>)
    requires 1 <= size <= 8
    modifies input
    ensures r == DecodeUnsigned(old(input.data), tag, size, min, max)
    ensures r.Some? ==> r.value.1 <= |old(input.data)| && input.data == old(input.data)[r.value.1..]
  {
    hide Value, Pow256, DecodeLength;
    ghost var all := input.data;
    var got, b := input.Get();
    if !got || b != tag {
      return None;
    }
    assert input.data == all[1..];
    var l := BERLengthDecode(input);
    if !l.Definite? {
      return None;
    }
    var bc := l.length;
    ghost var rest := all[1..][l.used..];
    if bc > |input.data| || (tag == BOOLEAN && bc != 1) || ((tag == INTEGER || tag == ENUMERATED) && bc == 0) {
      return None;
    }
    var buf := input.GetAll(bc);
    assert rest[..bc] == buf && input.data == rest[bc..] == all[1 + l.used + bc..];
    var w := Accumulate(buf, size);
    if w.None? || w.value < min || w.value > max {
      return None;
    }
    r := Some((w.value, 1 + l.used + bc));
  }

  /** The two loops of `BERDecodeUnsigned`: leading zero octets go, the rest must fit. */
  method Accumulate(buf: seq<byte>, size: nat) returns (r: Option<nat>)
    ensures r == if Value(buf) < Pow256(size) then Some(Value(buf)) else None
  {
    hide Value, Pow256;
    var bc, p := |buf|, 0;
    while bc > size && buf[p] == 0
      invariant 0 <= p <= |buf| && bc == |buf| - p && Value(buf[p..]) == Value(buf)
    {
      ValueWithoutZero(buf[p..]);
      assert buf[p..][1..] == buf[p + 1..];
      bc := bc - 1;
      p := p + 1;
    }
    if bc > size {
      ValueAtLeast(buf[p..]);
      Pow256Mono(size, bc - 1);
      return None;
    }
    BigEndianOfValue(buf[p..]);
    Pow256Mono(bc, size);
    var w: nat := 0;
    EmptyValue();
    assert buf[p..p] == [];
    for i := 0 to bc
      invariant w == Value(buf[p..p + i])
    {
      ValueSnoc(buf[p..p + i], buf[p + i]);
      assert buf[p..p + i + 1] == buf[p..p + i] + [buf[p + i]];
      w := w * 256 + buf[p + i];
    }
    assert buf[p..p + bc] == buf[p..];
    r := Some(w);
  }

  lemma DecodeParts(tag: byte, c: seq<byte>, rest: seq<byte>, size: nat, min: nat, max: nat, used: nat)
    requires 1 <= |c| < LWORD && (tag == BOOLEAN ==> |c| == 1) && used == 1 + |EncodeLength(|c|)| + |c|
    ensures DecodeUnsigned([tag] + EncodeLength(|c|) + c + rest, tag, size, min, max)
         == if Value(c) < Pow256(size) && min <= Value(c) <= max then Some((Value(c), used)) else None
  {
    hide EncodeLength, DecodeLength, Pow256, Value;
    var code := EncodeLength(|c|);
    var data := [tag] + code + c + rest;
    LengthRoundTrip(|c|, c + rest);
    assert data[1..] == code + (c + rest);
    assert data[1..][|code|..] == c + rest;
    assert (c + rest)[..|c|] == c;
  }

  /** Decoding returns the number exactly when it is in range and, for a boolean, 0 or 255. */
  lemma UnsignedRoundTrip(w: nat, tag: byte, size: nat, min: nat, max: nat, rest: seq<byte>)
    requires 1 <= size <= 8 && w < Pow256(size) && w < LWORD
    ensures DecodeUnsigned(EncodeUnsigned(w, tag) + rest, tag, size, min, max) == Some((w, |EncodeUnsigned(w, tag)|))
       <==> min <= w <= max && (tag == BOOLEAN ==> w == 0 || w == 0xff)
  {
    hide *;
    UnsignedParts(w, tag);
    ContentsValue(w, tag);
    DecodeParts(tag, UnsignedContents(w, tag), rest, size, min, max, |EncodeUnsigned(w, tag)|);
    Pow256Mono(1, size);
    OneByte();
  }

  lemma OneByte()
    ensures Pow256(1) == 256
  {
  }

  lemma ContentsValue(w: nat, tag: byte)
    ensures |UnsignedContents(w, tag)| >= 1 && (tag == BOOLEAN ==> |UnsignedContents(w, tag)| == 1)
    ensures tag != BOOLEAN ==> Value(UnsignedContents(w, tag)) == w
    ensures tag == BOOLEAN ==> Value(UnsignedContents(w, tag)) == if w == 0 then 0 else 0xff
  {
    if tag != BOOLEAN {
      SignedBytesFit(w);
      ValueOfBigEndian(w, SignedBytes(w));
    }
  }

  lemma {:induction false} SignedBytesFit(w: nat)
    ensures w < Pow256(SignedBytes(w))
  {
    if w >= 128 { SignedBytesFit(w / 256); }
  }

  /** Section 8.3.2 of X.690: no non-negative two's complement form is shorter. */
  lemma {:induction false} UnsignedIsMinimal(c: seq<byte>)
    requires c != [] && c[0] < 128
    ensures SignedBytes(Value(c)) <= |c|
    decreases |c|
  {
    if |c| > 1 {
      var k := |c| - 1;
      UnsignedIsMinimal(c[..k]);
      assert Value(c) / 256 == Value(c[..k]);
    }
  }

  /** A boolean written from 1 comes back as 255. */
  lemma BooleanFails()
    ensures EncodeUnsigned(1, BOOLEAN) == [BOOLEAN, 1, 0xff]
    ensures DecodeUnsigned([BOOLEAN, 1, 0xff], BOOLEAN, 4, 0, 0xffff_ffff) == Some((0xff, 3))
  {
    UnsignedParts(1, BOOLEAN);
    OneOctet(BOOLEAN, 0xff);
  }

  lemma OneOctet(tag: byte, b: byte)
    ensures DecodeUnsigned([tag, 1, b], tag, 4, 0, 0xffff_ffff) == Some((b as nat, 3))
  {
    var data: seq<byte> := [tag, 1, b];
    assert data[1..] == [1, b] && DecodeLength(data[1..]) == Definite(1, 1);
    assert data[1..][1..] == [b] && [b][..1] == [b];
    EmptyValue();
    ValueSnoc([], b);
    assert [] + [b] == [b];
    OneByte();
    Pow256Mono(1, 4);
  }

  // ----- integers

  /** Section 8.3.3 of X.690: two's complement, the first octet with its sign. */
  function Signed(c: seq<byte>): int
    requires c != []
  {
    if |c| == 1 then (if c[0] < 128 then c[0] else c[0] - 256)
    else 256 * Signed(c[..|c| - 1]) + c[|c| - 1]
  }

  lemma {:induction false} SignedValue(c: seq<byte>)
    requires c != []
    ensures Signed(c) == if c[0] < 128 then Value(c) else Value(c) - Pow256(|c|)
    decreases |c|
  {
    if |c| == 1 {
      EmptyValue();
      OneByte();
    } else {
      SignedValue(c[..|c| - 1]);
    }
  }

  /** The contents octets of an element of definite length. */
  function ContentsOf(data: seq<byte>): (c: seq<byte>)
    requires data != [] && DecodeLength(data[1..]).Definite?
  {
    var l := DecodeLength(data[1..]);
    var rest := data[1..][l.used..];
    if l.length <= |rest| then rest[..l.length] else rest
  }

  /** A number read is the integer that X.690 has in its place exactly when the sign bit is clear. */
  lemma DecodedIsInteger(data: seq<byte>, tag: byte, size: nat, min: nat, max: nat)
    requires tag == INTEGER || tag == ENUMERATED
    requires DecodeUnsigned(data, tag, size, min, max).Some?
    ensures data != [] && DecodeLength(data[1..]).Definite? && ContentsOf(data) != []
    ensures DecodeUnsigned(data, tag, size, min, max).value.0 == Signed(ContentsOf(data)) <==> ContentsOf(data)[0] < 128
  {
    hide DecodeLength, Signed;
    var c := ContentsOf(data);
    SignedValue(c);
    Pow256Positive(|c|);
  }

  lemma {:induction false} Pow256Positive(k: nat)
    ensures Pow256(k) > 0
  {
    if k > 0 { Pow256Positive(k - 1); }
  }

  /** Minus one is read as 255. */
  lemma NegativeFails()
    ensures DecodeUnsigned([INTEGER, 1, 0xff], INTEGER, 4, 0, 0xffff_ffff) == Some((0xff, 3))
    ensures Signed([0xff]) == -1
  {
    OneOctet(INTEGER, 0xff);
  }

  /** What is written for a number is that integer. */
  lemma EncodedIsInteger(w: nat, tag: byte)
    requires tag != BOOLEAN
    ensures UnsignedContents(w, tag) != [] && Signed(UnsignedContents(w, tag)) == w
  {
    hide BigEndian, Value, Signed;
    var c := UnsignedContents(w, tag);
    ContentsValue(w, tag);
    SignedValue(c);
    SignClear(w);
  }

  lemma {:induction false} SignClear(w: nat)
    ensures BigEndian(w, SignedBytes(w))[0] < 128
  {
    if w < 128 {
      assert BigEndian(w, 1) == BigEndian(w / 256, 0) + [w % 256];
    } else {
      SignClear(w / 256);
    }
  }
}
