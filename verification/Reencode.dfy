/** `DERReencode` and the general decoder and encoder it works with: asn.cpp, after
    sections 8.1.3 and 8.1.5 of X.690. */
module Reencode {
  import opened Bytes
  import opened Der
  import opened Options

  // ----- what is accepted

  /** An element of definite length with its contents octets, or one of indefinite
      length with its elements. */
  datatype Item = Plain(tag: byte, content: seq<byte>) | Open(tag: byte, items: seq<Item>)

  predicate Constructed(tag: byte) { tag / CONSTRUCTED % 2 == 1 }

  predicate EndOfContents(data: seq<byte>) { |data| >= 2 && data[0] == 0 && data[1] == 0 }

  /** What `PeekWord16` and `GetWord16` read. */
  function Word16(a: nat, b: nat): nat { a * 256 + b }

  /** The element the data starts with, and its length. */
  function ParseItem(data: seq<byte>): (r: Option<(Item, nat)>)
    ensures r.Some? ==> 2 <= r.value.1 <= |data|
    decreases |data|, 0
  {
    if data == [] then None
    else
      match DecodeLength(data[1..])
      case Definite(length, used) =>
        if |data| < 1 + used + length then None
        else Some((Plain(data[0], data[1 + used..1 + used + length]), 1 + used + length))
      case Indefinite =>
        if !Constructed(data[0]) then None
        else (match ParseItems(data[2..])
              case None => None
              case Some(r) => Some((Open(data[0], r.0), 2 + r.1)))
      case _ => None
  }

  /** The elements up to the end-of-contents octets, and the length of all that. */
  function ParseItems(data: seq<byte>): (r: Option<(seq<Item>, nat)>)
    ensures r.Some? ==> 2 <= r.value.1 <= |data|
    decreases |data|, 1
  {
    if EndOfContents(data) then Some(([], 2))
    else
      match ParseItem(data)
      case None => None
      case Some(first) =>
        match ParseItems(data[first.1..])
        case None => None
        case Some(rest) => Some(([first.0] + rest.0, first.1 + rest.1))
  }

  /** An element of definite length; the length is counted in an `lword`. */
  function Wrap(tag: byte, content: seq<byte>): seq<byte> {
    [tag] + EncodeLength(|content| % LWORD) + content
  }

  /** The element with definite lengths in place of indefinite ones. */
  function Flat(item: Item): seq<byte> {
    match item
    case Plain(tag, content) => Wrap(tag, content)
    case Open(tag, items) => Wrap(tag, FlatAll(items))
  }

  function FlatAll(items: seq<Item>): seq<byte> {
    if items == [] then [] else Flat(items[0]) + FlatAll(items[1..])
  }

  // ----- the decoder and the encoder

  /** A tag and a length that goes with it. */
  predicate StartsWith(data: seq<byte>, tag: byte) {
    && data != [] && data[0] == tag && !Failed(DecodeLength(data[1..]))
    && (DecodeLength(data[1..]).Indefinite? ==> Constructed(tag))
  }

  class BERGeneralDecoder {
    const inQueue: ByteQueue
    var length: nat
    var definiteLength: bool
    var finished: bool

    constructor (inQueue: ByteQueue)
      ensures this.inQueue == inQueue && !finished
    {
      this.inQueue := inQueue;
      length, definiteLength, finished := 0, false, false;
    }

    /** `BERGeneralDecoder::Init`: false for its exceptions. */
    method Init(asnTag: byte) returns (ok: bool)
      modifies this, inQueue
      ensures ok <==> StartsWith(old(inQueue.data), asnTag)
      ensures ok ==> definiteLength == DecodeLength(old(inQueue.data)[1..]).Definite?
      ensures ok && definiteLength ==>
                var d := DecodeLength(old(inQueue.data)[1..]);
                && length == d.length && 1 + d.used <= |old(inQueue.data)|
                && inQueue.data == old(inQueue.data)[1 + d.used..]
      ensures ok && !definiteLength ==> |old(inQueue.data)| >= 2 && inQueue.data == old(inQueue.data)[2..]
    {
      hide DecodeLength;
      ghost var data := inQueue.data;
      var got, b := inQueue.Get();
      if !got || b != asnTag {
        return false;
      }
      assert inQueue.data == data[1..];
      var r := BERLengthDecode(inQueue);
      if Failed(r) {
        return false;
      }
      definiteLength := r.Definite?;
      if r.Definite? {
        length := r.length;
        assert data[1..][r.used..] == data[1 + r.used..];
      } else {
        IndefiniteOctet(data[1..]);
        assert data[1..][1..] == data[2..];
      }
      ok := definiteLength || Constructed(asnTag);
    }

    method EndReached() returns (end: bool)
      ensures end <==> if definiteLength then length == 0 else EndOfContents(inQueue.data)
    {
      if definiteLength {
        end := length == 0;
      } else {
        end := |inQueue.data| >= 2 && Word16(inQueue.data[0], inQueue.data[1]) == 0;
      }
    }

    /** `TransferTo` with the remaining length of an element of definite length */
    method TransferRemaining(target: ByteQueue)
      requires definiteLength && target != inQueue
      modifies this`length, inQueue, target
      ensures var n := if old(length) <= |old(inQueue.data)| then old(length) else |old(inQueue.data)|;
              && target.data == old(target.data) + old(inQueue.data)[..n]
              && inQueue.data == old(inQueue.data)[n..] && length == old(length) - n
    {
      var s := inQueue.GetAll(length);
      target.PutAll(s);
      length := length - |s|;
    }

    /** `MessageEnd`: false for its exceptions. */
    method MessageEnd() returns (ok: bool)
      modifies this`finished, inQueue
      ensures finished
      ensures definiteLength ==> (ok <==> length == 0) && inQueue.data == old(inQueue.data)
      ensures !definiteLength ==> (ok <==> EndOfContents(old(inQueue.data)))
      ensures !definiteLength && ok ==> inQueue.data == old(inQueue.data)[2..]
    {
      finished := true;
      if definiteLength {
        ok := length == 0;
      } else {
        var s := inQueue.GetAll(2);
        ok := |s| == 2 && Word16(s[0], s[1]) == 0;
      }
    }
  }

  lemma IndefiniteOctet(data: seq<byte>)
    requires DecodeLength(data).Indefinite?
    ensures data != []
  {
  }

  class DERGeneralEncoder {
    const outQueue: ByteQueue
    const asnTag: byte
    /** The encoder's own queue. */
    const queue: ByteQueue
    var finished: bool

    constructor (outQueue: ByteQueue, asnTag: byte)
      ensures this.outQueue == outQueue && this.asnTag == asnTag && fresh(queue) && queue.data == [] && !finished
    {
      this.outQueue, this.asnTag, finished := outQueue, asnTag, false;
      queue := new ByteQueue();
    }

    method MessageEnd()
      requires queue != outQueue
      modifies this`finished, outQueue, queue
      ensures finished && queue.data == [] && outQueue.data == old(outQueue.data) + Wrap(asnTag, old(queue.data))
    {
      hide EncodeLength;
      finished := true;
      var length := |queue.data| % LWORD;
      outQueue.Put(asnTag);
      var n := DERLengthEncode(outQueue, length);
      var s := queue.GetAll(|queue.data|);
      outQueue.PutAll(s);
    }
  }

  /** `DERReencode`: false for its exceptions.  An element of indefinite length neither
      limits nor counts what is read through its decoder, so the elements in it are read
      from the same queue. */
  method DERReencode(source: ByteQueue, dest: ByteQueue) returns (ok: bool)
    requires source != dest
    modifies source, dest
    ensures ok <==> ParseItem(old(source.data)).Some?
    ensures ok ==> var r := ParseItem(old(source.data)).value;
                   source.data == old(source.data)[r.1..] && dest.data == old(dest.data) + Flat(r.0)
    decreases |source.data|, 0
  {
    hide *;
    ghost var data := source.data;
    var tag: byte := if source.data == [] then 0 else source.data[0];
    var decoder := new BERGeneralDecoder(source);
    var encoder := new DERGeneralEncoder(dest, tag);
    ItemStart(data, tag);
    ok := decoder.Init(tag);
    if !ok {
      return;
    }
    if decoder.definiteLength {
      ok := TransferContents(decoder, encoder.queue, data);
    } else {
      ok := ReencodeContents(decoder, encoder.queue, data);
    }
    if !ok {
      return;
    }
    encoder.MessageEnd();
    WrapContents(ParseItem(data).value.0);
  }

  /** Contents of definite length are copied; `MessageEnd` fails if some are missing. */
  method TransferContents(decoder: BERGeneralDecoder, target: ByteQueue, ghost data: seq<byte>) returns (ok: bool)
    requires decoder.definiteLength && target != decoder.inQueue && target.data == [] && data != []
    requires var d := DecodeLength(data[1..]);
             && d.Definite? && decoder.length == d.length && 1 + d.used <= |data|
             && decoder.inQueue.data == data[1 + d.used..]
    modifies decoder, decoder.inQueue, target
    ensures ok <==> ParseItem(data).Some?
    ensures ok ==> var r := ParseItem(data).value; target.data == Contents(r.0) && decoder.inQueue.data == data[r.1..]
  {
    hide *;
    ghost var d := DecodeLength(data[1..]);
    PlainItem(data);
    decoder.TransferRemaining(target);
    ok := decoder.MessageEnd();
    if ok {
      assert data[1 + d.used..][..d.length] == data[1 + d.used..1 + d.used + d.length];
      assert data[1 + d.used..][d.length..] == data[1 + d.used + d.length..];
    }
  }

  /** Contents of indefinite length are re-encoded; `MessageEnd` removes what ends them. */
  method ReencodeContents(decoder: BERGeneralDecoder, target: ByteQueue, ghost data: seq<byte>) returns (ok: bool)
    requires !decoder.definiteLength && target != decoder.inQueue && target.data == [] && |data| >= 2
    requires DecodeLength(data[1..]).Indefinite? && Constructed(data[0]) && decoder.inQueue.data == data[2..]
    modifies decoder, decoder.inQueue, target
    ensures ok <==> ParseItem(data).Some?
    ensures ok ==> var r := ParseItem(data).value; target.data == Contents(r.0) && decoder.inQueue.data == data[r.1..]
    decreases |decoder.inQueue.data|, 2
  {
    hide *;
    OpenItem(data);
    ok := ReencodeItems(decoder, target);
    if !ok {
      return;
    }
    ok := decoder.MessageEnd();
    ghost var n := ParseItems(data[2..]).value.1;
    assert data[2..][n - 2..][2..] == data[2 + n..];
  }

  /** The contents octets of the definite form. */
  function Contents(item: Item): seq<byte> {
    match item
    case Plain(_, content) => content
    case Open(_, items) => FlatAll(items)
  }

  lemma WrapContents(item: Item)
    ensures Flat(item) == Wrap(item.tag, Contents(item))
  {
  }

  lemma ItemStart(data: seq<byte>, tag: byte)
    requires data != [] ==> tag == data[0]
    ensures !StartsWith(data, tag) ==> ParseItem(data) == None
    ensures StartsWith(data, tag) ==> data != [] && var d := DecodeLength(data[1..]); d.Definite? || d.Indefinite?
    ensures StartsWith(data, tag) && DecodeLength(data[1..]).Indefinite? ==> Constructed(tag)
    ensures ParseItem(data).Some? ==> ParseItem(data).value.0.tag == tag
  {
    hide DecodeLength, ParseItems;
  }

  lemma PlainItem(data: seq<byte>)
    requires data != [] && DecodeLength(data[1..]).Definite?
    ensures var d := DecodeLength(data[1..]);
            && (ParseItem(data).Some? <==> |data| >= 1 + d.used + d.length)
            && (ParseItem(data).Some? ==> ParseItem(data).value.1 == 1 + d.used + d.length)
            && (ParseItem(data).Some? ==>
                  Contents(ParseItem(data).value.0) == data[1 + d.used..1 + d.used + d.length])
  {
    hide DecodeLength, ParseItems;
  }

  lemma OpenItem(data: seq<byte>)
    requires |data| >= 2 && DecodeLength(data[1..]).Indefinite? && Constructed(data[0])
    ensures ParseItem(data).Some? <==> ParseItems(data[2..]).Some?
    ensures ParseItem(data).Some? ==> ParseItem(data).value.1 == 2 + ParseItems(data[2..]).value.1
    ensures ParseItem(data).Some? ==> Contents(ParseItem(data).value.0) == FlatAll(ParseItems(data[2..]).value.0)
  {
    hide DecodeLength, ParseItems, FlatAll;
  }

  /** The loop of `DERReencode`, up to the end-of-contents octets */
  method ReencodeItems(decoder: BERGeneralDecoder, target: ByteQueue) returns (ok: bool)
    requires !decoder.definiteLength && target != decoder.inQueue
    modifies decoder.inQueue, target
    ensures ok <==> ParseItems(old(decoder.inQueue.data)).Some?
    ensures ok ==> var r := ParseItems(old(decoder.inQueue.data)).value;
                   && decoder.inQueue.data == old(decoder.inQueue.data)[r.1 - 2..]
                   && EndOfContents(decoder.inQueue.data) && target.data == old(target.data) + FlatAll(r.0)
    decreases |decoder.inQueue.data|, 1
  {
    hide ParseItem, ParseItems, Flat, FlatAll;
    var queue := decoder.inQueue;
    ghost var all, n, done := queue.data, 0, [];
    assert all[0..] == all;
    while true
      invariant 0 <= n <= |all| && queue.data == all[n..] && target.data == old(target.data) + done
      invariant ParseItems(all).Some? <==> ParseItems(queue.data).Some?
      invariant ParseItems(all).Some? ==> ParseItems(all).value.1 == n + ParseItems(queue.data).value.1
      invariant ParseItems(all).Some? ==>
                FlatAll(ParseItems(all).value.0) == done + FlatAll(ParseItems(queue.data).value.0)
      decreases |queue.data|
    {
      var end := decoder.EndReached();
      if end {
        NoItems(queue.data);
        return true;
      }
      NextItem(queue.data);
      ghost var before := queue.data;
      ok := DERReencode(queue, target);
      if !ok {
        return;
      }
      ghost var r := ParseItem(before).value;
      assert all[n..][r.1..] == all[n + r.1..];
      n, done := n + r.1, done + Flat(r.0);
    }
  }

  lemma NoItems(data: seq<byte>)
    requires EndOfContents(data)
    ensures ParseItems(data) == Some(([], 2)) && FlatAll([]) == []
  {
  }

  lemma NextItem(data: seq<byte>)
    requires !EndOfContents(data)
    ensures ParseItems(data).Some? <==> ParseItem(data).Some? && ParseItems(data[ParseItem(data).value.1..]).Some?
    ensures ParseItems(data).Some? ==>
              var first, rest := ParseItem(data).value, ParseItems(data[ParseItem(data).value.1..]).value;
              && ParseItems(data).value.1 == first.1 + rest.1
              && FlatAll(ParseItems(data).value.0) == Flat(first.0) + FlatAll(rest.0)
  {
    if ParseItems(data).Some? {
      var first, rest := ParseItem(data).value, ParseItems(data[ParseItem(data).value.1..]).value;
      assert ([first.0] + rest.0)[1..] == rest.0;
    }
  }

  // ----- the tree an element denotes

  /** A primitive element with its contents, or a constructed one with its elements. */
  datatype Tree = Leaf(tag: byte, content: seq<byte>) | Node(tag: byte, children: seq<Tree>)

  /** The tree of the element the data starts with, and the length of that element:
      contents of constructed elements are read whatever the form of their length. */
  function ParseTree(data: seq<byte>): (r: Option<(Tree, nat)>)
    ensures r.Some? ==> 2 <= r.value.1 <= |data|
    decreases |data|, 0
  {
    if data == [] then None
    else
      match DecodeLength(data[1..])
      case Definite(length, used) =>
        if |data| < 1 + used + length then None
        else
          var content := data[1 + used..1 + used + length];
          if !Constructed(data[0]) then Some((Leaf(data[0], content), 1 + used + length))
          else (match ParseAll(content)
                case None => None
                case Some(ts) => Some((Node(data[0], ts), 1 + used + length)))
      case Indefinite =>
        if !Constructed(data[0]) then None
        else (match ParseOpen(data[2..])
              case None => None
              case Some(r) => Some((Node(data[0], r.0), 2 + r.1)))
      case _ => None
  }

  /** The elements that fill the data. */
  function ParseAll(data: seq<byte>): Option<seq<Tree>>
    decreases |data|, 1
  {
    if data == [] then Some([])
    else
      match ParseTree(data)
      case None => None
      case Some(first) =>
        match ParseAll(data[first.1..])
        case None => None
        case Some(rest) => Some([first.0] + rest)
  }

  /** The elements up to the end-of-contents octets. */
  function ParseOpen(data: seq<byte>): (r: Option<(seq<Tree>, nat)>)
    ensures r.Some? ==> 2 <= r.value.1 <= |data|
    decreases |data|, 1
  {
    if EndOfContents(data) then Some(([], 2))
    else
      match ParseTree(data)
      case None => None
      case Some(first) =>
        match ParseOpen(data[first.1..])
        case None => None
        case Some(rest) => Some(([first.0] + rest.0, first.1 + rest.1))
  }

  /** The definite form starts with its own length. */
  lemma WrapHeader(tag: byte, content: seq<byte>, rest: seq<byte>)
    requires |content| < LWORD
    ensures var d := Wrap(tag, content) + rest; var used := |EncodeLength(|content|)|;
            && d != [] && d[0] == tag && DecodeLength(d[1..]) == Definite(|content|, used)
            && 1 + used + |content| == |Wrap(tag, content)| && d[1 + used..1 + used + |content|] == content
  {
    hide EncodeLength, DecodeLength;
    SmallLength(|content|);
    var d, code := Wrap(tag, content) + rest, EncodeLength(|content|);
    assert d[1..] == code + (content + rest);
    LengthRoundTrip(|content|, content + rest);
  }

  lemma SmallLength(n: nat)
    requires n < LWORD
    ensures n % LWORD == n
  {
  }

  /** What is read from a definite form: its contents decide. */
  lemma TreeOfWrap(tag: byte, content: seq<byte>, rest: seq<byte>)
    requires |content| < LWORD
    ensures var r := ParseTree(Wrap(tag, content) + rest);
            if !Constructed(tag) then r == Some((Leaf(tag, content), |Wrap(tag, content)|))
            else if ParseAll(content).None? then r == None
            else r == Some((Node(tag, ParseAll(content).value), |Wrap(tag, content)|))
  {
    hide EncodeLength, DecodeLength, ParseAll, Wrap;
    WrapHeader(tag, content, rest);
  }

  /** Same tree, from the element and from its definite form; the same malformed contents, too. */
  lemma {:induction false} TreePreserved(data: seq<byte>, rest: seq<byte>)
    requires ParseItem(data).Some? && |Flat(ParseItem(data).value.0)| < LWORD
    ensures var r := ParseItem(data).value; var t, u := ParseTree(data), ParseTree(Flat(r.0) + rest);
            && (t.Some? <==> u.Some?)
            && (t.Some? ==> t.value.0 == u.value.0 && t.value.1 == r.1 && u.value.1 == |Flat(r.0)|)
    decreases |data|, 0
  {
    hide EncodeLength, DecodeLength, ParseAll, FlatAll;
    var r := ParseItem(data).value;
    var content := if r.0.Plain? then r.0.content else FlatAll(r.0.items);
    assert |content| < LWORD;
    TreeOfWrap(data[0], content, rest);
    if r.0.Open? { TreesPreserved(data[2..]); }
  }

  lemma {:induction false} TreesPreserved(data: seq<byte>)
    requires ParseItems(data).Some? && |FlatAll(ParseItems(data).value.0)| < LWORD
    ensures var r := ParseItems(data).value; var t, u := ParseOpen(data), ParseAll(FlatAll(r.0));
            && (t.Some? <==> u.Some?)
            && (t.Some? ==> t.value.0 == u.value && t.value.1 == r.1)
    decreases |data|, 1
  {
    hide ParseItem, ParseTree, Flat;
    if !EndOfContents(data) {
      NextItem(data);
      var first := ParseItem(data).value;
      var rest := ParseItems(data[first.1..]).value;
      TreePreserved(data, FlatAll(rest.0));
      TreesPreserved(data[first.1..]);
      var flat := Flat(first.0) + FlatAll(rest.0);
      assert FlatAll(ParseItems(data).value.0) == flat;
      assert flat[|Flat(first.0)|..] == FlatAll(rest.0);
      FlatNotEmpty(first.0);
    }
  }

  lemma FlatNotEmpty(item: Item)
    ensures Flat(item) != []
  {
  }

  /** Whatever denotes a tree is accepted, to the same length. */
  lemma {:induction false} TreeAccepted(data: seq<byte>)
    requires ParseTree(data).Some?
    ensures ParseItem(data).Some? && ParseItem(data).value.1 == ParseTree(data).value.1
    decreases |data|, 0
  {
    hide DecodeLength, ParseAll;
    if DecodeLength(data[1..]).Indefinite? { OpenAccepted(data[2..]); }
  }

  lemma {:induction false} OpenAccepted(data: seq<byte>)
    requires ParseOpen(data).Some?
    ensures ParseItems(data).Some? && ParseItems(data).value.1 == ParseOpen(data).value.1
    decreases |data|, 1
  {
    hide ParseItem, ParseTree;
    if !EndOfContents(data) {
      TreeAccepted(data);
      OpenAccepted(data[ParseTree(data).value.1..]);
    }
  }

  /** `DERReencode` of an element that denotes a tree: one element of definite length that
      denotes the same tree, and that `DERReencode` leaves as it is. */
  lemma ReencodeDenotesSame(data: seq<byte>, rest: seq<byte>)
    requires ParseTree(data).Some?
    ensures ParseItem(data).Some? && ParseItem(data).value.1 == ParseTree(data).value.1
    ensures var flat := Flat(ParseItem(data).value.0);
            |flat| < LWORD ==>
              && ParseTree(flat + rest).Some? && ParseTree(flat + rest).value.0 == ParseTree(data).value.0
              && ParseTree(flat + rest).value.1 == |flat|
              && ParseItem(flat + rest).Some? && ParseItem(flat + rest).value.0.Plain?
              && Flat(ParseItem(flat + rest).value.0) == flat
  {
    hide ParseTree, DecodeLength, EncodeLength, FlatAll, ParseItems;
    TreeAccepted(data);
    var item := ParseItem(data).value.0;
    if |Flat(item)| < LWORD {
      TreePreserved(data, rest);
      var content := if item.Plain? then item.content else FlatAll(item.items);
      WrapHeader(item.tag, content, rest);
    }
  }

  // ----- when the output has no indefinite length

  /** The data starts with the header of an element of definite length, and all of it is there. */
  predicate DefiniteHeader(data: seq<byte>) {
    && data != [] && DecodeLength(data[1..]).Definite?
    && 1 + DecodeLength(data[1..]).used + DecodeLength(data[1..]).length <= |data|
  }

  function ElementLength(data: seq<byte>): (n: nat)
    requires DefiniteHeader(data)
    ensures 1 <= n <= |data|
  {
    1 + DecodeLength(data[1..]).used + DecodeLength(data[1..]).length
  }

  /** An element whose lengths are definite, down to its leaves. */
  predicate DefiniteForm(data: seq<byte>)
    decreases |data|, 0
  {
    && DefiniteHeader(data)
    && (Constructed(data[0]) ==> DefiniteForms(data[1 + DecodeLength(data[1..]).used..ElementLength(data)]))
  }

  predicate DefiniteForms(data: seq<byte>)
    decreases |data|, 1
  {
    data == [] || (DefiniteForm(data) && DefiniteForms(data[ElementLength(data)..]))
  }

  /** What is copied, below elements of indefinite length, has no indefinite length inside. */
  predicate CopiedDefinite(item: Item) {
    match item
    case Plain(tag, content) => Constructed(tag) ==> DefiniteForms(content)
    case Open(tag, items) => Constructed(tag) ==> CopiedAllDefinite(items)
  }

  predicate CopiedAllDefinite(items: seq<Item>) {
    items == [] || (CopiedDefinite(items[0]) && CopiedAllDefinite(items[1..]))
  }

  lemma WrapDefinite(tag: byte, content: seq<byte>, rest: seq<byte>)
    requires |content| < LWORD
    ensures var d := Wrap(tag, content) + rest;
            && DefiniteHeader(d) && ElementLength(d) == |Wrap(tag, content)|
            && (DefiniteForm(d) <==> Constructed(tag) ==> DefiniteForms(content))
  {
    hide EncodeLength, DecodeLength, DefiniteForms, Wrap;
    WrapHeader(tag, content, rest);
  }

  lemma {:induction false} FlatDefinite(item: Item, rest: seq<byte>)
    requires |Flat(item)| < LWORD
    ensures DefiniteForm(Flat(item) + rest) <==> CopiedDefinite(item)
    ensures DefiniteHeader(Flat(item) + rest) && ElementLength(Flat(item) + rest) == |Flat(item)|
    decreases item
  {
    hide EncodeLength, DefiniteForm, DefiniteForms, DefiniteHeader, ElementLength;
    WrapContents(item);
    WrapDefinite(item.tag, Contents(item), rest);
    if item.Open? { FlatAllDefinite(item.items); }
  }

  lemma {:induction false} FlatAllDefinite(items: seq<Item>)
    requires |FlatAll(items)| < LWORD
    ensures DefiniteForms(FlatAll(items)) <==> CopiedAllDefinite(items)
    decreases items
  {
    hide Flat, DefiniteForm, DefiniteHeader, ElementLength, CopiedDefinite;
    if items != [] {
      var first, more := Flat(items[0]), FlatAll(items[1..]);
      FlatDefinite(items[0], more);
      FlatAllDefinite(items[1..]);
      assert (first + more)[|first|..] == more;
      FlatNotEmpty(items[0]);
    }
  }

  /** The output of `DERReencode` has definite lengths throughout exactly when what it copied had. */
  lemma ReencodeDefinite(data: seq<byte>, rest: seq<byte>)
    requires ParseItem(data).Some? && |Flat(ParseItem(data).value.0)| < LWORD
    ensures DefiniteForm(Flat(ParseItem(data).value.0) + rest) <==> CopiedDefinite(ParseItem(data).value.0)
  {
    hide ParseItem, Flat, DefiniteForm, CopiedDefinite;
    FlatDefinite(ParseItem(data).value.0, rest);
  }

  /** An indefinite length in an element of definite length stays. */
  lemma IndefiniteStays()
    ensures var data: seq<byte> := [0x30, 4, 0x30, 0x80, 0, 0];
            && ParseTree(data) == Some((Node(0x30, [Node(0x30, [])]), 6))
            && ParseItem(data) == Some((Plain(0x30, [0x30, 0x80, 0, 0]), 6))
            && Flat(ParseItem(data).value.0) == data && !DefiniteForm(data)
  {
    var data: seq<byte> := [0x30, 4, 0x30, 0x80, 0, 0];
    var content: seq<byte> := [0x30, 0x80, 0, 0];
    assert data[1..] == [4, 0x30, 0x80, 0, 0] && DecodeLength(data[1..]) == Definite(4, 1);
    assert data[2..6] == content;
    InnerTree(content);
    assert EncodeLength(4) == [4];
  }

  lemma InnerTree(content: seq<byte>)
    requires content == [0x30, 0x80, 0, 0]
    ensures ParseAll(content) == Some([Node(0x30, [])]) && !DefiniteForms(content)
  {
    assert content[1..] == [0x80, 0, 0] && DecodeLength(content[1..]) == Indefinite;
    assert content[2..] == [0, 0] && ParseOpen(content[2..]) == Some(([], 2));
    assert ParseTree(content) == Some((Node(0x30, []), 4));
    assert content[4..] == [] && ParseAll(content[4..]) == Some([]);
    assert [Node(0x30, [])] + [] == [Node(0x30, [])];
  }
}
