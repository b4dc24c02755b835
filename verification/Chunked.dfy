/** Chunked bodies in httplib.h: the loop that writes a streamed response and the reader,
    after section 4.1 of RFC 7230. */
module Chunked {
  import opened Bytes
  import opened Options

  const NUL: byte := 0
  const LF: byte := 10
  const CR: byte := 13
  const CRLF: seq<byte> := [CR, LF]
  const INT_MAX := 0x7fff_ffff

  /** A connection without errors: a read gives some of the bytes that are left. */
  class Stream {
    var data: seq<byte>

    constructor (data: seq<byte>)
      ensures this.data == data
    {
      this.data := data;
    }

    method Read(max: nat) returns (got: seq<byte>)
      modifies this
      ensures got + data == old(data) && |got| <= max
      ensures got == [] <==> max == 0 || old(data) == []
    {
      if max == 0 || data == [] {
        return [];
      }
      assert 1 <= 1 <= max && 1 <= |data|;
      var k :| 1 <= k <= max && k <= |data|;
      got, data := data[..k], data[k..];
    }

    method Write(s: seq<byte>)
      modifies this
      ensures data == old(data) + s
    {
      data := data + s;
    }
  }

  // ----- lines

  /** Up to the first line feed, with it; all of the data if there is none. */
  function Line(data: seq<byte>): (line: seq<byte>)
    ensures line <= data && (data != [] ==> line != [])
  {
    if data == [] then [] else if data[0] == LF then [LF] else [data[0]] + Line(data[1..])
  }

  /** The characters before a terminating zero. */
  function CString(s: seq<byte>): seq<byte> {
    if s == [] || s[0] == NUL then [] else [s[0]] + CString(s[1..])
  }

  lemma {:induction false} LineStop(a: seq<byte>, rest: seq<byte>)
    requires forall i :: 0 <= i < |a| ==> a[i] != LF
    ensures Line(a + [LF] + rest) == a + [LF]
    decreases |a|
  {
    var data := a + [LF] + rest;
    if a != [] {
      LineStop(a[1..], rest);
      assert data[1..] == a[1..] + [LF] + rest;
      assert a == [a[0]] + a[1..];
    }
  }

  lemma {:induction false} LineWhole(a: seq<byte>)
    requires forall i :: 0 <= i < |a| ==> a[i] != LF
    ensures Line(a) == a
    decreases |a|
  {
    if a != [] {
      LineWhole(a[1..]);
      assert a == [a[0]] + a[1..];
    }
  }

  lemma {:induction false} CStringStop(s: seq<byte>, rest: seq<byte>)
    ensures CString(s + [NUL] + rest) == CString(s)
    decreases |s|
  {
    var all := s + [NUL] + rest;
    if s != [] {
      CStringStop(s[1..], rest);
      assert all[1..] == s[1..] + [NUL] + rest;
    }
  }

  lemma {:induction false} CStringWhole(s: seq<byte>)
    requires forall i :: 0 <= i < |s| ==> s[i] != NUL
    ensures CString(s) == s
    decreases |s|
  {
    if s != [] {
      CStringWhole(s[1..]);
      assert s == [s[0]] + s[1..];
    }
  }

  /** `stream_line_reader`: a fixed buffer first, a growing one for longer lines. */
  class LineReader {
    const strm: Stream
    const fixed: array<byte>
    var used: nat
    var growable: seq<byte>

    ghost predicate Valid()
      reads this, fixed
    {
      && used < fixed.Length && (0 < used ==> fixed[used] == NUL)
      && (growable != [] ==> used == fixed.Length - 1)
    }

    /** The line read so far. */
    ghost function Content(): seq<byte>
      requires Valid()
      reads this, fixed
    {
      if growable == [] then fixed[..used] else growable
    }

    constructor (strm: Stream, fixed: array<byte>)
      requires fixed.Length > 0
      ensures Valid() && this.strm == strm && this.fixed == fixed
    {
      this.strm, this.fixed, used, growable := strm, fixed, 0, [];
    }

    /** `ptr`, read as a string: whichever buffer holds the line, it is the line. */
    method Text() returns (s: seq<byte>)
      requires Valid() && Content() != []
      ensures s == CString(Content())
    {
      if growable == [] {
        CStringStop(fixed[..used], fixed[used + 1..]);
        assert fixed[..] == fixed[..used] + [NUL] + fixed[used + 1..];
        s := CString(fixed[..]);
      } else {
        s := CString(growable);
      }
    }

    method Append(c: byte)
      requires Valid()
      modifies this, fixed
      ensures Valid() && Content() == old(Content()) + [c]
    {
      if used < fixed.Length - 1 {
        fixed[used] := c;
        used := used + 1;
        fixed[used] := NUL;
      } else {
        if growable == [] {
          growable := fixed[..used];
        }
        growable := growable + [c];
      }
    }

    method Clear()
      requires Valid()
      modifies this
      ensures Valid() && Content() == []
    {
      used, growable := 0, [];
    }

    /** `getline` */
    method GetLine() returns (ok: bool)
      requires Valid()
      modifies this, fixed, strm
      ensures Valid() && (ok <==> old(strm.data) != [])
      ensures ok ==> Content() == Line(old(strm.data)) && strm.data == old(strm.data)[|Content()|..]
      ensures !ok ==> strm.data == []
    {
      hide *;
      Clear();
      ghost var all := strm.data;
      var i := 0;
      while true
        invariant Valid() && i == |Content()| && Content() + strm.data == all
        invariant forall k :: 0 <= k < i ==> Content()[k] != LF
        decreases |strm.data|
      {
        var got := strm.Read(1);
        if |got| == 0 {
          if i == 0 {
            return false;
          }
          LineWhole(all);
          assert Content() == all;
          break;
        }
        ghost var before := Content();
        Append(got[0]);
        i := i + 1;
        if got[0] == LF {
          LineStop(before, strm.data);
          assert all == before + [LF] + strm.data;
          break;
        }
      }
      return true;
    }
  }

  // ----- hexadecimal numbers

  function HexChar(d: nat): byte
    requires d < 16
  {
    if d < 10 then 48 + d else 87 + d
  }

  function Hex(n: nat): (s: seq<byte>)
    ensures s != []
  {
    if n < 16 then [HexChar(n)] else Hex(n / 16) + [HexChar(n % 16)]
  }

  /** `from_i_to_hex` */
  method FromIToHex(n0: nat) returns (ret: seq<byte>)
    ensures ret == Hex(n0)
  {
    var n := n0;
    ret := [HexChar(n % 16)];
    n := n / 16;
    while n > 0
      invariant Hex(n0) == if n > 0 then Hex(n) + ret else ret
    {
      ret := [HexChar(n % 16)] + ret;
      n := n / 16;
    }
  }

  predicate IsSpace(c: byte) { c == 32 || 9 <= c <= 13 }

  /** The value of a hexadecimal digit of either case, or -1. */
  function HexDigit(c: byte): int {
    if 48 <= c <= 57 then c - 48 else if 97 <= c <= 102 then c - 87 else if 65 <= c <= 70 then c - 55 else -1
  }

  function SkipSpace(s: seq<byte>): seq<byte> {
    if s != [] && IsSpace(s[0]) then SkipSpace(s[1..]) else s
  }

  function DigitCount(s: seq<byte>): (n: nat)
    ensures n <= |s| && forall i :: 0 <= i < n ==> HexDigit(s[i]) >= 0
  {
    if s != [] && HexDigit(s[0]) >= 0 then 1 + DigitCount(s[1..]) else 0
  }

  /** The number the digits of a string make. */
  function HexValue(s: seq<byte>): nat {
    if s == [] then 0
    else
      var d := HexDigit(s[|s| - 1]);
      16 * HexValue(s[..|s| - 1]) + if d >= 0 then d else 0
  }

  function SkipPrefix(s: seq<byte>): seq<byte> {
    if |s| >= 3 && s[0] == 48 && (s[1] == 120 || s[1] == 88) && HexDigit(s[2]) >= 0 then s[2..] else s
  }

  /** `std::stoi` in base 16: `None` for its exceptions. */
  function Stoi(s: seq<byte>): Option<int> {
    var t := SkipSpace(s);
    var negative := t != [] && t[0] == 45;
    var u := SkipPrefix(if t != [] && (t[0] == 45 || t[0] == 43) then t[1..] else t);
    var n := DigitCount(u);
    var v: int := if negative then -(HexValue(u[..n]) as int) else HexValue(u[..n]);
    if n == 0 || v > INT_MAX || v < -INT_MAX - 1 then None else Some(v)
  }

  /** A digit of `Hex` is a digit, and none of the characters with a meaning of their own. */
  predicate Plain(c: byte) {
    c != NUL && c != LF && !IsSpace(c) && c != 45 && c != 43 && c != 120 && c != 88 && HexDigit(c) >= 0
  }

  lemma {:induction false} HexPlain(n: nat)
    ensures forall i :: 0 <= i < |Hex(n)| ==> Plain(Hex(n)[i])
    ensures HexValue(Hex(n)) == n
  {
    if n < 16 {
      assert HexValue(Hex(n)[..0]) == 0;
    } else {
      HexPlain(n / 16);
      assert Hex(n)[..|Hex(n)| - 1] == Hex(n / 16);
    }
  }

  lemma {:induction false} DigitCountStop(s: seq<byte>, rest: seq<byte>)
    requires forall i :: 0 <= i < |s| ==> HexDigit(s[i]) >= 0
    requires rest != [] && HexDigit(rest[0]) < 0
    ensures DigitCount(s + rest) == |s|
    decreases |s|
  {
    if s == [] {
      assert s + rest == rest;
    } else {
      DigitCountStop(s[1..], rest);
      assert (s + rest)[1..] == s[1..] + rest;
    }
  }

  /** A size line is read back exactly when the size fits an `int`. */
  lemma StoiHex(n: nat)
    ensures Stoi(Hex(n) + CRLF) == if n <= INT_MAX then Some(n) else None
  {
    hide Hex, HexValue;
    HexPlain(n);
    var s := Hex(n) + CRLF;
    assert Plain(s[0]);
    assert |Hex(n)| >= 2 ==> Plain(s[1]);
    assert SkipSpace(s) == s;
    assert SkipPrefix(s) == s;
    DigitCountStop(Hex(n), CRLF);
    assert s[..|Hex(n)|] == Hex(n);
  }

  /** The line that carries a size. */
  lemma SizeLine(n: nat, rest: seq<byte>)
    ensures var data := Hex(n) + CRLF + rest;
            && Line(data) == CString(Line(data)) == Hex(n) + CRLF && data[|Hex(n) + CRLF|..] == rest
  {
    hide Hex, Line, CString;
    HexPlain(n);
    LineStop(Hex(n) + [CR], rest);
    assert Hex(n) + CRLF + rest == Hex(n) + [CR] + [LF] + rest;
    assert Hex(n) + CRLF == Hex(n) + [CR] + [LF];
    CStringWhole(Hex(n) + CRLF);
  }

  lemma EndLine(rest: seq<byte>)
    ensures var data := CRLF + rest; Line(data) == CString(Line(data)) == CRLF && data[2..] == rest
  {
    hide Line, CString;
    LineStop([CR], rest);
    assert CRLF + rest == [CR] + [LF] + rest && CRLF == [CR] + [LF];
    CStringWhole(CRLF);
  }

  // ----- the reader

  /** How reading a body ends: with a result, or with an exception of `std::stoi`. */
  datatype Outcome = Returned(ok: bool, body: seq<byte>, rest: seq<byte>) | Thrown

  function After(body: seq<byte>, o: Outcome): Outcome {
    match o
    case Returned(ok, b, rest) => Returned(ok, body + b, rest)
    case Thrown => Thrown
  }

  /** From a size line on. */
  function ReadBody(data: seq<byte>): Outcome
    decreases |data|, 1
  {
    if data == [] then Returned(false, [], [])
    else
      match Stoi(CString(Line(data)))
      case None => Thrown
      case Some(length) => ReadChunk(length, data[|Line(data)|..])
  }

  /** From the data of a chunk on; a chunk that its line end does not follow is dropped. */
  function ReadChunk(length: int, data: seq<byte>): Outcome
    decreases |data|, 0
  {
    if length > 0 then
      if |data| <= length then Returned(false, [], [])
      else
        var line := Line(data[length..]);
        var rest := data[length..][|line|..];
        if CString(line) != CRLF then Returned(true, [], rest) else After(data[..length], ReadBody(rest))
    else if length == 0 then
      var line := Line(data);
      Returned(data != [] && CString(line) == CRLF, [], data[|line|..])
    else Returned(true, [], data)
  }

  /** `read_content_with_length` */
  method ReadContentWithLength(strm: Stream, len: nat) returns (ok: bool, out: seq<byte>)
    modifies strm
    ensures ok <==> len <= |old(strm.data)|
    ensures ok ==> out == old(strm.data)[..len] && strm.data == old(strm.data)[len..]
    ensures !ok ==> strm.data == []
  {
    out := [];
    while |out| < len
      invariant |out| <= len && out + strm.data == old(strm.data)
    {
      var got := strm.Read(len - |out|);
      if |got| == 0 {
        return false, out;
      }
      out := out + got;
    }
    return true, out;
  }

  /** A line that must hold a number: `None` without a line, an error if it holds none */
  method ReadSize(reader: LineReader) returns (line: bool, size: Option<int>)
    requires reader.Valid()
    modifies reader, reader.fixed, reader.strm
    ensures reader.Valid() && (line <==> old(reader.strm.data) != [])
    ensures !line ==> reader.strm.data == []
    ensures line ==> size == Stoi(CString(Line(old(reader.strm.data))))
    ensures line ==> |reader.strm.data| < |old(reader.strm.data)|
                     && reader.strm.data == old(reader.strm.data)[|Line(old(reader.strm.data))|..]
  {
    hide *;
    size := None;
    line := reader.GetLine();
    if line {
      var text := reader.Text();
      size := Stoi(text);
    }
  }

  /** A line compared with the end of a line */
  method ReadEnd(reader: LineReader) returns (line: bool, end: bool)
    requires reader.Valid()
    modifies reader, reader.fixed, reader.strm
    ensures reader.Valid() && (line <==> old(reader.strm.data) != [])
    ensures !line ==> reader.strm.data == []
    ensures line ==> (end <==> CString(Line(old(reader.strm.data))) == CRLF)
    ensures line ==> reader.strm.data == old(reader.strm.data)[|Line(old(reader.strm.data))|..]
  {
    hide *;
    end := false;
    line := reader.GetLine();
    if line {
      var text := reader.Text();
      end := text == CRLF;
    }
  }

  /** `read_content_chunked` */
  method ReadContentChunked(strm: Stream) returns (r: Outcome)
    modifies strm
    ensures r == ReadBody(old(strm.data))
    ensures r.Returned? ==> r.rest == strm.data
  {
    hide Line, CString, Stoi, LineReader.Valid;
    var buf := new byte[16](i => 0);
    var reader := new LineReader(strm, buf);
    var line, size := ReadSize(reader);
    if !line {
      return Returned(false, [], []);
    }
    if size.None? {
      return Thrown;
    }
    AfterNothing(ReadBody(old(strm.data)));
    r := ReadChunks(reader, size.value, old(strm.data));
  }

  /** The loop of `read_content_chunked` and what follows it */
  method ReadChunks(reader: LineReader, first: int, ghost all: seq<byte>) returns (r: Outcome)
    requires reader.Valid() && ReadBody(all) == After([], ReadChunk(first, reader.strm.data))
    modifies reader, reader.fixed, reader.strm
    ensures r == ReadBody(all)
    ensures r.Returned? ==> r.rest == reader.strm.data
  {
    hide Line, CString, Stoi, LineReader.Valid;
    var strm, length, out := reader.strm, first, [];
    while length > 0
      invariant reader.Valid() && ReadBody(all) == After(out, ReadChunk(length, strm.data))
      decreases |strm.data|
    {
      var ok, chunk := ReadContentWithLength(strm, length);
      if !ok {
        return Returned(false, out, []);
      }
      var line, end := ReadEnd(reader);
      if !line {
        return Returned(false, out, []);
      }
      if !end {
        return Returned(true, out, strm.data);
      }
      AfterTwice(out, chunk, ReadBody(strm.data));
      out := out + chunk;
      var size;
      line, size := ReadSize(reader);
      if !line {
        return Returned(false, out, []);
      }
      if size.None? {
        return Thrown;
      }
      length := size.value;
    }
    if length == 0 {
      var line, end := ReadEnd(reader);
      if !line {
        return Returned(false, out, []);
      }
      return Returned(end, out, strm.data);
    }
    return Returned(true, out, strm.data);
  }

  lemma AfterNothing(o: Outcome)
    ensures After([], o) == o
  {
    if o.Returned? { assert [] + o.body == o.body; }
  }

  lemma AfterTwice(a: seq<byte>, b: seq<byte>, o: Outcome)
    ensures After(a, After(b, o)) == After(a + b, o)
  {
    if o.Returned? { assert a + (b + o.body) == a + b + o.body; }
  }

  // ----- the writer

  /** One chunk with its size line and its line end. */
  function Frame(chunk: seq<byte>): seq<byte> {
    Hex(|chunk|) + CRLF + chunk + CRLF
  }

  /** What is written for the answers of the callback: all up to the first empty one, and that one. */
  function Written(chunks: seq<seq<byte>>): seq<byte> {
    if chunks == [] || chunks[0] == [] then Frame([]) else Frame(chunks[0]) + Written(chunks[1..])
  }

  /** The body those answers make. */
  function Body(chunks: seq<seq<byte>>): seq<byte> {
    if chunks == [] || chunks[0] == [] then [] else chunks[0] + Body(chunks[1..])
  }

  /** Every size written fits an `int`. */
  predicate SizesFit(chunks: seq<seq<byte>>) {
    chunks == [] || chunks[0] == [] || (|chunks[0]| <= INT_MAX && SizesFit(chunks[1..]))
  }

  /** Section 4.1 of RFC 7230: size in hexadecimal, data, and the empty chunk at the end. */
  lemma KnownText()
    ensures Hex(0) == [48] && Hex(9) == [57] && Hex(26) == [49, 97] && Hex(255) == [102, 102]
    ensures Written([[87, 105, 107, 105], [112, 101, 100, 105, 97]])
         == [52, 13, 10, 87, 105, 107, 105, 13, 10]
            + ([53, 13, 10, 112, 101, 100, 105, 97, 13, 10] + [48, 13, 10, 13, 10])
  {
    var chunks: seq<seq<byte>> := [[87, 105, 107, 105], [112, 101, 100, 105, 97]];
    assert chunks[1..] == [[112, 101, 100, 105, 97]] && chunks[1..][1..] == [];
    assert Written([]) == [48, 13, 10, 13, 10];
    assert Frame(chunks[1]) == [53, 13, 10, 112, 101, 100, 105, 97, 13, 10];
    assert Frame(chunks[0]) == [52, 13, 10, 87, 105, 107, 105, 13, 10];
  }

  /** The loop of `write_response` for a streamed response in chunks: `chunks` are the answers of
      the callback, which has nothing more to say after them. */
  method WriteChunks(strm: Stream, chunks: seq<seq<byte>>)
    modifies strm
    ensures strm.data == old(strm.data) + Written(chunks)
  {
    hide *;
    var i, available := 0, true;
    assert chunks[0..] == chunks;
    while available
      invariant 0 <= i <= |chunks| + 1 && (available ==> i <= |chunks|)
      invariant old(strm.data) + Written(chunks) == if available then strm.data + Written(chunks[i..]) else strm.data
      decreases |chunks| + 1 - i
    {
      var chunk := if i < |chunks| then chunks[i] else [];
      available := |chunk| != 0;
      WrittenStep(chunks, i);
      WriteFrame(strm, chunk);
      i := i + 1;
    }
  }

  method WriteFrame(strm: Stream, chunk: seq<byte>)
    modifies strm
    ensures strm.data == old(strm.data) + Frame(chunk)
  {
    hide Hex;
    var size := FromIToHex(|chunk|);
    strm.Write(size + CRLF + chunk + CRLF);
  }

  lemma WrittenStep(chunks: seq<seq<byte>>, i: nat)
    requires i <= |chunks|
    ensures Written(chunks[i..])
         == if i == |chunks| || chunks[i] == [] then Frame([]) else Frame(chunks[i]) + Written(chunks[i + 1..])
  {
    hide Frame;
    if i < |chunks| { assert chunks[i..][1..] == chunks[i + 1..]; }
  }

  /** Reading one frame. */
  lemma ReadFrame(chunk: seq<byte>, rest: seq<byte>)
    requires chunk != []
    ensures ReadBody(Frame(chunk) + rest) == if |chunk| <= INT_MAX then After(chunk, ReadBody(rest)) else Thrown
  {
    hide Hex, Line, CString, Stoi, ReadBody, After;
    var n := |chunk|;
    var tail := chunk + CRLF + rest;
    SizeLine(n, tail);
    StoiHex(n);
    assert Frame(chunk) + rest == Hex(n) + CRLF + tail;
    ReadBodyStep(Frame(chunk) + rest);
    if n <= INT_MAX {
      EndLine(rest);
      assert tail[n..] == CRLF + rest;
      assert tail[..n] == chunk;
    }
  }

  lemma ReadBodyStep(data: seq<byte>)
    requires data != []
    ensures ReadBody(data) == match Stoi(CString(Line(data)))
                              case None => Thrown
                              case Some(length) => ReadChunk(length, data[|Line(data)|..])
  {
  }

  lemma ReadLast(rest: seq<byte>)
    ensures ReadBody(Frame([]) + rest) == Returned(true, [], rest)
  {
    hide Hex, Line, CString, Stoi, ReadBody;
    var tail := CRLF + rest;
    SizeLine(0, tail);
    StoiHex(0);
    EndLine(rest);
    assert Frame([]) + rest == Hex(0) + CRLF + tail;
    ReadBodyStep(Frame([]) + rest);
  }

  /** Reading what was written gives the body and leaves the bytes after it, exactly when the
      sizes fit an `int`; otherwise reading ends with an exception. */
  lemma {:induction false} ReadWritten(chunks: seq<seq<byte>>, rest: seq<byte>)
    ensures ReadBody(Written(chunks) + rest) == if SizesFit(chunks) then Returned(true, Body(chunks), rest) else Thrown
    decreases |chunks|
  {
    hide Frame, ReadBody;
    if chunks == [] || chunks[0] == [] {
      ReadLast(rest);
    } else {
      var more := Written(chunks[1..]) + rest;
      assert Written(chunks) + rest == Frame(chunks[0]) + more;
      ReadFrame(chunks[0], more);
      ReadWritten(chunks[1..], rest);
    }
  }

  /** A chunk of 2^31 bytes is written and cannot be read. */
  lemma LargeChunkFails(chunk: seq<byte>, rest: seq<byte>)
    requires |chunk| == 0x8000_0000
    ensures ReadBody(Written([chunk]) + rest) == Thrown
  {
    hide ReadBody, Written;
    ReadWritten([chunk], rest);
    assert !SizesFit([chunk]);
  }

  // ----- bodies that are well formed

  /** A size line and the chunk after it. */
  datatype Part = Part(line: seq<byte>, chunk: seq<byte>)

  /** One line, to its line feed, that holds the number n as `std::stoi` reads it. */
  predicate HoldsSize(line: seq<byte>, n: int) {
    line != [] && line[|line| - 1] == LF && LF !in line[..|line| - 1] && Stoi(CString(line)) == Some(n)
  }

  predicate PartsFit(parts: seq<Part>) {
    parts == [] || (parts[0].chunk != [] && HoldsSize(parts[0].line, |parts[0].chunk|) && PartsFit(parts[1..]))
  }

  /** Chunks with their size lines and line ends, a last size line and a line end. */
  function Text(parts: seq<Part>, last: seq<byte>): seq<byte> {
    if parts == [] then last + CRLF else parts[0].line + (parts[0].chunk + CRLF + Text(parts[1..], last))
  }

  function Joined(parts: seq<Part>): seq<byte> {
    if parts == [] then [] else parts[0].chunk + Joined(parts[1..])
  }

  ghost predicate Forms(parts: seq<Part>, last: seq<byte>, data: seq<byte>, body: seq<byte>, rest: seq<byte>) {
    PartsFit(parts) && HoldsSize(last, 0) && data == Text(parts, last) + rest && body == Joined(parts)
  }

  ghost predicate WellFormed(data: seq<byte>, body: seq<byte>, rest: seq<byte>) {
    exists parts, last :: Forms(parts, last, data, body, rest)
  }

  /** Reading comes to a chunk that no line end follows, or to a negative size. */
  predicate Broken(data: seq<byte>) {
    && data != [] && Stoi(CString(Line(data))).Some?
    && var length, more := Stoi(CString(Line(data))).value, data[|Line(data)|..];
       || length < 0
       || (0 < length < |more|
           && var line := Line(more[length..]); CString(line) != CRLF || Broken(more[length..][|line|..]))
  }

  lemma {:induction false} LineOf(data: seq<byte>)
    requires data != []
    ensures LF !in Line(data)[..|Line(data)| - 1]
    ensures Line(data) == data || Line(data)[|Line(data)| - 1] == LF
  {
    if data[0] != LF && |data| > 1 {
      LineOf(data[1..]);
      var line := Line(data[1..]);
      assert ([data[0]] + line)[..|line|] == [data[0]] + line[..|line| - 1];
      if line == data[1..] { assert data == [data[0]] + line; }
    }
  }

  /** A line read as a line end is one. */
  lemma LineEnd(data: seq<byte>)
    requires data != [] && CString(Line(data)) == CRLF
    ensures Line(data) == CRLF
  {
    var line := Line(data);
    LineOf(data);
    CStringPrefix(line);
  }

  lemma {:induction false} CStringPrefix(s: seq<byte>)
    ensures CString(s) <= s
  {
    if s != [] && s[0] != NUL { CStringPrefix(s[1..]); }
  }

  /** A size line is what is read first. */
  lemma SizeLineRead(line: seq<byte>, n: int, rest: seq<byte>)
    requires HoldsSize(line, n)
    ensures Line(line + rest) == line && (line + rest)[|line|..] == rest
  {
    hide Stoi;
    var k := |line| - 1;
    LineStop(line[..k], rest);
    assert line == line[..k] + [LF];
  }

  /** One part read. */
  lemma PartRead(part: Part, rest: seq<byte>)
    requires part.chunk != [] && HoldsSize(part.line, |part.chunk|)
    ensures var data := part.line + (part.chunk + CRLF + rest);
            ReadBody(data) == After(part.chunk, ReadBody(rest)) && (Broken(data) <==> Broken(rest))
  {
    hide Stoi, Line, CString, ReadBody, Broken, After;
    var more, n := part.chunk + CRLF + rest, |part.chunk|;
    SizeLineRead(part.line, n, more);
    EndLine(rest);
    assert more[n..] == CRLF + rest && more[..n] == part.chunk && more[n..][2..] == rest;
    ChunkRead(part.line + more, n, more);
  }

  /** A size and then a chunk with its line end. */
  lemma ChunkRead(data: seq<byte>, n: nat, more: seq<byte>)
    requires data != [] && Stoi(CString(Line(data))) == Some(n) && more == data[|Line(data)|..]
    requires 0 < n < |more| && Line(more[n..]) == CString(Line(more[n..])) == CRLF
    ensures ReadBody(data) == After(more[..n], ReadBody(more[n..][2..])) && (Broken(data) <==> Broken(more[n..][2..]))
  {
    hide Stoi, Line, CString, After;
  }

  /** A well-formed body is read, and nothing of it is broken. */
  lemma {:induction false} FormedRead(parts: seq<Part>, last: seq<byte>, rest: seq<byte>)
    requires PartsFit(parts) && HoldsSize(last, 0)
    ensures var data := Text(parts, last) + rest;
            ReadBody(data) == Returned(true, Joined(parts), rest) && !Broken(data)
    decreases parts
  {
    hide Stoi, Line, CString, ReadBody, Broken, HoldsSize;
    if parts == [] {
      LastRead(last, rest);
    } else {
      FormedRead(parts[1..], last, rest);
      var more := Text(parts[1..], last) + rest;
      PartRead(parts[0], more);
      assert Text(parts, last) + rest == parts[0].line + (parts[0].chunk + CRLF + more);
    }
  }

  lemma LastRead(last: seq<byte>, rest: seq<byte>)
    requires HoldsSize(last, 0)
    ensures var data := last + CRLF + rest; ReadBody(data) == Returned(true, [], rest) && !Broken(data)
  {
    hide Stoi, Line, CString;
    var more := CRLF + rest;
    assert last + CRLF + rest == last + more;
    SizeLineRead(last, 0, more);
    EndLine(rest);
  }

  /** What the reader found at the start of a body. */
  lemma StartSeen(data: seq<byte>, line: seq<byte>, more: seq<byte>)
    requires ReadBody(data).Returned? && ReadBody(data).ok && !Broken(data)
    requires line == Line(data) && more == data[|line|..]
    ensures data != [] && more != [] && Stoi(CString(line)).Some?
    ensures var n := Stoi(CString(line)).value;
            && 0 <= n < |more| && CString(Line(more[n..])) == CRLF
            && (n == 0 ==> ReadBody(data) == Returned(true, [], more[|Line(more)|..]))
            && (n > 0 ==> var rest := more[n..][|Line(more[n..])|..];
                          ReadBody(data) == After(more[..n], ReadBody(rest)) && !Broken(rest))
  {
    hide Stoi, Line, CString, After;
    assert more[0..] == more;
  }

  /** What reading the start of a body says about it. */
  lemma StartRead(data: seq<byte>) returns (line: seq<byte>, n: nat, chunk: seq<byte>, rest: seq<byte>)
    requires ReadBody(data).Returned? && ReadBody(data).ok && !Broken(data)
    ensures HoldsSize(line, n) && |chunk| == n && data == line + (chunk + CRLF + rest)
    ensures n == 0 ==> ReadBody(data) == Returned(true, [], rest)
    ensures n > 0 ==> ReadBody(data) == After(chunk, ReadBody(rest)) && !Broken(rest)
  {
    hide *;
    line := Line(data);
    var k := |line|;
    StartSeen(data, line, data[k..]);
    n := Stoi(CString(line)).value;
    SizeFound(data, n);
    LineEnd(data[k..][n..]);
    LineFits(data[k..][n..]);
    chunk, rest := data[k..][..n], data[k..][n..][2..];
    Rejoin(data, line, n);
    if n == 0 { assert data[k..][0..] == data[k..]; }
  }

  lemma SizeFound(data: seq<byte>, n: int)
    requires data != [] && |Line(data)| < |data| && Stoi(CString(Line(data))) == Some(n)
    ensures HoldsSize(Line(data), n)
  {
    hide Stoi, Line, CString;
    LineOf(data);
  }

  lemma LineFits(data: seq<byte>)
    requires Line(data) == CRLF
    ensures |data| >= 2 && data[..2] == CRLF && data[0] == CR
  {
    hide Line;
    assert Line(data) <= data;
  }

  lemma Rejoin(data: seq<byte>, line: seq<byte>, n: nat)
    requires line <= data && |line| + n + 2 <= |data| && data[|line|..][n..][..2] == CRLF
    ensures var more := data[|line|..]; data == line + (more[..n] + CRLF + more[n..][2..])
  {
    var more := data[|line|..];
    assert more == more[..n] + more[n..] && more[n..] == more[n..][..2] + more[n..][2..];
    assert more == more[..n] + CRLF + more[n..][2..];
    assert data == line + more;
  }

  /** And the other way: the parts of a body that was read. */
  lemma {:induction false} ReadFormed(data: seq<byte>) returns (parts: seq<Part>, last: seq<byte>)
    requires ReadBody(data).Returned? && ReadBody(data).ok && !Broken(data)
    ensures Forms(parts, last, data, ReadBody(data).body, ReadBody(data).rest)
    decreases |data|
  {
    hide ReadBody, Broken, HoldsSize;
    var line, n, chunk, rest := StartRead(data);
    if n == 0 {
      parts, last := [], line;
      assert chunk == [] && chunk + CRLF + rest == CRLF + rest;
      assert line + (CRLF + rest) == line + CRLF + rest;
    } else {
      var tail;
      tail, last := ReadFormed(rest);
      parts := [Part(line, chunk)] + tail;
      MorePart(parts, last, ReadBody(rest).rest);
    }
  }

  lemma MorePart(parts: seq<Part>, last: seq<byte>, rest: seq<byte>)
    requires parts != []
    ensures Text(parts, last) + rest == parts[0].line + (parts[0].chunk + CRLF + (Text(parts[1..], last) + rest))
    ensures Joined(parts) == parts[0].chunk + Joined(parts[1..])
  {
    var l, c, t := parts[0].line, parts[0].chunk + CRLF, Text(parts[1..], last);
    assert l + (c + t) + rest == l + (c + (t + rest));
  }

  /** A body read to the end is well formed exactly when no part of it was broken. */
  lemma OkExact(data: seq<byte>)
    requires ReadBody(data).Returned? && ReadBody(data).ok
    ensures WellFormed(data, ReadBody(data).body, ReadBody(data).rest) <==> !Broken(data)
  {
    hide ReadBody, Broken, PartsFit, HoldsSize;
    var body, rest := ReadBody(data).body, ReadBody(data).rest;
    if !Broken(data) {
      var parts, last := ReadFormed(data);
    }
    if parts, last :| Forms(parts, last, data, body, rest) {
      FormedRead(parts, last, rest);
    }
  }

  /** Every well-formed body is read, and as what it is. */
  lemma WellFormedRead(data: seq<byte>, body: seq<byte>, rest: seq<byte>)
    requires WellFormed(data, body, rest)
    ensures ReadBody(data) == Returned(true, body, rest)
  {
    hide ReadBody, Broken, PartsFit, HoldsSize;
    var parts, last :| Forms(parts, last, data, body, rest);
    FormedRead(parts, last, rest);
  }

  /** The two ways to be broken: a chunk that is dropped, and a negative size. */
  lemma BrokenAccepted()
    ensures ReadBody([49, CR, LF, 97, 88]) == Returned(true, [], []) && Broken([49, CR, LF, 97, 88])
    ensures ReadBody([45, 49, CR, LF]) == Returned(true, [], []) && Broken([45, 49, CR, LF])
  {
    DroppedAccepted();
    NegativeAccepted();
  }

  lemma DroppedAccepted()
    ensures ReadBody([49, CR, LF, 97, 88]) == Returned(true, [], []) && Broken([49, CR, LF, 97, 88])
  {
    var data: seq<byte> := [49, CR, LF, 97, 88];
    assert data == Hex(1) + CRLF + [97, 88] && data[3..] == [97, 88];
    SizeLine(1, [97, 88]);
    StoiHex(1);
    LineWhole([88]);
    CStringWhole([88]);
    hide Hex, Stoi, Line, CString;
    assert [97, 88][1..] == [88] && [88][1..] == [];
  }

  lemma NegativeAccepted()
    ensures ReadBody([45, 49, CR, LF]) == Returned(true, [], []) && Broken([45, 49, CR, LF])
  {
    var data: seq<byte> := [45, 49, CR, LF];
    LineStop([45, 49, CR], []);
    assert data == [45, 49, CR] + [LF] + [] && data == [45, 49, CR] + [LF];
    CStringWhole(data);
    MinusOne();
    hide Stoi, Line, CString;
    assert data[4..] == [];
  }

  lemma MinusOne()
    ensures Stoi([45, 49, CR, LF]) == Some(-1)
  {
    var s: seq<byte> := [45, 49, CR, LF];
    assert s[1..] == [49] + CRLF;
    DigitCountStop([49], CRLF);
    assert ([49] + CRLF)[..1] == [49];
    assert HexValue([49]) == 16 * HexValue([49][..0]) + 1 && HexValue([49][..0]) == 0;
  }

  /** Writer and reader over one connection, with other data behind. */
  method RoundTrip(chunks: seq<seq<byte>>, rest: seq<byte>) returns (r: Outcome, left: seq<byte>)
    ensures SizesFit(chunks) ==> r == Returned(true, Body(chunks), rest) && left == rest
    ensures !SizesFit(chunks) ==> r == Thrown
  {
    hide *;
    var strm := new Stream([]);
    WriteChunks(strm, chunks);
    strm.Write(rest);
    ReadWritten(chunks, rest);
    assert strm.data == Written(chunks) + rest;
    r := ReadContentChunked(strm);
    left := strm.data;
  }
}
