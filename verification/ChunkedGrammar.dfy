/** Chunked bodies by the grammar of section 4.1 of RFC 7230, and what the reader of httplib.h makes of them. */
module ChunkedGrammar {
  import opened Bytes
  import opened Options
  import opened Chunked

  const SEMICOLON: byte := 59
  const EQUALS: byte := 61
  const QUOTE: byte := 34
  const BACKSLASH: byte := 92

  // ----- size lines

  /** `tchar` of section 3.2.6 */
  predicate TokenChar(c: byte) {
    || 48 <= c <= 57 || 65 <= c <= 90 || 94 <= c <= 122 || c == 33 || 35 <= c <= 39 || c == 42 || c == 43
    || c == 45 || c == 46 || c == 124 || c == 126
  }

  predicate IsToken(s: seq<byte>) { s != [] && forall i :: 0 <= i < |s| ==> TokenChar(s[i]) }

  /** What a backslash may precede, and what needs none. */
  predicate PairChar(c: byte) { c == 9 || 32 <= c <= 126 || c >= 128 }
  predicate TextChar(c: byte) { PairChar(c) && c != QUOTE && c != BACKSLASH }

  predicate IsQuoted(s: seq<byte>) { s != [] && s[0] == QUOTE && QuotedRest(s[1..]) }

  predicate QuotedRest(s: seq<byte>) {
    && s != []
    && if s[0] == QUOTE then |s| == 1
       else if s[0] == BACKSLASH then |s| >= 2 && PairChar(s[1]) && QuotedRest(s[2..])
       else TextChar(s[0]) && QuotedRest(s[1..])
  }

  datatype Extension = Extension(name: seq<byte>, value: Option<seq<byte>>)

  predicate GoodExtension(e: Extension) {
    IsToken(e.name) && (e.value.Some? ==> IsToken(e.value.value) || IsQuoted(e.value.value))
  }

  function Spelled(e: Extension): seq<byte> {
    [SEMICOLON] + e.name + if e.value.Some? then [EQUALS] + e.value.value else []
  }

  function AllSpelled(es: seq<Extension>): seq<byte> { if es == [] then [] else Spelled(es[0]) + AllSpelled(es[1..]) }

  predicate AreHex(digits: seq<byte>) { forall i :: 0 <= i < |digits| ==> HexDigit(digits[i]) >= 0 }

  ghost predicate IsExtensions(s: seq<byte>, es: seq<Extension>) {
    s == AllSpelled(es) + CRLF && forall i :: 0 <= i < |es| ==> GoodExtension(es[i])
  }

  /** Extensions and the line end. */
  ghost predicate LineTail(s: seq<byte>) { exists es :: IsExtensions(s, es) }

  ghost predicate SizeAndTail(line: seq<byte>, digits: seq<byte>, tail: seq<byte>, n: nat) {
    digits != [] && AreHex(digits) && HexValue(digits) == n && LineTail(tail) && line == digits + tail
  }

  /** `chunk-size [ chunk-ext ] CRLF` */
  ghost predicate ChunkLine(line: seq<byte>, n: nat) {
    exists digits, tail :: SizeAndTail(line, digits, tail, n)
  }

  // ----- no size line holds a zero or an early line feed

  predicate Visible(c: byte) { c != NUL && c != LF }

  predicate AllVisible(s: seq<byte>) { forall i :: 0 <= i < |s| ==> Visible(s[i]) }

  lemma {:induction false} QuotedVisible(s: seq<byte>)
    requires QuotedRest(s)
    ensures AllVisible(s)
    decreases |s|
  {
    if s[0] == BACKSLASH {
      QuotedVisible(s[2..]);
      forall i | 0 <= i < |s| ensures Visible(s[i]) { if i >= 2 { assert s[i] == s[2..][i - 2]; } }
    } else if s[0] != QUOTE {
      QuotedVisible(s[1..]);
      forall i | 0 <= i < |s| ensures Visible(s[i]) { if i >= 1 { assert s[i] == s[1..][i - 1]; } }
    }
  }

  lemma ExtensionVisible(e: Extension)
    requires GoodExtension(e)
    ensures AllVisible(Spelled(e))
  {
    if e.value.Some? && IsQuoted(e.value.value) {
      var v := e.value.value;
      QuotedVisible(v[1..]);
      forall i | 0 <= i < |v| ensures Visible(v[i]) { if i >= 1 { assert v[i] == v[1..][i - 1]; } }
    }
  }

  lemma {:induction false} ExtensionsVisible(es: seq<Extension>)
    requires forall i :: 0 <= i < |es| ==> GoodExtension(es[i])
    ensures AllVisible(AllSpelled(es)) && (es != [] ==> AllSpelled(es) != [] && AllSpelled(es)[0] == SEMICOLON)
    decreases |es|
  {
    hide GoodExtension;
    if es != [] {
      ExtensionVisible(es[0]);
      ExtensionsVisible(es[1..]);
    }
  }

  /** What follows the digits. */
  lemma TailStarts(s: seq<byte>)
    requires LineTail(s)
    ensures |s| >= 2 && (s[0] == SEMICOLON || s[0] == CR) && s[|s| - 2..] == CRLF && AllVisible(s[..|s| - 1])
  {
    var es :| IsExtensions(s, es);
    ExtensionsVisible(es);
  }

  lemma {:induction false} HexVisible(digits: seq<byte>)
    requires AreHex(digits)
    ensures AllVisible(digits)
  {
  }

  // ----- reading a size line

  /** A line that starts with digits and goes on with extensions. */
  ghost predicate Strict(line: seq<byte>) {
    DigitCount(line) >= 1 && LineTail(line[DigitCount(line)..])
  }

  /** Digits that something else follows are all the digits there are. */
  lemma DigitsEnd(digits: seq<byte>, tail: seq<byte>)
    requires AreHex(digits) && LineTail(tail)
    ensures DigitCount(digits + tail) == |digits|
  {
    hide LineTail, DigitCount;
    TailStarts(tail);
    DigitCountStop(digits, tail);
  }

  /** How `std::stoi` reads digits with such a tail. */
  lemma StoiDigits(digits: seq<byte>, tail: seq<byte>)
    requires digits != [] && AreHex(digits) && LineTail(tail)
    ensures var line := digits + tail;
            && CString(line) == line && LF !in line[..|line| - 1] && line[|line| - 1] == LF
            && Stoi(line) == if HexValue(digits) <= INT_MAX then Some(HexValue(digits)) else None
  {
    hide LineTail, HexValue, DigitCount, CString;
    var line := digits + tail;
    TailStarts(tail);
    HexVisible(digits);
    assert tail[|tail| - 2..][1] == tail[|tail| - 1] == LF;
    forall i | 0 <= i < |line| - 1 ensures Visible(line[i]) {
      if i >= |digits| { assert line[i] == tail[..|tail| - 1][i - |digits|]; }
    }
    CStringWhole(line);
    DigitsEnd(digits, tail);
    assert SkipSpace(line) == line;
    assert line[1] == if |digits| > 1 then digits[1] else tail[0];
    assert SkipPrefix(line) == line;
    assert line[..|digits|] == digits;
  }

  /** A size line of the grammar is read exactly when its size fits an `int`. */
  lemma ChunkLineRead(line: seq<byte>, n: nat)
    requires ChunkLine(line, n)
    ensures Strict(line) && Stoi(CString(line)) == (if n <= INT_MAX then Some(n) else None)
    ensures line != [] && line[|line| - 1] == LF && LF !in line[..|line| - 1]
  {
    hide Stoi, LineTail, DigitCount, CString;
    var digits, tail :| SizeAndTail(line, digits, tail, n);
    StoiDigits(digits, tail);
    DigitsEnd(digits, tail);
    assert line[|digits|..] == tail;
  }

  /** A line that is read as a size is one of the grammar exactly when it starts with digits and goes on with
      extensions. */
  lemma SizeExact(line: seq<byte>, n: nat)
    requires HoldsSize(line, n)
    ensures ChunkLine(line, n) <==> Strict(line)
  {
    hide Stoi, LineTail, CString, ChunkLine;
    if ChunkLine(line, n) { ChunkLineRead(line, n); }
    if Strict(line) {
      var k := DigitCount(line);
      var digits, tail := line[..k], line[k..];
      assert line == digits + tail;
      StoiDigits(digits, tail);
      assert SizeAndTail(line, digits, tail, n);
      IsChunkLine(line, digits, tail, n);
    }
  }

  lemma IsChunkLine(line: seq<byte>, digits: seq<byte>, tail: seq<byte>, n: nat)
    requires SizeAndTail(line, digits, tail, n)
    ensures ChunkLine(line, n)
  {
  }

  // ----- whole bodies

  ghost predicate ChunkLines(parts: seq<Part>) {
    parts == []
    || (parts[0].chunk != [] && ChunkLine(parts[0].line, |parts[0].chunk|) && ChunkLines(parts[1..]))
  }

  predicate ChunksFit(parts: seq<Part>) { parts == [] || (|parts[0].chunk| <= INT_MAX && ChunksFit(parts[1..])) }

  /** A trailer is empty or starts with the name of a header field. */
  predicate IsTrailer(trailer: seq<byte>) { trailer == [] || TokenChar(trailer[0]) }

  /** A body of the grammar, with any extensions and trailer: it is read exactly when its sizes fit an `int` and it
      has no trailer. */
  lemma {:induction false} GrammarRead(parts: seq<Part>, last: seq<byte>, trailer: seq<byte>, rest: seq<byte>)
    requires ChunkLines(parts) && ChunkLine(last, 0) && IsTrailer(trailer)
    ensures var r := ReadBody(Text(parts, last + trailer) + rest);
            if !ChunksFit(parts) then r == Thrown
            else if trailer == [] then r == Returned(true, Joined(parts), rest)
            else r.Returned? && !r.ok && r.body == Joined(parts)
    decreases parts
  {
    hide Stoi, Line, CString, ReadBody, ChunkLine, HexDigit;
    if parts == [] {
      LastLine(last, trailer, rest);
    } else {
      GrammarRead(parts[1..], last, trailer, rest);
      var more := Text(parts[1..], last + trailer) + rest;
      OneChunk(parts[0], more);
      MorePart(parts, last + trailer, rest);
    }
  }

  lemma LastLine(last: seq<byte>, trailer: seq<byte>, rest: seq<byte>)
    requires ChunkLine(last, 0) && IsTrailer(trailer)
    ensures var r := ReadBody(last + trailer + CRLF + rest);
            if trailer == [] then r == Returned(true, [], rest) else r.Returned? && !r.ok && r.body == []
  {
    hide Stoi, CString, ChunkLine, Strict, Line;
    ChunkLineRead(last, 0);
    var more := trailer + CRLF + rest;
    assert last + trailer + CRLF + rest == last + more;
    SizeLineRead(last, 0, more);
    if trailer == [] {
      assert more == CRLF + rest;
      EndLine(rest);
    } else {
      NotLineEnd(more);
    }
  }

  lemma NotLineEnd(more: seq<byte>)
    requires more != [] && more[0] != CR
    ensures CString(Line(more)) != CRLF
  {
    hide CString, Line;
    if CString(Line(more)) == CRLF {
      LineEnd(more);
      LineFits(more);
    }
  }

  lemma OneChunk(part: Part, rest: seq<byte>)
    requires part.chunk != [] && ChunkLine(part.line, |part.chunk|)
    ensures var data := part.line + (part.chunk + CRLF + rest);
            ReadBody(data) == if |part.chunk| <= INT_MAX then After(part.chunk, ReadBody(rest)) else Thrown
  {
    hide Stoi, CString, ChunkLine, Strict, Line, ReadBody;
    var n := |part.chunk|;
    ChunkLineRead(part.line, n);
    if n <= INT_MAX {
      PartRead(part, rest);
    } else {
      var more := part.chunk + CRLF + rest;
      LineOfSize(part.line, more);
      ReadBodyStep(part.line + more);
    }
  }

  lemma LineOfSize(line: seq<byte>, rest: seq<byte>)
    requires line != [] && line[|line| - 1] == LF && LF !in line[..|line| - 1]
    ensures Line(line + rest) == line
  {
    hide Line;
    var k := |line| - 1;
    LineStop(line[..k], rest);
    assert line == line[..k] + [LF];
  }

  ghost predicate GrammarForms(parts: seq<Part>, last: seq<byte>, data: seq<byte>, body: seq<byte>, rest: seq<byte>) {
    ChunkLines(parts) && ChunkLine(last, 0) && data == Text(parts, last) + rest && body == Joined(parts)
  }

  /** A body of the grammar without a trailer. */
  ghost predicate GrammarBody(data: seq<byte>, body: seq<byte>, rest: seq<byte>) {
    exists parts, last :: GrammarForms(parts, last, data, body, rest)
  }

  /** The size lines that reading comes to start with digits and go on with extensions. */
  ghost predicate StrictSizes(data: seq<byte>) {
    && data != [] && Strict(Line(data))
    && (Stoi(CString(Line(data))).Some? ==>
          var length, more := Stoi(CString(Line(data))).value, data[|Line(data)|..];
          0 < length < |more| ==>
            var line := Line(more[length..]);
            CString(line) == CRLF ==> StrictSizes(more[length..][|line|..]))
  }

  ghost predicate StrictParts(parts: seq<Part>) {
    parts == [] || (Strict(parts[0].line) && StrictParts(parts[1..]))
  }

  lemma {:induction false} StrictText(parts: seq<Part>, last: seq<byte>, rest: seq<byte>)
    requires PartsFit(parts) && HoldsSize(last, 0)
    ensures StrictSizes(Text(parts, last) + rest) <==> StrictParts(parts) && Strict(last)
    decreases parts
  {
    hide Stoi, Line, CString, Strict, StrictSizes, HoldsSize;
    if parts == [] {
      StrictLast(last, CRLF + rest);
      assert last + CRLF + rest == last + (CRLF + rest);
    } else {
      StrictText(parts[1..], last, rest);
      MorePart(parts, last, rest);
      StrictPart(parts[0], Text(parts[1..], last) + rest);
    }
  }

  lemma StrictLast(last: seq<byte>, more: seq<byte>)
    requires HoldsSize(last, 0)
    ensures StrictSizes(last + more) <==> Strict(last)
  {
    hide Stoi, Line, CString, Strict;
    SizeLineRead(last, 0, more);
  }

  lemma StrictPart(part: Part, rest: seq<byte>)
    requires part.chunk != [] && HoldsSize(part.line, |part.chunk|)
    ensures StrictSizes(part.line + (part.chunk + CRLF + rest)) <==> Strict(part.line) && StrictSizes(rest)
  {
    hide Stoi, Line, CString, Strict;
    var more, n := part.chunk + CRLF + rest, |part.chunk|;
    SizeLineRead(part.line, n, more);
    EndLine(rest);
    assert more[n..] == CRLF + rest && more[n..][2..] == rest;
  }

  lemma {:induction false} PartsExact(parts: seq<Part>)
    requires PartsFit(parts)
    ensures ChunkLines(parts) <==> StrictParts(parts)
    decreases parts
  {
    hide HoldsSize, ChunkLine, Strict;
    if parts != [] {
      SizeExact(parts[0].line, |parts[0].chunk|);
      PartsExact(parts[1..]);
    }
  }

  /** The sizes of chunks that were read fit. */
  lemma {:induction false} FitOfRead(parts: seq<Part>)
    requires ChunkLines(parts) && ChunksFit(parts)
    ensures PartsFit(parts)
    decreases parts
  {
    hide Stoi, CString, ChunkLine, Strict;
    if parts != [] {
      ChunkLineRead(parts[0].line, |parts[0].chunk|);
      FitOfRead(parts[1..]);
    }
  }

  /** A body read to the end is one of the grammar exactly when no part of it was broken and its size lines have
      nothing around the digits but extensions. */
  lemma GrammarExact(data: seq<byte>)
    requires ReadBody(data).Returned? && ReadBody(data).ok
    ensures GrammarBody(data, ReadBody(data).body, ReadBody(data).rest) <==> !Broken(data) && StrictSizes(data)
  {
    hide ReadBody, Broken, PartsFit, HoldsSize, StrictSizes, ChunkLines, StrictParts, ChunkLine, Strict, Text;
    var body, rest := ReadBody(data).body, ReadBody(data).rest;
    if parts, last :| GrammarForms(parts, last, data, body, rest) {
      assert last + [] == last;
      GrammarRead(parts, last, [], rest);
      FitOfRead(parts);
      ZeroHeld(last);
      FormedRead(parts, last, rest);
      PartsExact(parts);
      SizeExact(last, 0);
      StrictText(parts, last, rest);
    }
    if !Broken(data) && StrictSizes(data) {
      var parts, last := ReadFormed(data);
      StrictText(parts, last, rest);
      PartsExact(parts);
      SizeExact(last, 0);
      assert GrammarForms(parts, last, data, body, rest);
    }
  }

  lemma ZeroHeld(last: seq<byte>)
    requires ChunkLine(last, 0)
    ensures HoldsSize(last, 0)
  {
    hide Stoi, CString, ChunkLine, Strict;
    ChunkLineRead(last, 0);
  }

  /** A sign before the size and letters after it: read, and not in the grammar. */
  lemma LooseSizes()
    ensures HoldsSize([43, 49, CR, LF], 1) && !ChunkLine([43, 49, CR, LF], 1)
    ensures HoldsSize([49, 122, CR, LF], 1) && !ChunkLine([49, 122, CR, LF], 1)
  {
    SignRead();
    LetterRead();
  }

  lemma SignRead()
    ensures HoldsSize([43, 49, CR, LF], 1) && !ChunkLine([43, 49, CR, LF], 1)
  {
    var s: seq<byte> := [43, 49, CR, LF];
    CStringWhole(s);
    assert s[1..] == [49] + CRLF;
    DigitCountStop([49], CRLF);
    OneHex();
    assert ([49] + CRLF)[..1] == [49];
    SizeExact(s, 1);
  }

  lemma LetterRead()
    ensures HoldsSize([49, 122, CR, LF], 1) && !ChunkLine([49, 122, CR, LF], 1)
  {
    var s: seq<byte> := [49, 122, CR, LF];
    CStringWhole(s);
    assert s == [49] + [122, CR, LF];
    DigitCountStop([49], [122, CR, LF]);
    OneHex();
    assert s[..1] == [49] && s[1..] == [122, CR, LF];
    if LineTail(s[1..]) { TailStarts(s[1..]); }
    SizeExact(s, 1);
  }

  lemma OneHex()
    ensures HexValue([49]) == 1
  {
    assert HexValue([49]) == 16 * HexValue([49][..0]) + 1 && HexValue([49][..0]) == 0;
  }
}
