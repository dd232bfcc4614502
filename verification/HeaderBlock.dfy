/** Header fields: the checks of `set_header`, the header printer, and the header parser over a stream. */
module HeaderBlock {
  import opened Bytes
  import opened PercentCoding
  import opened Streams

  type Header = (string, string)

  const HEADER_MAX_LENGTH: nat := 8192

  // ---------------------------------------------------------------------------
  // Field names and values (section 5 of RFC 9110)
  // ---------------------------------------------------------------------------

  predicate IsTokenChar(c: char) { IsAlnum(c) || c in "!#$%&'*+-.^_`|~" }

  predicate IsFieldName(s: string) { s != "" && forall c :: c in s ==> IsTokenChar(c) }

  predicate IsFieldVchar(c: char) { 33 <= c as int <= 126 || 128 <= c as int }

  predicate IsFieldValue(s: string) {
    s == ""
    || (IsFieldVchar(s[0]) && IsFieldVchar(s[|s| - 1])
        && forall i :: 0 <= i < |s| ==> IsSpaceOrTab(s[i]) || IsFieldVchar(s[i]))
  }

  /** `is_field_content` */
  method IsFieldContent(s: string) returns (r: bool)
    ensures r <==> IsFieldValue(s)
  {
    if s == "" { return true; }
    if |s| == 1 { return IsFieldVchar(s[0]); }
    if |s| == 2 { return IsFieldVchar(s[0]) && IsFieldVchar(s[1]); }
    var i := 0;
    if !IsFieldVchar(s[i]) { return false; }
    i := i + 1;
    while i < |s| - 1
      invariant 1 <= i <= |s| - 1
      invariant forall k :: 0 <= k < i ==> IsSpaceOrTab(s[k]) || IsFieldVchar(s[k])
    {
      var c := s[i];
      i := i + 1;
      if !(c == ' ' || c == '\t' || IsFieldVchar(c)) { return false; }
    }
    return IsFieldVchar(s[i]);
  }

  /** The headers `set_header` lets into the multimap. */
  predicate Settable(h: Header) { IsFieldName(h.0) && IsFieldValue(h.1) }

  // ---------------------------------------------------------------------------
  // parse_header
  // ---------------------------------------------------------------------------

  /** Header names whose values are not URL-decoded. */
  predicate KeptVerbatim(key: string) { EqualIgnoreCase(key, "Location") || EqualIgnoreCase(key, "Referer") }

  /** What the reader makes of a field. */
  function Received(h: Header): Header {
    if KeptVerbatim(h.0) then h else (h.0, Decoded(h.1, false))
  }

  function ParsedHeader(line: string): Option<Header> {
    var text := TrimRight(line);
    var colon := IndexOf(text, ':');
    if colon == |text| || colon == 0 then None
    else
      var val := TrimLeft(text[colon + 1..]);
      if IsFieldValue(val) then Some(Received((text[..colon], val))) else None
  }

  /** Skips trailing blanks: the end of the text. */
  method SkipTrailing(line: string) returns (end: nat)
    ensures end <= |line| && line[..end] == TrimRight(line)
  {
    end := |line|;
    while end > 0 && IsSpaceOrTab(line[end - 1])
      invariant end <= |line| && forall i :: end <= i < |line| ==> IsSpaceOrTab(line[i])
    {
      end := end - 1;
    }
    TrimRightIs(line, end);
  }

  method FindColon(line: string, end: nat) returns (p: nat)
    requires end <= |line|
    ensures p == IndexOf(line[..end], ':')
  {
    p := 0;
    while p < end && line[p] != ':'
      invariant p <= end && forall i :: 0 <= i < p ==> line[i] != ':'
    {
      p := p + 1;
    }
    IndexOfIs(line[..end], ':', p);
  }

  method SkipBlanks(line: string, beg: nat, end: nat) returns (p: nat)
    requires beg <= end <= |line|
    ensures beg <= p <= end && line[p..end] == TrimLeft(line[beg..end])
  {
    p := beg;
    while p < end && IsSpaceOrTab(line[p])
      invariant beg <= p <= end && forall i :: beg <= i < p ==> IsSpaceOrTab(line[i])
    {
      p := p + 1;
    }
    TrimLeftIs(line[beg..end], p - beg);
    assert line[beg..end][p - beg..] == line[p..end];
  }

  lemma SliceOfPrefix(line: string, end: nat, i: nat)
    requires i <= end <= |line|
    ensures line[..end][..i] == line[..i] && line[..end][i..] == line[i..end]
  {
  }

  method ParseHeader(line: string) returns (h: Option<Header>)
    ensures h == ParsedHeader(line)
  {
    hide TrimLeft, TrimRight, IndexOf, Decoded, IsFieldValue, KeptVerbatim;
    var end := SkipTrailing(line);
    var keyEnd := FindColon(line, end);
    if keyEnd == end { return None; }
    SliceOfPrefix(line, end, keyEnd);
    SliceOfPrefix(line, end, keyEnd + 1);
    var valBeg := SkipBlanks(line, keyEnd + 1, end);
    if keyEnd == 0 { return None; }
    var key, val := line[..keyEnd], line[valBeg..end];
    var good := IsFieldContent(val);
    if !good { return None; }
    if KeptVerbatim(key) { return Some((key, val)); }
    var decoded := DecodeUrl(val, false);
    return Some((key, decoded));
  }

  // ---------------------------------------------------------------------------
  // read_headers
  // ---------------------------------------------------------------------------

  /** What reading a block yields: success, the fields accepted so far, and the unread bytes. */
  datatype Block = Block(ok: bool, fields: seq<Header>, rest: string)

  predicate HasLine(s: string, end: End) { EndsWithCrlf(Line(s)) || (s != "" && end == Closed) }

  function ReadBlock(s: string, end: End): Block
    decreases |s|
  {
    var line := Line(s);
    var rest := AfterLine(s);
    if !HasLine(s, end) then Block(false, [], rest)
    else if !EndsWithCrlf(line) then ReadBlock(rest, end)
    else if |line| == 2 then Block(true, [], rest)
    else if |line| > HEADER_MAX_LENGTH then Block(false, [], rest)
    else
      match ParsedHeader(line[..|line| - 2])
      case None => Block(false, [], rest)
      case Some(h) => var b := ReadBlock(rest, end); Block(b.ok, [h] + b.fields, b.rest)
  }

  /** `target` is what reading `s` yields, after `before`. */
  ghost predicate Continues(target: Block, before: seq<Header>, s: string, end: End) {
    var b := ReadBlock(s, end);
    target == Block(b.ok, before + b.fields, b.rest)
  }

  lemma ContinuesStep(target: Block, before: seq<Header>, s: string, end: End)
    requires Continues(target, before, s, end)
    ensures !HasLine(s, end) ==> target == Block(false, before, AfterLine(s))
    ensures EndsWithCrlf(Line(s)) ==> |Line(s)| >= 2
    ensures HasLine(s, end) && !EndsWithCrlf(Line(s)) ==> Continues(target, before, AfterLine(s), end)
    ensures EndsWithCrlf(Line(s)) && |Line(s)| == 2 ==> target == Block(true, before, AfterLine(s))
    ensures EndsWithCrlf(Line(s)) && |Line(s)| > HEADER_MAX_LENGTH ==> target == Block(false, before, AfterLine(s))
    ensures EndsWithCrlf(Line(s)) && 2 < |Line(s)| <= HEADER_MAX_LENGTH ==>
              match ParsedHeader(Line(s)[..|Line(s)| - 2])
              case None => target == Block(false, before, AfterLine(s))
              case Some(h) => Continues(target, before + [h], AfterLine(s), end)
  {
    hide LineLength, ParsedHeader;
    var rest := ReadBlock(AfterLine(s), end).fields;
    assert before + [] == before;
    forall h { Assoc(before, [h], rest); }
  }

  /** A call of `getline`, with what the loop then asks the reader for. */
  method NextLine(reader: StreamLineReader) returns (got: bool, line: string, complete: bool)
    requires reader.Valid()
    modifies reader.Repr()
    ensures reader.Valid()
    ensures var s := old(reader.strm.Pending());
            && reader.strm.Pending() == AfterLine(s) && (got <==> HasLine(s, reader.strm.sock.end))
            && line == Line(s) && (complete <==> EndsWithCrlf(line))
  {
    hide LineLength, EndsWithCrlf;
    got := reader.Getline();
    line := reader.Contents();
    complete := reader.EndWithCrlf();
  }

  /** `headers` lists what was emplaced in the multimap, in order. */
  method ReadHeaders(strm: SocketStream) returns (ok: bool, headers: seq<Header>)
    requires strm.Valid()
    modifies strm.Repr()
    ensures strm.Valid()
    ensures Block(ok, headers, strm.Pending()) == ReadBlock(old(strm.Pending()), strm.sock.end)
  {
    hide ReadBlock, Line, AfterLine, EndsWithCrlf, ParsedHeader, Continues, HasLine;
    var buf := new char[2048];
    var reader := new StreamLineReader(strm, buf);
    headers := [];
    ghost var target := ReadBlock(strm.Pending(), strm.sock.end);
    ContinuesFromStart(strm.Pending(), strm.sock.end);
    while true
      invariant reader.Valid() && reader.strm == strm && fresh(reader) && reader.fixedBuffer == buf && fresh(buf)
      invariant Continues(target, headers, strm.Pending(), strm.sock.end)
      decreases |strm.Pending()|
    {
      ghost var s := strm.Pending();
      ContinuesStep(target, headers, s, strm.sock.end);
      var got, line, complete := NextLine(reader);
      if !got { return false, headers; }
      LineIsProper(s, strm.sock.end);
      if complete {
        if |line| == 2 { return true, headers; }
      } else {
        continue;
      }
      if |line| > HEADER_MAX_LENGTH { return false, headers; }
      var h := ParseHeader(line[..|line| - 2]);
      if h.None? { return false, headers; }
      headers := headers + [h.value];
    }
  }

  lemma ContinuesFromStart(s: string, end: End)
    ensures Continues(ReadBlock(s, end), [], s, end)
  {
  }

  lemma LineIsProper(s: string, end: End)
    ensures HasLine(s, end) ==> |AfterLine(s)| < |s|
  {
  }

  // ---------------------------------------------------------------------------
  // write_headers
  // ---------------------------------------------------------------------------

  /** `BufferStream`: a write appends everything. */
  class BufferStream {
    var buffer: string

    constructor ()
      ensures buffer == ""
    {
      buffer := "";
    }

    method Write(s: string) returns (n: int)
      modifies this
      ensures buffer == old(buffer) + s && n == |s|
    {
      buffer := buffer + s;
      n := |s|;
    }
  }

  function FieldLine(h: Header): string { h.0 + ": " + h.1 + CRLF }

  function FieldLines(headers: seq<Header>): string {
    if headers == [] then "" else FieldLine(headers[0]) + FieldLines(headers[1..])
  }

  function PrintedBlock(headers: seq<Header>): string { FieldLines(headers) + CRLF }

  lemma FieldLinesStep(buffer: string, headers: seq<Header>, i: nat)
    requires i < |headers|
    ensures buffer + FieldLines(headers[i..]) == (buffer + FieldLine(headers[i])) + FieldLines(headers[i + 1..])
  {
    Advance(headers, i);
    Assoc(buffer, FieldLine(headers[i]), FieldLines(headers[i + 1..]));
  }

  /** `headers` in the multimap's iteration order. */
  method WriteHeaders(strm: BufferStream, headers: seq<Header>) returns (written: int)
    modifies strm
    ensures strm.buffer == old(strm.buffer) + PrintedBlock(headers)
    ensures written == |PrintedBlock(headers)|
  {
    hide FieldLines;
    ghost var start := strm.buffer;
    written := 0;
    assert headers[0..] == headers;
    for i := 0 to |headers|
      invariant strm.buffer + FieldLines(headers[i..]) == start + FieldLines(headers)
      invariant written == |strm.buffer| - |start|
    {
      var s := headers[i].0;
      s := s + ": ";
      s := s + headers[i].1;
      s := s + CRLF;
      FieldLinesStep(strm.buffer, headers, i);
      var len := strm.Write(s);
      if len < 0 { return len; }
      written := written + len;
    }
    NoFieldLines(headers);
    Assoc(start, FieldLines(headers), CRLF);
    var len := strm.Write(CRLF);
    if len < 0 { return len; }
    written := written + len;
  }

  lemma NoFieldLines(headers: seq<Header>)
    ensures FieldLines(headers[|headers|..]) == ""
  {
  }

  // ---------------------------------------------------------------------------
  // Round trip
  // ---------------------------------------------------------------------------

  lemma TokenHasNoColon(key: string, i: nat)
    requires IsFieldName(key) && i < |key|
    ensures key[i] != ':' && key[i] != '\r' && !IsSpaceOrTab(key[i])
  {
    assert IsTokenChar(key[i]);
  }

  /** The printed field without the blank that an empty value leaves at its end. */
  function FieldText(h: Header): string { h.0 + ":" + if h.1 == "" then "" else " " + h.1 }

  /** No blank at either end of the value. */
  predicate Framed(h: Header) {
    IsFieldName(h.0) && (h.1 != "" ==> !IsSpaceOrTab(h.1[0]) && !IsSpaceOrTab(h.1[|h.1| - 1]))
  }

  lemma FieldTextTrimmed(h: Header)
    requires Framed(h)
    ensures TrimRight(h.0 + ": " + h.1) == FieldText(h)
  {
    hide TrimRight;
    var line := h.0 + ": " + h.1;
    var n := |FieldText(h)|;
    assert line[..n] == FieldText(h);
    assert h.1 != "" ==> line[n - 1] == h.1[|h.1| - 1];
    TrimRightIs(line, n);
  }

  lemma FieldTextParts(h: Header)
    requires Framed(h)
    ensures var t := FieldText(h);
            IndexOf(t, ':') == |h.0| && 0 < |h.0| < |t| && t[..|h.0|] == h.0 && TrimLeft(t[|h.0| + 1..]) == h.1
  {
    hide IndexOf, TrimLeft;
    var t := FieldText(h);
    forall i | 0 <= i < |h.0| ensures t[i] != ':' {
      TokenHasNoColon(h.0, i);
    }
    IndexOfIs(t, ':', |h.0|);
    var tail := if h.1 == "" then "" else " " + h.1;
    assert t[|h.0| + 1..] == tail;
    TrimLeftIs(tail, |tail| - |h.1|);
  }

  /** The parser takes a printed field apart again, or rejects it for what its value holds. */
  lemma ParsedFieldIff(h: Header)
    requires Framed(h)
    ensures ParsedHeader(h.0 + ": " + h.1) == if IsFieldValue(h.1) then Some(Received(h)) else None
  {
    hide TrimLeft, TrimRight, IndexOf, Received, FieldText, IsFieldValue;
    FieldTextTrimmed(h);
    FieldTextParts(h);
  }

  lemma ParsedField(h: Header)
    requires Settable(h)
    ensures ParsedHeader(h.0 + ": " + h.1) == Some(Received(h))
  {
    hide ParsedHeader, Received;
    ParsedFieldIff(h);
  }

  lemma FieldLineChars(h: Header, i: nat)
    requires Settable(h) && i < |FieldLine(h)|
    ensures FieldLine(h)[i] == '\r' ==> i == |FieldLine(h)| - 2
  {
    var s := FieldLine(h);
    if i < |h.0| {
      TokenHasNoColon(h.0, i);
      assert s[i] == h.0[i];
    } else if i < |h.0| + 2 {
      assert s[i] == ": "[i - |h.0|];
    } else if i < |s| - 2 {
      assert s[i] == h.1[i - |h.0| - 2];
    }
  }

  lemma FieldLineIsLine(h: Header, rest: string)
    requires Settable(h)
    ensures var s := FieldLine(h) + rest; Line(s) == FieldLine(h) && AfterLine(s) == rest
    ensures EndsWithCrlf(FieldLine(h)) && |FieldLine(h)| > 2
    ensures FieldLine(h)[..|FieldLine(h)| - 2] == h.0 + ": " + h.1
  {
    var line := FieldLine(h);
    var s := line + rest;
    forall p | 0 <= p && p + 2 < |line| ensures !OccursAt(s, CRLF, p) {
      FieldLineChars(h, p);
      OccursHead(s, CRLF, p);
    }
    assert s[|line| - 2..|line|] == line[|line| - 2..] == CRLF;
    LineLengthIs(s, |line|);
    assert s[..|line|] == line && s[|line|..] == rest;
  }

  lemma BlankLine(rest: string)
    ensures Line(CRLF + rest) == CRLF && AfterLine(CRLF + rest) == rest && EndsWithCrlf(CRLF)
  {
    var s := CRLF + rest;
    assert s[0..2] == CRLF;
    LineLengthIs(s, 2);
    assert s[..2] == CRLF && s[2..] == rest;
  }

  predicate AllSettable(headers: seq<Header>) { forall h :: h in headers ==> Settable(h) }

  predicate AllLinesFit(headers: seq<Header>) { forall h :: h in headers ==> |FieldLine(h)| <= HEADER_MAX_LENGTH }

  function AllReceived(headers: seq<Header>): (r: seq<Header>)
    ensures |r| == |headers|
  {
    if headers == [] then [] else [Received(headers[0])] + AllReceived(headers[1..])
  }

  /** A written block is read back whole exactly when no line is over the limit; each field arrives as `Received`. */
  lemma {:induction false} ReadPrinted(headers: seq<Header>, rest: string, end: End)
    requires AllSettable(headers)
    ensures AllLinesFit(headers) ==>
              ReadBlock(PrintedBlock(headers) + rest, end) == Block(true, AllReceived(headers), rest)
    ensures !AllLinesFit(headers) ==> !ReadBlock(PrintedBlock(headers) + rest, end).ok
  {
    hide Line, AfterLine, EndsWithCrlf, FieldLine, Received, ParsedHeader, Settable;
    var s := PrintedBlock(headers) + rest;
    if headers == [] {
      assert s == CRLF + rest;
      BlankLine(rest);
    } else {
      var h, later := headers[0], headers[1..];
      var s' := PrintedBlock(later) + rest;
      assert s == FieldLine(h) + s' by {
        Assoc(FieldLine(h), FieldLines(later), CRLF);
        Assoc(FieldLine(h), PrintedBlock(later), rest);
      }
      FieldLineIsLine(h, s');
      ParsedField(h);
      ReadPrinted(later, rest, end);
      assert AllLinesFit(headers) <==> |FieldLine(h)| <= HEADER_MAX_LENGTH && AllLinesFit(later);
    }
  }

  // Which blocks come back unchanged.

  /** The fields whose value the reader does not rewrite. */
  predicate Unchanged(h: Header) { KeptVerbatim(h.0) || EscapeFree(h.1) }

  lemma ReceivedUnchanged(h: Header)
    ensures Received(h) == h <==> Unchanged(h)
    ensures |Received(h).1| <= |h.1|
    ensures !Unchanged(h) ==> |Received(h).1| < |h.1|
  {
    DecodedIsIdentityIff(h.1, false);
    DecodedShrinks(h.1, false);
  }

  function ValueBytes(headers: seq<Header>): nat {
    if headers == [] then 0 else |headers[0].1| + ValueBytes(headers[1..])
  }

  lemma {:induction false} ValueBytesWithout(headers: seq<Header>, i: nat)
    requires i < |headers|
    ensures ValueBytes(headers) == |headers[i].1| + ValueBytes(headers[..i] + headers[i + 1..])
  {
    var without := headers[..i] + headers[i + 1..];
    if i > 0 {
      ValueBytesWithout(headers[1..], i - 1);
      assert without[1..] == headers[1..][..i - 1] + headers[1..][i..];
    } else {
      assert without == headers[1..];
    }
  }

  lemma MultisetWithout(s: seq<Header>, i: nat)
    requires i < |s|
    ensures multiset(s[..i] + s[i + 1..]) == multiset(s) - multiset{s[i]}
  {
    assert s == s[..i] + [s[i]] + s[i + 1..];
  }

  lemma HeadIn(a: seq<Header>, b: seq<Header>) returns (i: nat)
    requires a != [] && multiset(a) == multiset(b)
    ensures i < |b| && b[i] == a[0]
  {
    assert a[0] in multiset(b);
    i :| 0 <= i < |b| && b[i] == a[0];
  }

  /** Without an element that they share, two permutations of one another still are. */
  lemma RestsPermuted(a: seq<Header>, b: seq<Header>, i: nat)
    requires a != [] && multiset(a) == multiset(b) && i < |b| && b[i] == a[0]
    ensures multiset(a[1..]) == multiset(b[..i] + b[i + 1..])
  {
    MultisetWithout(a, 0);
    MultisetWithout(b, i);
    assert a[..0] + a[1..] == a[1..];
  }

  lemma SameLength(a: seq<Header>, b: seq<Header>)
    requires multiset(a) == multiset(b)
    ensures |a| == |b|
  {
    assert |a| == |multiset(a)| == |multiset(b)| == |b|;
  }

  lemma {:induction false} ValueBytesOfPermutation(a: seq<Header>, b: seq<Header>)
    requires multiset(a) == multiset(b)
    ensures ValueBytes(a) == ValueBytes(b)
    decreases |a|
  {
    SameLength(a, b);
    if a != [] {
      var i := HeadIn(a, b);
      RestsPermuted(a, b, i);
      ValueBytesOfPermutation(a[1..], b[..i] + b[i + 1..]);
      ValueBytesWithout(b, i);
    }
  }

  lemma {:induction false} ReceivedShrinks(headers: seq<Header>)
    ensures ValueBytes(AllReceived(headers)) <= ValueBytes(headers)
    ensures (forall h :: h in headers ==> Unchanged(h)) ==> AllReceived(headers) == headers
    ensures (exists h :: h in headers && !Unchanged(h)) ==> ValueBytes(AllReceived(headers)) < ValueBytes(headers)
  {
    hide Received, Unchanged;
    if headers != [] {
      ReceivedUnchanged(headers[0]);
      ReceivedShrinks(headers[1..]);
      assert AllReceived(headers)[1..] == AllReceived(headers[1..]);
    }
  }

  /** The multimap survives the wire exactly when every line fits and no value outside `Location` and `Referer`
      holds a valid percent escape. */
  lemma HeaderRoundTrip(headers: seq<Header>, rest: string, end: End)
    requires AllSettable(headers)
    ensures var b := ReadBlock(PrintedBlock(headers) + rest, end);
            b.ok && multiset(b.fields) == multiset(headers)
            <==> AllLinesFit(headers) && forall h :: h in headers ==> Unchanged(h)
  {
    hide ReadBlock, PrintedBlock, AllSettable, AllLinesFit, Unchanged, AllReceived, ValueBytes;
    ReadPrinted(headers, rest, end);
    ReceivedShrinks(headers);
    var r := AllReceived(headers);
    if multiset(r) == multiset(headers) { ValueBytesOfPermutation(r, headers); }
  }

  lemma EscapeDecodes()
    ensures Decoded("%41", false) == "A"
  {
    assert HexPrefix("41", 2) == Some(0x41) by {
      assert "41"[1..] == "1" && HexPrefix("1", 1) == Some(1);
    }
    assert EscapeAt("%41") == Escaped("A", 3);
    assert "%41"[3..] == "";
  }

  /** A field "X" with the value "%41" is written, and read back with the value "A". */
  lemma ValueIsRewritten(rest: string, end: End)
    ensures AllSettable([("X", "%41")])
    ensures ReadBlock(PrintedBlock([("X", "%41")]) + rest, end) == Block(true, [("X", "A")], rest)
  {
    hide ReadBlock, PrintedBlock, Decoded;
    var headers := [("X", "%41")];
    EscapeDecodes();
    assert |FieldLine(headers[0])| == 8;
    assert AllReceived(headers) == [Received(headers[0])] == [("X", "A")];
    ReadPrinted(headers, rest, end);
  }

  // ---------------------------------------------------------------------------
  // The grammar
  // ---------------------------------------------------------------------------

  /** The characters of a token: all that is visible but the delimiters (section 5.6.2 of RFC 9110). */
  lemma TokenCharIff(c: char)
    ensures IsTokenChar(c) <==> 33 <= c as int <= 126 && c !in "\"(),/:;<=>?@[\\]{}"
  {
  }

  /** A field value has no control characters but the tab, and no blank at either end (section 5.5 of RFC 9110). */
  lemma FieldValueIff(s: string)
    ensures IsFieldValue(s) <==>
              && (forall i :: 0 <= i < |s| ==> s[i] == '\t' || (s[i] as int >= 32 && s[i] as int != 127))
              && (s != "" ==> !IsSpaceOrTab(s[0]) && !IsSpaceOrTab(s[|s| - 1]))
  {
  }

  /** `s`, with each letter in either case. */
  predicate InAnyCase(s: string, capitals: string, small: string) {
    |s| == |capitals| == |small| && forall i :: 0 <= i < |s| ==> s[i] == capitals[i] || s[i] == small[i]
  }

  lemma SameInAnyCase(s: string, capitals: string, small: string)
    requires |capitals| == |small|
    requires forall i :: 0 <= i < |small| ==> 'a' <= small[i] <= 'z' && capitals[i] as int == small[i] as int - 32
    ensures EqualIgnoreCase(s, capitals) <==> InAnyCase(s, capitals, small)
    ensures EqualIgnoreCase(capitals, small)
  {
    if |s| == |small| {
      forall i | 0 <= i < |s|
        ensures ToLower(s[i]) == ToLower(capitals[i]) <==> s[i] == capitals[i] || s[i] == small[i]
      {
        SameLetterIff(s[i], capitals[i]);
      }
    }
  }

  lemma SameAsSame(s: string, a: string, b: string)
    requires EqualIgnoreCase(a, b)
    ensures EqualIgnoreCase(s, a) <==> EqualIgnoreCase(s, b)
  {
  }

  /** The values of just two fields are not decoded, whatever the case of their names. */
  lemma KeptVerbatimIff(key: string)
    ensures KeptVerbatim(key)
            <==> InAnyCase(key, "LOCATION", "location") || InAnyCase(key, "REFERER", "referer")
  {
    hide EqualIgnoreCase, InAnyCase;
    SameInAnyCase(key, "LOCATION", "location");
    SameInAnyCase(key, "REFERER", "referer");
    assert EqualIgnoreCase("LOCATION", "Location") by { LocationCase(); }
    assert EqualIgnoreCase("REFERER", "Referer") by { LocationCase(); }
    SameAsSame(key, "LOCATION", "Location");
    SameAsSame(key, "REFERER", "Referer");
  }

  lemma LocationCase()
    ensures EqualIgnoreCase("LOCATION", "Location") && EqualIgnoreCase("REFERER", "Referer")
  {
  }

  predicate IsBlank(s: string) { forall i :: 0 <= i < |s| ==> IsSpaceOrTab(s[i]) }

  /** A header line as the grammar has it: blanks may stand on both sides of the value. */
  predicate IsFieldLine(line: string, key: string, before: string, value: string, after: string) {
    && line == key + ":" + before + value + after
    && key != "" && ':' !in key && IsBlank(before) && IsBlank(after) && IsFieldValue(value)
  }

  lemma FieldLineParts(key: string, before: string, value: string, after: string)
    ensures var line := key + ":" + before + value + after;
            var n := |key|;
            var m := n + 1 + |before|;
            && line[..n] == key && line[n] == ':' && line[n + 1..m] == before
            && line[m..m + |value|] == value && line[m + |value|..] == after && |line| == m + |value| + |after|
  {
  }

  lemma FieldLineText(line: string, key: string, before: string, value: string, after: string)
    requires IsFieldLine(line, key, before, value, after)
    ensures var text := TrimRight(line);
            && |key| < |text| && text[..|key|] == key && IndexOf(text, ':') == |key|
            && (if value == "" then IsBlank(text[|key| + 1..]) else text[|key| + 1..] == before + value)
  {
    hide TrimRight, IndexOf;
    FieldLineParts(key, before, value, after);
    var n := |key|;
    var m := n + 1 + |before|;
    var last := if value == "" then n + 1 else m + |value|;
    forall i | last <= i < |line| ensures IsSpaceOrTab(line[i]) {
      if i < m { assert line[i] == line[n + 1..m][i - n - 1]; }
      if i >= m + |value| { assert line[i] == line[m + |value|..][i - m - |value|]; }
    }
    if value != "" {
      assert line[m..m + |value|][|value| - 1] == line[last - 1];
      FieldValueIff(value);
    }
    TrimRightIs(line, last);
    forall i | 0 <= i < n ensures line[i] != ':' { assert line[i] == line[..n][i]; }
    IndexOfIs(line[..last], ':', n);
    assert value != "" ==> line[..last][n + 1..] == before + value;
  }

  lemma BlankTrims(s: string)
    requires IsBlank(s)
    ensures TrimLeft(s) == ""
  {
    TrimLeftIs(s, |s|);
  }

  lemma BlankBefore(before: string, value: string)
    requires IsBlank(before) && value != "" && IsFieldValue(value)
    ensures TrimLeft(before + value) == value
  {
    TrimLeftIs(before + value, |before|);
  }

  /** Every line of that form is taken. */
  lemma FieldLineIsTaken(line: string, key: string, before: string, value: string, after: string)
    requires IsFieldLine(line, key, before, value, after)
    ensures ParsedHeader(line) == Some(Received((key, value)))
  {
    hide TrimLeft, TrimRight, IndexOf, Received, IsFieldValue;
    FieldLineText(line, key, before, value, after);
    var tail := TrimRight(line)[|key| + 1..];
    if value == "" { BlankTrims(tail); } else { BlankBefore(before, value); }
  }

  lemma TrimmedParts(line: string)
    ensures line == TrimRight(line) + line[|TrimRight(line)|..] && IsBlank(line[|TrimRight(line)|..])
  {
    var text := TrimRight(line);
    var after := line[|text|..];
    forall i | 0 <= i < |after| ensures IsSpaceOrTab(after[i]) { assert after[i] == line[|text| + i]; }
  }

  lemma TrimmedLeftParts(tail: string)
    ensures var n := |tail| - |TrimLeft(tail)|;
            n >= 0 && tail == tail[..n] + TrimLeft(tail) && IsBlank(tail[..n])
  {
    var n := |tail| - |TrimLeft(tail)|;
    forall i | 0 <= i < n ensures IsSpaceOrTab(tail[..n][i]) { assert tail[..n][i] == tail[i]; }
  }

  /** And no other line is. */
  lemma TakenIsFieldLine(line: string) returns (key: string, before: string, value: string, after: string)
    requires ParsedHeader(line).Some?
    ensures IsFieldLine(line, key, before, value, after) && ParsedHeader(line) == Some(Received((key, value)))
  {
    hide TrimLeft, TrimRight, IndexOf, Received, IsFieldValue, IsBlank;
    var text := TrimRight(line);
    var n := IndexOf(text, ':');
    var tail := text[n + 1..];
    TrimmedParts(line);
    TrimmedLeftParts(tail);
    key, value, after := text[..n], TrimLeft(tail), line[|text|..];
    before := tail[..|tail| - |value|];
    ColonSplits(text, n);
    LineJoins(line, text, key, tail, before, value, after);
  }

  lemma LineJoins(line: string, text: string, key: string, tail: string, before: string, value: string, after: string)
    requires line == text + after && text == key + ":" + tail && tail == before + value
    ensures line == key + ":" + before + value + after
  {
    Assoc(key + ":", before, value);
  }

  lemma ColonSplits(text: string, n: nat)
    requires n < |text| && n == IndexOf(text, ':')
    ensures text == text[..n] + ":" + text[n + 1..] && ':' !in text[..n]
  {
    hide IndexOf;
    assert text[n] == ':';
    forall i | 0 <= i < n ensures text[..n][i] != ':' { assert text[..n][i] == text[i]; }
  }

  /** Lines with their ends. */
  function LinesText(lines: seq<string>): string {
    if lines == [] then "" else lines[0] + CRLF + LinesText(lines[1..])
  }

  predicate IsHeaderLine(line: string) {
    line != "" && Find(line, CRLF) == |line| && |line| + 2 <= HEADER_MAX_LENGTH && ParsedHeader(line).Some?
  }

  function FieldsOf(lines: seq<string>): seq<Header> {
    if lines == [] then []
    else
      match ParsedHeader(lines[0])
      case None => FieldsOf(lines[1..])
      case Some(h) => [h] + FieldsOf(lines[1..])
  }

  lemma EndOccurs(s: string)
    ensures EndsWithCrlf(s) <==> |s| >= 2 && OccursAt(s, CRLF, |s| - 2)
  {
    if |s| >= 2 { assert s[|s| - 2..] == s[|s| - 2..|s| - 2 + 2]; }
  }

  lemma CutBehind(s: string, p: nat)
    requires p + 2 <= |s| && s[p..p + 2] == CRLF
    ensures s[..p + 2] == s[..p] + CRLF && EndsWithCrlf(s[..p + 2])
  {
    assert s[..p + 2][p..] == s[p..p + 2];
  }

  lemma FoundEnds(s: string)
    ensures var p := Find(s, CRLF);
            && (p < |s| ==> p + 2 <= |s| && Line(s) == s[..p] + CRLF && AfterLine(s) == s[p + 2..])
            && (p == |s| ==> Line(s) == s && AfterLine(s) == "")
    ensures EndsWithCrlf(Line(s)) <==> Find(s, CRLF) < |s|
  {
    hide Find, EndsWithCrlf;
    var p := Find(s, CRLF);
    if p < |s| {
      assert OccursAt(s, CRLF, p);
      CutBehind(s, p);
    } else {
      EndOccurs(s);
      assert |s| >= 2 ==> !OccursAt(s, CRLF, |s| - 2);
      assert s[..|s|] == s;
    }
  }

  lemma LineIsCut(line: string, rest: string)
    requires Find(line, CRLF) == |line|
    ensures var s := line + CRLF + rest; Line(s) == line + CRLF && AfterLine(s) == rest
    ensures EndsWithCrlf(line + CRLF) && (line + CRLF)[..|line|] == line
  {
    hide Find, Line, AfterLine, EndsWithCrlf;
    FindLineEnd(line, rest);
    FoundEnds(line + CRLF + rest);
  }

  /** A block of such lines, closed by a blank one, is read as their fields. */
  lemma {:induction false} LinesAreRead(lines: seq<string>, rest: string, end: End)
    requires forall l :: l in lines ==> IsHeaderLine(l)
    ensures ReadBlock(LinesText(lines) + CRLF + rest, end) == Block(true, FieldsOf(lines), rest)
  {
    hide ParsedHeader, Line, AfterLine, Find, EndsWithCrlf;
    var s := LinesText(lines) + CRLF + rest;
    if lines == [] {
      assert s == CRLF + rest;
      BlankLine(rest);
    } else {
      var line := lines[0];
      assert line in lines;
      var s' := LinesText(lines[1..]) + CRLF + rest;
      RegroupLines(line, LinesText(lines[1..]), rest);
      LineIsCut(line, s');
      LinesAreRead(lines[1..], rest, end);
      assert |line + CRLF| > 2;
    }
  }

  lemma RegroupLines(line: string, later: string, rest: string)
    ensures (line + CRLF + later) + CRLF + rest == line + CRLF + (later + CRLF + rest)
  {
    Assoc(line + CRLF, later, CRLF);
    Assoc(line + CRLF, later + CRLF, rest);
  }

  lemma NotInPrefix(s: string, n: nat)
    requires n <= |s| && n <= Find(s, CRLF)
    ensures Find(s[..n], CRLF) == n
  {
    hide Find;
    forall p | 0 <= p < n ensures !OccursAt(s[..n], CRLF, p) {
      OccursInPrefix(s[..n], s[n..], CRLF, p);
      assert s[..n] + s[n..] == s;
    }
    FindIs(s[..n], CRLF, n);
  }

  lemma LineCut(s: string)
    requires EndsWithCrlf(Line(s))
    ensures |Line(s)| >= 2 && |AfterLine(s)| < |s|
    ensures var l := Line(s)[..|Line(s)| - 2]; s == l + CRLF + AfterLine(s) && Find(l, CRLF) == |l|
  {
    hide Find, Line, AfterLine, EndsWithCrlf;
    FoundEnds(s);
    var p := Find(s, CRLF);
    NotInPrefix(s, p);
    assert Line(s)[..p] == s[..p];
    assert s == s[..p] + s[p..p + 2] + s[p + 2..];
  }

  /** A block that is accepted is of that form: none is that was cut short. */
  lemma {:induction false} ReadAreLines(s: string, end: End) returns (lines: seq<string>)
    requires ReadBlock(s, end).ok
    ensures forall l :: l in lines ==> IsHeaderLine(l)
    ensures s == LinesText(lines) + CRLF + ReadBlock(s, end).rest && ReadBlock(s, end).fields == FieldsOf(lines)
    decreases |s|
  {
    hide ParsedHeader, Line, AfterLine, Find, EndsWithCrlf, LineLength;
    var line, rest := Line(s), AfterLine(s);
    if !EndsWithCrlf(line) {
      FoundEnds(s);
      EmptyBlock(end);
      assert false;
    } else {
      LineCut(s);
      if |line| == 2 {
        lines := [];
        assert line[..0] == "";
        assert s == LinesText([]) + CRLF + rest;
      } else {
        var l := line[..|line| - 2];
        var more := ReadAreLines(rest, end);
        lines := [l] + more;
        RegroupLines(l, LinesText(more), ReadBlock(rest, end).rest);
        assert lines[1..] == more;
      }
    }
  }

  lemma EmptyBlock(end: End)
    ensures !ReadBlock("", end).ok
  {
  }
}
