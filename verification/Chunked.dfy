/** Chunked transfer coding, both directions (section 7.1 of RFC 9112). */
module Chunked {
  import opened Bytes
  import opened PercentCoding
  import opened Streams
  import opened HeaderBlock

  const ULONG_MAX: nat := 0xFFFF_FFFF_FFFF_FFFF

  // ---------------------------------------------------------------------------
  // Chunk sizes: from_i_to_hex and strtoul
  // ---------------------------------------------------------------------------

  function HexText(n: nat): (s: string)
    ensures s != ""
  {
    (if n < 16 then "" else HexText(n / 16)) + [LowerHexDigit(n % 16)]
  }

  /** `from_i_to_hex` */
  method FromIntToHex(n0: nat) returns (ret: string)
    ensures ret == HexText(n0)
  {
    var n := n0;
    ret := [LowerHexDigit(n % 16)];
    n := n / 16;
    while n > 0
      invariant (if n > 0 then HexText(n) else "") + ret == HexText(n0)
    {
      Assoc(if n < 16 then "" else HexText(n / 16), [LowerHexDigit(n % 16)], ret);
      ret := [LowerHexDigit(n % 16)] + ret;
      n := n / 16;
    }
  }

  predicate IsHexDigit(c: char) { HexValue(c).Some? }

  /** Number of hexadecimal digits at the head of `s`. */
  function DigitRun(s: string): (n: nat)
    ensures n <= |s|
  {
    if s == "" || !IsHexDigit(s[0]) then 0 else 1 + DigitRun(s[1..])
  }

  lemma {:induction false} DigitRunHasValue(s: string, n: nat)
    requires n <= DigitRun(s)
    ensures HexPrefix(s, n).Some?
  {
    if n > 0 {
      DigitRunHasValue(s, n - 1);
      DigitRunDigit(s, n - 1);
    }
  }

  lemma {:induction false} DigitRunDigit(s: string, i: nat)
    requires i < DigitRun(s)
    ensures IsHexDigit(s[i])
  {
    if i > 0 { DigitRunDigit(s[1..], i - 1); }
  }

  /** The optional `0x`, taken only when a digit follows. */
  function SkipPrefix(s: string): string {
    if |s| > 2 && s[0] == '0' && (s[1] == 'x' || s[1] == 'X') && IsHexDigit(s[2]) then s[2..] else s
  }

  /** `strtoul(s, &end, 16)` on the characters before the terminating NUL; `None` when nothing is converted. */
  function StrToUL(s: string): (r: Option<nat>)
    ensures r.Some? ==> r.value <= ULONG_MAX
  {
    var t := SkipSpaces(s);
    var minus := t != "" && t[0] == '-';
    var digits := SkipPrefix(if t != "" && (t[0] == '-' || t[0] == '+') then t[1..] else t);
    var n := DigitRun(digits);
    if n == 0 then None
    else
      DigitRunHasValue(digits, n);
      var v := HexPrefix(digits, n).value;
      Some(if v > ULONG_MAX then ULONG_MAX else if minus && v > 0 then ULONG_MAX + 1 - v else v)
  }

  lemma {:induction false} DigitRunIs(s: string, n: nat)
    requires n <= |s| && (forall i :: 0 <= i < n ==> IsHexDigit(s[i])) && (n < |s| ==> !IsHexDigit(s[n]))
    ensures DigitRun(s) == n
  {
    if n > 0 { DigitRunIs(s[1..], n - 1); }
  }

  lemma {:induction false} HexTextValue(n: nat, rest: string)
    ensures var t := HexText(n); HexPrefix(t + rest, |t|) == Some(n)
    ensures forall i :: 0 <= i < |HexText(n)| ==> IsHexDigit(HexText(n)[i])
  {
    if n >= 16 {
      var last := [LowerHexDigit(n % 16)];
      HexTextValue(n / 16, last + rest);
      Assoc(HexText(n / 16), last, rest);
    } else {
      assert HexPrefix(HexText(n) + rest, 0) == Some(0);
    }
  }

  lemma NothingSkipped(t: string)
    requires t != "" && forall i :: 0 <= i < |t| ==> IsHexDigit(t[i])
    ensures var s := t + CRLF; SkipSpaces(s) == s && SkipPrefix(s) == s && s[0] != '-' && s[0] != '+'
    ensures DigitRun(t + CRLF) == |t|
  {
    var s := t + CRLF;
    assert s[0] == t[0];
    assert |t| > 1 ==> s[1] == t[1];
    DigitRunIs(s, |t|);
  }

  /** `strtoul` reads back the chunk size that the writer printed. */
  lemma ReadBackSize(n: nat)
    requires n < ULONG_MAX
    ensures StrToUL(HexText(n) + CRLF) == Some(n)
  {
    hide HexPrefix, HexText, DigitRun, SkipSpaces, SkipPrefix;
    HexTextValue(n, CRLF);
    NothingSkipped(HexText(n));
  }

  // ---------------------------------------------------------------------------
  // The decoder on the whole input
  // ---------------------------------------------------------------------------

  /** What the reader delivers from `s`: success, the body bytes, the trailer fields, and the unread bytes. */
  datatype Message = Message(ok: bool, body: string, trailers: seq<Header>, rest: string)

  function Prepend(data: string, m: Message): Message { Message(m.ok, data + m.body, m.trailers, m.rest) }

  function CString(s: string): string { s[..IndexOf(s, '\0')] }

  function ReadTrailers(s: string, end: End): Block
    decreases |s|
  {
    var line := Line(s);
    var rest := AfterLine(s);
    if !HasLine(s, end) then Block(false, [], rest)
    else if CString(line) == CRLF then Block(true, [], rest)
    else if |line| > HEADER_MAX_LENGTH then Block(false, [], rest)
    else
      var b := ReadTrailers(rest, end);
      match TrailerField(line)
      case None => b
      case Some(h) => Block(b.ok, [h] + b.fields, b.rest)
  }

  /** The field on a trailer line: two bytes are cut off whether or not they are the CRLF. */
  function TrailerField(line: string): Option<Header> {
    if |line| < 2 then None else ParsedHeader(line[..|line| - 2])
  }

  function ReadMessage(s: string, end: End): Message
    decreases |s|
  {
    var line := Line(s);
    var rest := AfterLine(s);
    if !HasLine(s, end) then Message(false, "", [], rest)
    else
      match StrToUL(CString(line))
      case None => Message(false, "", [], rest)
      case Some(len) =>
        if len == ULONG_MAX then Message(false, "", [], rest)
        else if len == 0 then
          // The closing CRLF may be missing, but a trailer section that begins must end.
          if !HasLine(rest, end) then Message(true, "", [], AfterLine(rest))
          else var b := ReadTrailers(rest, end); Message(b.ok, "", b.fields, b.rest)
        else if |rest| < len then Message(false, rest, [], "")
        else
          var data, tail := rest[..len], rest[len..];
          if !HasLine(tail, end) || CString(Line(tail)) != CRLF then Message(false, data, [], AfterLine(tail))
          else Prepend(data, ReadMessage(AfterLine(tail), end))
  }

  // ---------------------------------------------------------------------------
  // The encoding, and its decoding
  // ---------------------------------------------------------------------------

  /** One chunk; an empty payload is not written at all. */
  function EncodedChunk(payload: string): string {
    if payload == "" then "" else HexText(|payload|) + CRLF + payload + CRLF
  }

  function EncodedChunks(writes: seq<string>): string {
    if writes == [] then "" else EncodedChunk(writes[0]) + EncodedChunks(writes[1..])
  }

  function Terminator(trailer: seq<Header>): string { "0" + CRLF + FieldLines(trailer) + CRLF }

  lemma SizeLine(n: nat, rest: string)
    ensures var t := HexText(n) + CRLF;
            var s := t + rest;
            Line(s) == t && AfterLine(s) == rest && EndsWithCrlf(t) && CString(t) == t
  {
    hide HexText;
    HexTextValue(n, CRLF);
    var digits := HexText(n);
    var t := digits + CRLF;
    var s := t + rest;
    forall p | 0 <= p && p + 2 < |t| ensures !OccursAt(s, CRLF, p) {
      assert s[p] == digits[p];
      OccursHead(s, CRLF, p);
    }
    assert s[|t| - 2..|t|] == CRLF == t[|t| - 2..];
    LineLengthIs(s, |t|);
    assert s[..|t|] == t && s[|t|..] == rest;
    forall i | 0 <= i < |t| ensures t[i] != '\0' {
      assert i < |digits| ==> t[i] == digits[i];
    }
    IndexOfIs(t, '\0', |t|);
  }

  lemma CrlfIsCString()
    ensures CString(CRLF) == CRLF
  {
    IndexOfIs(CRLF, '\0', 2);
  }

  lemma ReadChunk(payload: string, rest: string, end: End)
    requires 0 < |payload| < ULONG_MAX
    ensures ReadMessage(EncodedChunk(payload) + rest, end) == Prepend(payload, ReadMessage(rest, end))
  {
    hide HexText, StrToUL, CString, Line, AfterLine, EndsWithCrlf;
    var size := HexText(|payload|) + CRLF;
    var tail := CRLF + rest;
    var s := size + (payload + tail);
    assert EncodedChunk(payload) + rest == s;
    SizeLine(|payload|, payload + tail);
    ReadBackSize(|payload|);
    assert (payload + tail)[..|payload|] == payload && (payload + tail)[|payload|..] == tail;
    BlankLine(rest);
    CrlfIsCString();
  }

  lemma FieldLineNotBlank(h: Header)
    requires Settable(h)
    ensures CString(FieldLine(h)) != CRLF
  {
    TokenHasNoColon(h.0, 0);
    var line := FieldLine(h);
    assert line[0] == h.0[0];
    assert CString(line) != "" ==> CString(line)[0] == line[0];
  }

  lemma {:induction false} ReadPrintedTrailer(trailer: seq<Header>, rest: string, end: End)
    requires AllSettable(trailer) && AllLinesFit(trailer)
    ensures ReadTrailers(FieldLines(trailer) + CRLF + rest, end) == Block(true, AllReceived(trailer), rest)
  {
    hide Line, AfterLine, EndsWithCrlf, FieldLine, Received, ParsedHeader, Settable, CString;
    if trailer == [] {
      assert FieldLines(trailer) + CRLF + rest == CRLF + rest;
      BlankLine(rest);
      CrlfIsCString();
    } else {
      var h, later := trailer[0], trailer[1..];
      var s' := FieldLines(later) + CRLF + rest;
      assert FieldLines(trailer) + CRLF + rest == FieldLine(h) + s' by {
        Assoc(FieldLine(h), FieldLines(later), CRLF);
        Assoc(FieldLine(h), FieldLines(later) + CRLF, rest);
      }
      FieldLineIsLine(h, s');
      FieldLineNotBlank(h);
      ParsedField(h);
      ReadPrintedTrailer(later, rest, end);
    }
  }

  lemma ReadTerminator(trailer: seq<Header>, rest: string, end: End)
    requires AllSettable(trailer) && AllLinesFit(trailer)
    ensures ReadMessage(Terminator(trailer) + rest, end) == Message(true, "", AllReceived(trailer), rest)
  {
    hide HexPrefix, DigitRun, Line, AfterLine, EndsWithCrlf, CString, ReadTrailers, FieldLines, StrToUL;
    var tail := FieldLines(trailer) + CRLF + rest;
    assert HexText(0) == "0";
    assert Terminator(trailer) + rest == HexText(0) + CRLF + tail;
    SizeLine(0, tail);
    ReadBackSize(0);
    ReadPrintedTrailer(trailer, rest, end);
    TrailerLinesStart(trailer, rest, end);
  }

  lemma TrailerLinesStart(trailer: seq<Header>, rest: string, end: End)
    requires ReadTrailers(FieldLines(trailer) + CRLF + rest, end).ok
    ensures HasLine(FieldLines(trailer) + CRLF + rest, end)
  {
  }

  predicate Sendable(writes: seq<string>) { forall w :: w in writes ==> |w| < ULONG_MAX }

  lemma PrependTwice(a: string, b: string, m: Message)
    ensures Prepend(a, Prepend(b, m)) == Prepend(a + b, m) && Prepend("", m) == m
  {
    Assoc(a, b, m.body);
    assert "" + m.body == m.body;
  }

  /** Whatever follows the chunks is read as it would be alone. */
  lemma {:induction false} ReadChunks(writes: seq<string>, rest: string, end: End)
    requires Sendable(writes)
    ensures ReadMessage(EncodedChunks(writes) + rest, end) == Prepend(Concat(writes), ReadMessage(rest, end))
  {
    hide ReadMessage, EncodedChunk, Prepend;
    PrependTwice("", "", ReadMessage(rest, end));
    if writes == [] {
      assert EncodedChunks(writes) + rest == rest;
    } else {
      var s := EncodedChunks(writes[1..]) + rest;
      Assoc(EncodedChunk(writes[0]), EncodedChunks(writes[1..]), rest);
      ReadChunks(writes[1..], rest, end);
      PrependTwice(writes[0], Concat(writes[1..]), ReadMessage(rest, end));
      if writes[0] == "" {
        EmptyChunk();
        assert EncodedChunk(writes[0]) + s == s && "" + Concat(writes[1..]) == Concat(writes[1..]);
      } else {
        ReadChunk(writes[0], s, end);
      }
    }
  }

  lemma EmptyChunk()
    ensures EncodedChunk("") == ""
  {
  }

  /** The reader gets back what was written, and leaves what follows on the connection. */
  lemma ReadWritten(writes: seq<string>, trailer: seq<Header>, rest: string, end: End)
    requires Sendable(writes) && AllSettable(trailer) && AllLinesFit(trailer)
    ensures ReadMessage(EncodedChunks(writes) + Terminator(trailer) + rest, end)
            == Message(true, Concat(writes), AllReceived(trailer), rest)
  {
    hide ReadMessage, Terminator, AllSettable, AllLinesFit, EncodedChunks;
    Assoc(EncodedChunks(writes), Terminator(trailer), rest);
    ReadChunks(writes, Terminator(trailer) + rest, end);
    ReadTerminator(trailer, rest, end);
    assert Concat(writes) + "" == Concat(writes);
  }

  // ---------------------------------------------------------------------------
  // What other senders send
  // ---------------------------------------------------------------------------

  predicate IsBlankOfC(c: char) { c == ' ' || c == '\t' || c == '\n' || c == '\r' || c as int == 11 || c as int == 12 }

  lemma {:induction false} SkipsBlanks(blanks: string, t: string)
    requires (forall c :: c in blanks ==> IsBlankOfC(c)) && t != "" && !IsBlankOfC(t[0])
    ensures SkipSpaces(blanks + t) == t
  {
    if blanks == "" {
      assert blanks + t == t;
    } else {
      assert blanks[0] in blanks;
      SkipsBlanks(blanks[1..], t);
      assert (blanks + t)[1..] == blanks[1..] + t;
    }
  }

  lemma {:induction false} SpelledDigits(digits: string, n: nat, cnt: nat)
    requires Spells(digits, n, cnt)
    ensures cnt <= |digits| && forall i :: 0 <= i < cnt ==> IsHexDigit(digits[i])
  {
    if cnt > 0 {
      HexValueIff(digits[cnt - 1], n % 16);
      SpelledDigits(digits, n / 16, cnt - 1);
    }
  }

  /** A number as `strtoul` takes it: digits of either case behind an optional prefix; what follows is no part of it. */
  predicate IsNumber(prefix: string, digits: string, n: nat, rest: string) {
    && (prefix == "" || prefix == "0x" || prefix == "0X") && digits != "" && Spells(digits, n, |digits|)
    && (rest != "" ==> !IsHexDigit(rest[0]) && (prefix == "" ==> rest[0] != 'x' && rest[0] != 'X'))
  }

  lemma PrefixSkipped(prefix: string, digits: string, n: nat, rest: string)
    requires IsNumber(prefix, digits, n, rest)
    ensures SkipPrefix(prefix + digits + rest) == digits + rest
  {
    SpelledDigits(digits, n, |digits|);
    var u := prefix + digits + rest;
    if prefix == "" {
      assert u == digits + rest;
      assert |u| > 1 ==> u[1] == if |digits| > 1 then digits[1] else rest[0];
    } else {
      assert u[2] == digits[0] && u[2..] == digits + rest;
    }
  }

  lemma NumberValue(digits: string, n: nat, rest: string)
    requires IsNumber("", digits, n, rest) || IsNumber("0x", digits, n, rest)
    ensures DigitRun(digits + rest) == |digits| && HexPrefix(digits + rest, |digits|) == Some(n)
  {
    hide Spells;
    SpelledDigits(digits, n, |digits|);
    DigitRunIs(digits + rest, |digits|);
    SpelledBehind(digits, rest, n, |digits|);
    SpelledIff(digits + rest, n, |digits|);
  }

  lemma NumberStarts(prefix: string, digits: string, n: nat, rest: string)
    requires IsNumber(prefix, digits, n, rest)
    ensures var u := prefix + digits + rest;
            u != "" && u[0] == (if prefix == "" then digits[0] else '0') && IsHexDigit(u[0])
  {
    SpelledDigits(digits, n, |digits|);
  }

  /** `strtoul` in full: blanks, a sign and a prefix may come first; a number that does not fit is the largest there is,
      and a negative one wraps around (section 7.22.1.4 of ISO C11). */
  lemma StrToULIs(blanks: string, sign: string, prefix: string, digits: string, n: nat, rest: string)
    requires forall c :: c in blanks ==> IsBlankOfC(c)
    requires (sign == "" || sign == "+" || sign == "-") && IsNumber(prefix, digits, n, rest)
    ensures StrToUL(blanks + (sign + (prefix + digits + rest)))
            == Some(if n > ULONG_MAX then ULONG_MAX else if sign == "-" && n > 0 then ULONG_MAX + 1 - n else n)
  {
    hide Spells, SkipPrefix, SkipSpaces, DigitRun, HexPrefix;
    var u := prefix + digits + rest;
    var t := sign + u;
    NumberStarts(prefix, digits, n, rest);
    assert t[0] == if sign == "" then u[0] else sign[0];
    SkipsBlanks(blanks, t);
    assert sign != "" ==> t[1..] == u;
    assert sign == "" ==> t == u;
    PrefixSkipped(prefix, digits, n, rest);
    NumberValue(digits, n, rest);
  }

  /** Without a digit there is no number. */
  lemma NoNumber(blanks: string, rest: string)
    requires forall c :: c in blanks ==> IsBlankOfC(c)
    requires rest != "" && !IsBlankOfC(rest[0]) && !IsHexDigit(rest[0]) && rest[0] != '-' && rest[0] != '+'
    ensures StrToUL(blanks + rest) == None
  {
    SkipsBlanks(blanks, rest);
  }

  lemma WholeCString(s: string)
    requires '\0' !in s
    ensures CString(s) == s
  {
    IndexOfIs(s, '\0', |s|);
  }

  /** A size line, whatever stands on it, that `strtoul` reads as `n`. */
  predicate IsSizeLine(line: string, n: nat) {
    Find(line, CRLF) == |line| && '\0' !in line && StrToUL(line + CRLF) == Some(n)
  }

  lemma SizeLineIsCut(line: string, n: nat, rest: string)
    requires IsSizeLine(line, n)
    ensures var s := line + CRLF + rest;
            && Line(s) == line + CRLF && AfterLine(s) == rest && EndsWithCrlf(line + CRLF)
            && CString(Line(s)) == line + CRLF
  {
    hide Find, Line, AfterLine, EndsWithCrlf, CString, StrToUL;
    LineIsCut(line, rest);
    WholeCString(line + CRLF);
  }

  /** A chunk of another sender: its size in any form, with leading zeros, capitals or an extension behind it. */
  lemma ReadForeignChunk(line: string, payload: string, rest: string, end: End)
    requires IsSizeLine(line, |payload|) && 0 < |payload| < ULONG_MAX
    ensures ReadMessage(line + CRLF + (payload + (CRLF + rest)), end) == Prepend(payload, ReadMessage(rest, end))
  {
    hide StrToUL, CString, Line, AfterLine, EndsWithCrlf, Find;
    var tail := CRLF + rest;
    SizeLineIsCut(line, |payload|, payload + tail);
    assert (payload + tail)[..|payload|] == payload && (payload + tail)[|payload|..] == tail;
    BlankLine(rest);
    CrlfIsCString();
  }

  /** Chunk data that is not followed by a line end is not accepted. */
  lemma ChunkMustEnd(line: string, payload: string, rest: string, end: End)
    requires IsSizeLine(line, |payload|) && 0 < |payload| < ULONG_MAX && !(CRLF <= rest)
    ensures !ReadMessage(line + CRLF + (payload + rest), end).ok
  {
    hide StrToUL, Line, AfterLine, EndsWithCrlf, Find;
    SizeLineIsCut(line, |payload|, payload + rest);
    assert (payload + rest)[..|payload|] == payload && (payload + rest)[|payload|..] == rest;
    LineIsPrefix(rest);
    CStringBegins(Line(rest));
  }

  lemma CStringBegins(s: string)
    ensures CString(s) == CRLF ==> CRLF <= s && OccursAt(s, CRLF, 0)
  {
    hide IndexOf;
    var n := IndexOf(s, '\0');
    assert n == 2 ==> s[..n] == s[0..2];
  }

  lemma LineIsPrefix(s: string)
    ensures Line(s) <= s
  {
  }

  /** Nor is a size line without a number. */
  lemma SizeMustBeNumber(line: string, rest: string, end: End)
    requires Find(line, CRLF) == |line| && '\0' !in line && StrToUL(line + CRLF) == None
    ensures !ReadMessage(line + CRLF + rest, end).ok
  {
    hide StrToUL, CString, Line, AfterLine, EndsWithCrlf, Find;
    LineIsCut(line, rest);
    WholeCString(line + CRLF);
  }

  /** Nor a size that does not fit. */
  lemma SizeMustFit(line: string, rest: string, end: End)
    requires IsSizeLine(line, ULONG_MAX)
    ensures !ReadMessage(line + CRLF + rest, end).ok
  {
    hide StrToUL, CString, Line, AfterLine, EndsWithCrlf, Find;
    SizeLineIsCut(line, ULONG_MAX, rest);
  }

  predicate IsTrailerLine(line: string) {
    line != "" && Find(line, CRLF) == |line| && |line| + 2 <= HEADER_MAX_LENGTH
  }

  lemma NoBlankLine(line: string)
    requires line != "" && Find(line, CRLF) == |line|
    ensures CString(line + CRLF) != CRLF
  {
    hide Find, CString;
    FindLineEnd(line, "");
    assert line + CRLF + "" == line + CRLF;
    CStringBegins(line + CRLF);
  }

  /** The trailer section of another sender: the lines that are fields are, the others are passed over. */
  lemma {:induction false} ReadForeignTrailers(lines: seq<string>, rest: string, end: End)
    requires forall l :: l in lines ==> IsTrailerLine(l)
    ensures ReadTrailers(LinesText(lines) + CRLF + rest, end) == Block(true, FieldsOf(lines), rest)
  {
    hide ParsedHeader, Line, AfterLine, Find, EndsWithCrlf, CString;
    if lines == [] {
      assert LinesText(lines) + CRLF + rest == CRLF + rest;
      BlankLine(rest);
      CrlfIsCString();
    } else {
      var line := lines[0];
      assert line in lines;
      var s' := LinesText(lines[1..]) + CRLF + rest;
      RegroupLines(line, LinesText(lines[1..]), rest);
      LineIsCut(line, s');
      NoBlankLine(line);
      ReadForeignTrailers(lines[1..], rest, end);
    }
  }

  /** The end of another sender's message. */
  lemma ReadForeignEnd(line: string, lines: seq<string>, rest: string, end: End)
    requires IsSizeLine(line, 0) && forall l :: l in lines ==> IsTrailerLine(l)
    ensures ReadMessage(line + CRLF + (LinesText(lines) + CRLF + rest), end)
            == Message(true, "", FieldsOf(lines), rest)
  {
    hide StrToUL, CString, Line, AfterLine, EndsWithCrlf, Find, ReadTrailers, LinesText;
    var tail := LinesText(lines) + CRLF + rest;
    SizeLineIsCut(line, 0, tail);
    ReadForeignTrailers(lines, rest, end);
    TrailersNeedLine(tail, end);
  }

  lemma TrailersNeedLine(s: string, end: End)
    ensures ReadTrailers(s, end).ok ==> HasLine(s, end)
  {
  }

  /** A message may end with the line of its last chunk. */
  lemma BareLastChunk(line: string, end: End)
    requires IsSizeLine(line, 0)
    ensures ReadMessage(line + CRLF, end) == Message(true, "", [], "")
  {
    hide StrToUL, CString, Line, AfterLine, EndsWithCrlf, Find;
    SizeLineIsCut(line, 0, "");
    assert line + CRLF + "" == line + CRLF;
    EmptyMessage(end);
    assert AfterLine("") == "" by { FoundEnds(""); }
  }

  /** A trailer section that has begun must end with a blank line. */
  lemma {:induction false} TrailersMustEnd(lines: seq<string>, end: End)
    requires forall l :: l in lines ==> IsTrailerLine(l)
    ensures !ReadTrailers(LinesText(lines), end).ok
  {
    hide ParsedHeader, Line, AfterLine, Find, EndsWithCrlf, CString;
    if lines == [] {
      EmptyMessage(end);
    } else {
      var line := lines[0];
      assert line in lines;
      LineIsCut(line, LinesText(lines[1..]));
      NoBlankLine(line);
      TrailersMustEnd(lines[1..], end);
    }
  }

  /** Such a size line: the digits of the size, and behind them nothing or an extension. */
  lemma SizeWithExtension(digits: string, n: nat, extension: string)
    requires digits != "" && Spells(digits, n, |digits|) && n <= ULONG_MAX
    requires extension != "" ==> !IsHexDigit(extension[0]) && extension[0] != 'x' && extension[0] != 'X'
    requires '\0' !in extension && Find(digits + extension, CRLF) == |digits + extension|
    ensures IsSizeLine(digits + extension, n)
  {
    hide Find, StrToUL, Spells;
    SpelledDigits(digits, n, |digits|);
    var rest := extension + CRLF;
    StrToULIs("", "", "", digits, n, rest);
    assert "" + ("" + ("" + digits + rest)) == digits + extension + CRLF;
    assert '\0' !in digits;
  }

  // Messages that are cut short.

  lemma {:induction false} FirstDigit(n: nat)
    requires n > 0
    ensures HexText(n)[0] != '0'
  {
    if n >= 16 { FirstDigit(n / 16); }
  }

  lemma {:induction false} NotZero(s: string, cnt: nat)
    requires 0 < cnt && s != "" && s[0] != '0' && HexPrefix(s, cnt).Some?
    ensures HexPrefix(s, cnt).value > 0
  {
    if cnt > 1 { NotZero(s, cnt - 1); } else { assert HexPrefix(s, 0) == Some(0); }
  }

  /** The beginning of a size line does not read as zero. */
  lemma SizeCut(n: nat, p: string)
    requires n > 0 && p != "" && p <= HexText(n) + CRLF && |p| < |HexText(n)| + 2
    ensures CString(p) == p && Find(p, CRLF) == |p| && StrToUL(p) != Some(0)
  {
    hide HexText, HexPrefix, Find;
    var t := HexText(n);
    HexTextValue(n, "");
    FirstDigit(n);
    assert forall i :: 0 <= i < |p| ==> p[i] == (t + CRLF)[i];
    var k := if |p| <= |t| then |p| else |t|;
    forall i | 0 <= i < k ensures IsHexDigit(p[i]) && p[i] == t[i] {}
    WholeCString(p);
    DigitRunIs(p, k);
    DigitRunHasValue(p, k);
    NotZero(p, k);
    forall i | 0 <= i < |p| ensures !OccursAt(p, CRLF, i) { OccursSecond(p, i); }
    FindIs(p, CRLF, |p|);
    assert |p| > 1 ==> p[1] != 'x' && p[1] != 'X';
  }

  lemma NoMessageIn(p: string, end: End)
    requires Find(p, CRLF) == |p| && CString(p) == p && StrToUL(p) != Some(0)
    ensures !ReadMessage(p, end).ok && ReadMessage(p, end).body == ""
  {
    hide Find, StrToUL, CString;
    FoundEnds(p);
  }

  lemma DataCut(payload: string, q: string, end: End)
    requires 0 < |payload| < ULONG_MAX && q <= payload + CRLF && |q| < |payload| + 2
    ensures var m := ReadMessage(HexText(|payload|) + CRLF + q, end);
            !m.ok && m.body == q[..Min(|q|, |payload|)]
  {
    hide StrToUL, HexText, Line, AfterLine, EndsWithCrlf, Find;
    SizeLine(|payload|, q);
    ReadBackSize(|payload|);
    if |q| >= |payload| {
      var tail := q[|payload|..];
      assert tail == (payload + CRLF)[|payload|..|q|];
      LineIsPrefix(tail);
      CStringBegins(Line(tail));
    } else {
      assert q[..|q|] == q;
    }
  }

  /** The data among the first bytes `p` of the chunks of `writes`. */
  function Arrived(writes: seq<string>, p: string): string {
    if writes == [] then ""
    else
      var chunk, head := |EncodedChunk(writes[0])|, |HexText(|writes[0]|)| + 2;
      if |p| >= chunk then writes[0] + Arrived(writes[1..], p[chunk..])
      else if |p| <= head then "" else p[head..][..Min(|p| - head, |writes[0]|)]
  }

  lemma ChunkCut(payload: string, p: string, end: End)
    requires 0 < |payload| < ULONG_MAX && p <= EncodedChunk(payload) && |p| < |EncodedChunk(payload)|
    ensures !ReadMessage(p, end).ok && ReadMessage(p, end).body == Arrived([payload], p)
  {
    hide ReadMessage, HexText, StrToUL, CString, Find;
    var size := HexText(|payload|) + CRLF;
    Assoc(size, payload, CRLF);
    if p == "" {
      EmptyMessage(end);
    } else if |p| < |size| {
      assert p == size[..|p|];
      SizeCut(|payload|, p);
      NoMessageIn(p, end);
    } else {
      var q := p[|size|..];
      assert p == size + q;
      assert q <= payload + CRLF;
      DataCut(payload, q, end);
    }
  }

  lemma EmptyMessage(end: End)
    ensures !ReadMessage("", end).ok && ReadMessage("", end).body == "" && !HasLine("", end)
  {
  }

  /** What is cut short before its last chunk is never accepted, however the connection ends; the data that has arrived
      is delivered. */
  lemma {:induction false} CutShort(writes: seq<string>, p: string, end: End)
    requires Sendable(writes) && p <= EncodedChunks(writes)
    ensures !ReadMessage(p, end).ok && ReadMessage(p, end).body == Arrived(writes, p)
    decreases |writes|
  {
    hide ReadMessage, EncodedChunk;
    if writes == [] {
      EmptyMessage(end);
    } else {
      var first, more := EncodedChunk(writes[0]), EncodedChunks(writes[1..]);
      if |p| >= |first| {
        var q := p[|first|..];
        assert p == first + q;
        assert q <= more;
        CutShort(writes[1..], q, end);
        if writes[0] == "" {
          EmptyChunk();
          assert first + q == q && "" + Arrived(writes[1..], q) == Arrived(writes[1..], q);
        } else {
          ReadChunk(writes[0], q, end);
        }
      } else {
        assert p == first[..|p|];
        if writes[0] == "" { EmptyChunk(); }
        ChunkCut(writes[0], p, end);
      }
    }
  }

  // ---------------------------------------------------------------------------
  // The writer
  // ---------------------------------------------------------------------------

  /** What the connection does with one write: it takes all of it, at most so many bytes, or fails. */
  datatype Outcome = TakesAll | TakesUpTo(count: nat) | Fails

  /** One write, and how many bytes were taken, or -1. */
  datatype Attempt = Attempt(data: string, taken: int)

  function TakenCount(o: Outcome, size: nat): (n: int)
    requires size > 0
    ensures n == -1 || 0 < n <= size
    ensures n == -1 <==> o.Fails?
  {
    match o
    case TakesAll => size
    case TakesUpTo(count) => if count == 0 then 1 else Min(count, size)
    case Fails => -1
  }

  function TakenPart(a: Attempt): string { if 0 <= a.taken <= |a.data| then a.data[..a.taken] else "" }

  /** The bytes the writes put on the wire. */
  function TakenBytes(log: seq<Attempt>): string {
    if log == [] then "" else TakenBytes(log[..|log| - 1]) + TakenPart(log[|log| - 1])
  }

  lemma {:induction false} TakenBytesAppend(a: seq<Attempt>, b: seq<Attempt>)
    ensures TakenBytes(a + b) == TakenBytes(a) + TakenBytes(b)
  {
    if b == [] {
      assert a + b == a;
    } else {
      var last := |b| - 1;
      assert (a + b)[..|a + b| - 1] == a + b[..last];
      TakenBytesAppend(a, b[..last]);
      Assoc(TakenBytes(a), TakenBytes(b[..last]), TakenPart(b[last]));
    }
  }

  /** The writes of the log went as the plan says, up to the failure after which all fail. */
  ghost predicate AsPlanned(plan: nat -> Outcome, log: seq<Attempt>, broken: bool) {
    forall i :: 0 <= i < |log| ==>
      log[i].data != "" &&
      (log[i].taken == TakenCount(plan(i), |log[i].data|) || log[i].taken == -1)
      && (log[i].taken == -1 ==> broken)
  }

  lemma AsPlannedMore(plan: nat -> Outcome, log: seq<Attempt>, broken: bool, d: string, n: int)
    requires AsPlanned(plan, log, broken) && d != ""
    requires n == if broken then -1 else TakenCount(plan(|log|), |d|)
    ensures AsPlanned(plan, log + [Attempt(d, n)], broken || n == -1)
  {
    hide TakenCount;
  }

  lemma TakenBytesMore(log: seq<Attempt>, d: string, n: int)
    requires n == -1 || 0 < n <= |d|
    ensures TakenBytes(log + [Attempt(d, n)]) == if n == -1 then TakenBytes(log) else TakenBytes(log) + d[..n]
  {
    assert (log + [Attempt(d, n)])[..|log|] == log;
    assert TakenBytes(log) + "" == TakenBytes(log);
  }

  /** The sending side of a connection. `plan` says what happens to each write; after a failure all fail. */
  class OutStream {
    var sent: string
    var broken: bool
    var writes: nat
    const plan: nat -> Outcome
    /** Every write so far. */
    ghost var log: seq<Attempt>

    constructor (plan: nat -> Outcome)
      ensures Valid() && sent == "" && !broken && log == [] && this.plan == plan
    {
      sent, broken, writes, this.plan := "", false, 0, plan;
      log := [];
    }

    ghost predicate Reliable() { forall i: nat :: !plan(i).Fails? }

    ghost predicate Whole() { forall i: nat :: !plan(i).TakesUpTo? }

    ghost predicate Valid()
      reads this
    {
      && (Reliable() ==> !broken)
      && writes == |log| && sent == TakenBytes(log)
      && Planned()
    }

    ghost predicate Planned()
      reads this
    {
      AsPlanned(plan, log, broken)
    }

    method Write(d: string) returns (n: int)
      requires Valid() && d != ""
      modifies this
      ensures Valid() && log == old(log) + [Attempt(d, n)]
      ensures n < 0 ==> n == -1 && broken && sent == old(sent)
      ensures n >= 0 ==> broken == old(broken) && 0 < n <= |d| && sent == old(sent) + d[..n]
    {
      hide TakenBytes, AsPlanned, TakenCount;
      n := if broken then -1 else TakenCount(plan(writes), |d|);
      AsPlannedMore(plan, log, broken, d, n);
      TakenBytesMore(log, d, n);
      writes := writes + 1;
      log := log + [Attempt(d, n)];
      if n < 0 { broken := true; } else { sent := sent + d[..n]; }
    }

    /** `write_data` */
    method WriteData(d: string) returns (ok: bool)
      requires Valid()
      modifies this
      ensures Valid() && old(log) <= log
      ensures ok ==> sent == old(sent) + d && broken == old(broken)
      ensures !ok ==> broken
    {
      hide TakenBytes, Planned;
      var offset := 0;
      while offset < |d|
        invariant offset <= |d| && Valid() && broken == old(broken) && old(log) <= log
        invariant sent == old(sent) + d[..offset]
      {
        ghost var sofar := d[..offset];
        var length := Write(d[offset..]);
        if length < 0 { return false; }
        assert d[..offset + length] == sofar + d[offset..][..length];
        offset := offset + length;
      }
      assert d[..offset] == d;
      return true;
    }
  }

  datatype SinkOp = Write(data: string) | Done(trailer: seq<Header>)

  /** The writer's variables, with what it has put on the wire. */
  datatype WriterState = WriterState(sent: string, offset: nat, available: bool)

  function Apply(st: WriterState, op: SinkOp): WriterState {
    match op
    case Write(d) => WriterState(st.sent + EncodedChunk(d), st.offset + |d|, d != "")
    case Done(trailer) => WriterState(st.sent + Terminator(trailer), st.offset, false)
  }

  function ApplyAll(st: WriterState, ops: seq<SinkOp>): WriterState
    decreases |ops|
  {
    if ops == [] then st else ApplyAll(Apply(st, ops[0]), ops[1..])
  }

  /** The provider's calls, one after another, until no more data is announced; `false` when it has run dry. */
  function Run(st: WriterState, calls: seq<seq<SinkOp>>): (bool, WriterState)
    decreases |calls|
  {
    if !st.available then (true, st)
    else if calls == [] then (false, st)
    else Run(ApplyAll(st, calls[0]), calls[1..])
  }

  class ChunkedWriter {
    const strm: OutStream
    var offset: nat
    var dataAvailable: bool
    var ok: bool

    ghost predicate Valid()
      reads this, strm
    {
      strm.Valid() && (ok || strm.broken)
    }

    ghost function State(): WriterState
      reads this, strm
    {
      WriterState(strm.sent, offset, dataAvailable)
    }

    constructor (strm: OutStream)
      requires strm.Valid()
      ensures Valid() && ok && this.strm == strm
      ensures State() == WriterState(strm.sent, 0, true)
    {
      this.strm := strm;
      offset, dataAvailable, ok := 0, true, true;
    }

    /** `data_sink.write`, without compression. */
    method Write(d: string) returns (r: bool)
      requires Valid()
      modifies this, strm
      ensures Valid() && r == ok
      ensures ok ==> old(ok) && State() == Apply(old(State()), SinkOp.Write(d))
      ensures !ok ==> strm.broken
    {
      if ok {
        dataAvailable := |d| > 0;
        offset := offset + |d|;
        if d != "" {
          var size := FromIntToHex(|d|);
          var chunk := size + CRLF + d + CRLF;
          if strm.broken {
            ok := false;
          } else {
            var sent := strm.WriteData(chunk);
            if !sent { ok := false; }
          }
        }
      }
      r := ok;
    }

    /** `done` and `done_with_trailer` */
    method Done(trailer: seq<Header>)
      requires Valid()
      modifies this, strm
      ensures Valid()
      ensures ok ==> old(ok) && State() == Apply(old(State()), SinkOp.Done(trailer))
      ensures !ok ==> strm.broken
    {
      hide FieldLines;
      if !ok { return; }
      dataAvailable := false;
      var r := strm.WriteData("0" + CRLF);
      if !r { ok := false; }
      ghost var marked := strm.sent;
      NoFieldLines(trailer);
      assert trailer[0..] == trailer;
      for i := 0 to |trailer|
        invariant Valid() && offset == old(offset) && !dataAvailable
        invariant ok ==> marked == old(strm.sent) + ("0" + CRLF)
        invariant ok ==> strm.sent + FieldLines(trailer[i..]) == marked + FieldLines(trailer)
      {
        FieldLinesStep(strm.sent, trailer, i);
        var line := trailer[i].0 + ": " + trailer[i].1 + CRLF;
        r := strm.WriteData(line);
        if !r { ok := false; }
      }
      assert strm.sent + "" == strm.sent;
      r := strm.WriteData(CRLF);
      if !r { ok := false; }
      TerminatorParts(old(strm.sent), trailer);
    }

    lemma TerminatorParts(sent: string, trailer: seq<Header>)
      ensures (sent + ("0" + CRLF)) + FieldLines(trailer) + CRLF == sent + Terminator(trailer)
    {
      hide FieldLines;
      var f := FieldLines(trailer);
      Assoc("0" + CRLF, f, CRLF);
      Assoc(sent, "0" + CRLF, f + CRLF);
      Assoc(sent + ("0" + CRLF), f, CRLF);
    }

    method Call(ops: seq<SinkOp>)
      requires Valid()
      modifies this, strm
      ensures Valid()
      ensures ok ==> old(ok) && State() == ApplyAll(old(State()), ops)
    {
      assert ops[0..] == ops;
      for i := 0 to |ops|
        invariant Valid()
        invariant ok ==> old(ok) && ApplyAll(State(), ops[i..]) == ApplyAll(old(State()), ops)
      {
        Advance(ops, i);
        match ops[i] {
          case Write(d) => var _ := Write(d);
          case Done(trailer) => Done(trailer);
        }
      }
    }
  }

  /** `write_content_chunked`, with the content provider given by the calls it makes on its sink. */
  method WriteContentChunked(strm: OutStream, calls: seq<seq<SinkOp>>) returns (r: bool)
    requires strm.Valid()
    modifies strm
    ensures var (done, st) := Run(WriterState(old(strm.sent), 0, true), calls);
            (r ==> done && strm.sent == st.sent) && (strm.Reliable() && done ==> r)
  {
    var w := new ChunkedWriter(strm);
    var i := 0;
    assert calls[0..] == calls;
    while w.dataAvailable
      invariant i <= |calls| && w.Valid() && w.strm == strm && w.ok && fresh(w)
      invariant Run(w.State(), calls[i..]) == Run(WriterState(old(strm.sent), 0, true), calls)
      decreases |calls| - i
    {
      if strm.broken { return false; }
      if i == |calls| { return false; }
      Advance(calls, i);
      w.Call(calls[i]);
      if !w.ok { return false; }
      i := i + 1;
    }
    return true;
  }

  // ---------------------------------------------------------------------------
  // Round trip of a provider's whole run
  // ---------------------------------------------------------------------------

  function AsWrites(writes: seq<string>): (ops: seq<SinkOp>)
    ensures |ops| == |writes|
  {
    if writes == [] then [] else [SinkOp.Write(writes[0])] + AsWrites(writes[1..])
  }

  lemma {:induction false} ApplyAllAppend(st: WriterState, a: seq<SinkOp>, b: seq<SinkOp>)
    ensures ApplyAll(st, a + b) == ApplyAll(ApplyAll(st, a), b)
    decreases |a|
  {
    if a == [] {
      assert a + b == b;
    } else {
      assert (a + b)[1..] == a[1..] + b;
      ApplyAllAppend(Apply(st, a[0]), a[1..], b);
    }
  }

  function ByteCount(writes: seq<string>): nat { |Concat(writes)| }

  function AfterWrites(st: WriterState, writes: seq<string>): WriterState {
    WriterState(st.sent + EncodedChunks(writes), st.offset + ByteCount(writes),
                if writes == [] then st.available else writes[|writes| - 1] != "")
  }

  lemma AfterOneWrite(st: WriterState, writes: seq<string>)
    requires writes != []
    ensures AfterWrites(st, writes) == AfterWrites(Apply(st, SinkOp.Write(writes[0])), writes[1..])
  {
    hide EncodedChunk;
    Assoc(st.sent, EncodedChunk(writes[0]), EncodedChunks(writes[1..]));
  }

  lemma {:induction false} ApplyWrites(st: WriterState, writes: seq<string>)
    ensures ApplyAll(st, AsWrites(writes)) == AfterWrites(st, writes)
    decreases |writes|
  {
    if writes == [] {
      assert st.sent + "" == st.sent;
    } else {
      hide AfterWrites, EncodedChunk, EncodedChunks;
      AfterOneWrite(st, writes);
      ApplyWrites(Apply(st, SinkOp.Write(writes[0])), writes[1..]);
      assert AsWrites(writes)[1..] == AsWrites(writes[1..]);
    }
  }

  /** A call whose last write is empty: the writer then takes the provider for finished. */
  predicate Stalls(writes: seq<string>) { writes != [] && writes[|writes| - 1] == "" }

  /** The calls of a provider that makes `writes[0]`, `writes[1]`, ... and in its last call also `done`. */
  function Calls(writes: seq<seq<string>>, trailer: seq<Header>): seq<seq<SinkOp>>
    requires writes != []
  {
    if |writes| == 1 then [AsWrites(writes[0]) + [SinkOp.Done(trailer)]]
    else [AsWrites(writes[0])] + Calls(writes[1..], trailer)
  }

  function Flatten<T>(lists: seq<seq<T>>): seq<T> {
    if lists == [] then [] else lists[0] + Flatten(lists[1..])
  }

  predicate SomeStall(writes: seq<seq<string>>) { exists i :: 0 <= i < |writes| - 1 && Stalls(writes[i]) }

  lemma {:induction false} EncodedChunksAppend(a: seq<string>, b: seq<string>)
    ensures EncodedChunks(a + b) == EncodedChunks(a) + EncodedChunks(b)
  {
    hide EncodedChunk;
    if a == [] {
      assert a + b == b;
    } else {
      assert (a + b)[1..] == a[1..] + b;
      EncodedChunksAppend(a[1..], b);
      Assoc(EncodedChunk(a[0]), EncodedChunks(a[1..]), EncodedChunks(b));
    }
  }

  /** What the writer sends for those calls: everything and the terminator, unless a call stalls, in which case it
      stops there without one. */
  ghost predicate Sent(st: WriterState, writes: seq<seq<string>>, trailer: seq<Header>) {
    writes != [] &&
    var (done, last) := Run(st, Calls(writes, trailer));
    done &&
    if SomeStall(writes) then
      exists n :: 0 < n < |writes| && last.sent == st.sent + EncodedChunks(Flatten(writes[..n]))
    else last.sent == st.sent + EncodedChunks(Flatten(writes)) + Terminator(trailer)
  }

  lemma RunLast(st: WriterState, writes: seq<string>, trailer: seq<Header>)
    requires st.available
    ensures Sent(st, [writes], trailer)
  {
    hide Terminator, EncodedChunks;
    var call := AsWrites(writes) + [SinkOp.Done(trailer)];
    ApplyAllAppend(st, AsWrites(writes), [SinkOp.Done(trailer)]);
    ApplyWrites(st, writes);
    assert Flatten([writes]) == writes;
    var st' := ApplyAll(st, call);
    assert Run(st, [call]) == Run(st', [call][1..]);
  }

  lemma RunStalled(st: WriterState, writes: seq<seq<string>>, trailer: seq<Header>)
    requires st.available && |writes| > 1 && Stalls(writes[0])
    ensures Sent(st, writes, trailer)
  {
    hide Terminator, EncodedChunks;
    ApplyWrites(st, writes[0]);
    var calls := Calls(writes, trailer);
    var st' := ApplyAll(st, calls[0]);
    assert Run(st, calls) == Run(st', calls[1..]);
    assert Flatten(writes[..1]) == writes[0] by { assert writes[..1] == [writes[0]]; }
  }

  lemma FlattenFirst(writes: seq<seq<string>>, n: nat)
    requires 0 < n < |writes|
    ensures EncodedChunks(Flatten(writes[..n]))
            == EncodedChunks(writes[0]) + EncodedChunks(Flatten(writes[1..][..n - 1]))
    ensures EncodedChunks(Flatten(writes)) == EncodedChunks(writes[0]) + EncodedChunks(Flatten(writes[1..]))
  {
    hide EncodedChunks;
    assert writes[..n][1..] == writes[1..][..n - 1];
    EncodedChunksAppend(writes[0], Flatten(writes[1..][..n - 1]));
    EncodedChunksAppend(writes[0], Flatten(writes[1..]));
  }

  lemma {:induction false} RunCalls(st: WriterState, writes: seq<seq<string>>, trailer: seq<Header>)
    requires st.available && writes != []
    ensures Sent(st, writes, trailer)
    decreases |writes|
  {
    hide Terminator, EncodedChunks;
    if |writes| == 1 {
      RunLast(st, writes[0], trailer);
      assert writes == [writes[0]];
    } else if Stalls(writes[0]) {
      RunStalled(st, writes, trailer);
    } else {
      ApplyWrites(st, writes[0]);
      var calls := Calls(writes, trailer);
      var st' := ApplyAll(st, calls[0]);
      assert calls[1..] == Calls(writes[1..], trailer);
      RunCalls(st', writes[1..], trailer);
      assert SomeStall(writes) <==> SomeStall(writes[1..]) by {
        assert forall i :: 0 <= i < |writes| - 2 ==> writes[1..][i] == writes[i + 1];
        if SomeStall(writes) {
          var i :| 0 <= i < |writes| - 1 && Stalls(writes[i]);
          assert writes[1..][i - 1] == writes[i];
        }
      }
      var sent := Run(st, calls).1.sent;
      FlattenFirst(writes, 1);
      if SomeStall(writes) {
        var n :| 0 < n < |writes[1..]| && sent == st'.sent + EncodedChunks(Flatten(writes[1..][..n]));
        FlattenFirst(writes, n + 1);
        Assoc(st.sent, EncodedChunks(writes[0]), EncodedChunks(Flatten(writes[1..][..n])));
      } else {
        Assoc(st.sent, EncodedChunks(writes[0]), EncodedChunks(Flatten(writes[1..])));
      }
    }
  }

  lemma SendableFlat(writes: seq<seq<string>>, n: nat)
    requires n <= |writes| && Sendable(Flatten(writes))
    ensures Sendable(Flatten(writes[..n]))
  {
    if n > 0 {
      assert writes[..n][1..] == writes[1..][..n - 1];
      assert Sendable(Flatten(writes[1..])) by {
        forall w | w in Flatten(writes[1..]) ensures w in Flatten(writes) {}
      }
      SendableFlat(writes[1..], n - 1);
      forall w | w in Flatten(writes[..n]) ensures |w| < ULONG_MAX {
        assert w in writes[0] ==> w in Flatten(writes);
      }
    } else {
      assert writes[..0] == [];
    }
  }

  /** What a whole run of the provider puts on the wire, the reader accepts exactly when no call but the last ends
      with an empty write; and then it delivers the concatenation of all the writes. */
  lemma ChunkedRoundTrip(writes: seq<seq<string>>, trailer: seq<Header>, end: End)
    requires writes != [] && Sendable(Flatten(writes)) && AllSettable(trailer) && AllLinesFit(trailer)
    ensures var m := ReadMessage(Run(WriterState("", 0, true), Calls(writes, trailer)).1.sent, end);
            && (m.ok <==> !SomeStall(writes))
            && (m.ok ==> m == Message(true, Concat(Flatten(writes)), AllReceived(trailer), ""))
  {
    hide ReadMessage, Terminator, EncodedChunks, AllSettable, AllLinesFit, Calls, Run;
    var st := WriterState("", 0, true);
    RunCalls(st, writes, trailer);
    var sent := Run(st, Calls(writes, trailer)).1.sent;
    if SomeStall(writes) {
      var n :| 0 < n < |writes| && sent == st.sent + EncodedChunks(Flatten(writes[..n]));
      assert sent == EncodedChunks(Flatten(writes[..n])) + "";
      SendableFlat(writes, n);
      ReadChunks(Flatten(writes[..n]), "", end);
      NothingToRead(end);
    } else {
      assert sent == EncodedChunks(Flatten(writes)) + Terminator(trailer) + "";
      ReadWritten(Flatten(writes), trailer, "", end);
    }
  }

  lemma NothingToRead(end: End)
    ensures !ReadMessage("", end).ok && !HasLine("", end)
  {
  }

  /** The provider writes "a", then nothing, and in a second call "b" with `done`: the run ends well, and the receiver
      rejects what was sent. */
  lemma StallingProvider(end: End)
    ensures var calls := [[SinkOp.Write("a"), SinkOp.Write("")], [SinkOp.Write("b"), SinkOp.Done([])]];
            var (done, st) := Run(WriterState("", 0, true), calls);
            done && !ReadMessage(st.sent, end).ok
  {
    hide ReadMessage, Terminator, EncodedChunk;
    var writes := [["a", ""], ["b"]];
    var calls := [[SinkOp.Write("a"), SinkOp.Write("")], [SinkOp.Write("b"), SinkOp.Done([])]];
    StallingCalls(writes, calls);
    assert Stalls(writes[0]);
    assert SomeStall(writes);
    assert Flatten(writes) == ["a", "", "b"] by {
      assert writes[1..] == [["b"]] && [["b"]][1..] == [];
      assert Flatten([["b"]]) == ["b"] + Flatten([]) == ["b"];
    }
    RunCalls(WriterState("", 0, true), writes, []);
    ChunkedRoundTrip(writes, [], end);
  }

  lemma StallingCalls(writes: seq<seq<string>>, calls: seq<seq<SinkOp>>)
    requires writes == [["a", ""], ["b"]]
    requires calls == [[SinkOp.Write("a"), SinkOp.Write("")], [SinkOp.Write("b"), SinkOp.Done([])]]
    ensures Calls(writes, []) == calls
  {
    assert writes[1..] == [["b"]];
    assert ["a", ""][1..] == [""] && [""][1..] == [] && ["b"][1..] == [];
    assert AsWrites([""]) == [SinkOp.Write("")] + AsWrites([]) == [SinkOp.Write("")];
    assert AsWrites(["b"]) == [SinkOp.Write("b")] + AsWrites([]) == [SinkOp.Write("b")];
    assert AsWrites(["a", ""]) == [SinkOp.Write("a")] + AsWrites([""]) == calls[0];
    assert AsWrites(["b"]) + [SinkOp.Done([])] == calls[1];
    assert Calls([["b"]], []) == [calls[1]];
    assert Calls(writes, []) == [calls[0]] + [calls[1]];
  }
}
