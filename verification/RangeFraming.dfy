/** `multipart/byteranges` bodies: one printer, three users, and the lengths announced for them. */
module RangeFraming {
  import opened Bytes
  import opened Chunked
  import opened Ranges

  // ---------------------------------------------------------------------------
  // Decimal numbers
  // ---------------------------------------------------------------------------

  function Digit(d: nat): (c: char)
    requires d < 10
    ensures IsDigit(c) && c as int - '0' as int == d
  {
    (d + '0' as int) as char
  }

  /** `std::to_string` */
  function ToString(n: nat): (s: string)
    ensures s != "" && forall c :: c in s ==> IsDigit(c)
  {
    if n < 10 then [Digit(n)] else ToString(n / 10) + [Digit(n % 10)]
  }

  /** The value of the leading digits, counted on from `sofar`, and what follows them. */
  function TakeNumber(s: string, sofar: nat): (r: (nat, string))
    ensures |r.1| <= |s|
    decreases |s|
  {
    if s != "" && IsDigit(s[0]) then TakeNumber(s[1..], 10 * sofar + (s[0] as int - '0' as int)) else (sofar, s)
  }

  function Pow10(k: nat): nat { if k == 0 then 1 else 10 * Pow10(k - 1) }

  lemma {:induction false} TakePrinted(n: nat, sofar: nat, rest: string)
    ensures TakeNumber(ToString(n) + rest, sofar) == TakeNumber(rest, sofar * Pow10(|ToString(n)|) + n)
  {
    if n < 10 {
      assert ([Digit(n)] + rest)[1..] == rest;
      assert Pow10(1) == 10 * Pow10(0);
    } else {
      var last := [Digit(n % 10)];
      Assoc(ToString(n / 10), last, rest);
      TakePrinted(n / 10, sofar, last + rest);
      assert (last + rest)[1..] == rest;
      var p := Pow10(|ToString(n / 10)|);
      assert 10 * (sofar * p) == sofar * (10 * p);
    }
  }

  lemma TakeNumberPrinted(n: nat, rest: string)
    requires rest != "" && !IsDigit(rest[0])
    ensures TakeNumber(ToString(n) + rest, 0) == (n, rest)
  {
    TakePrinted(n, 0, rest);
  }

  // ---------------------------------------------------------------------------
  // The printed pieces
  // ---------------------------------------------------------------------------

  /** What the printer hands on: text, or a stretch of the content. */
  datatype Piece = Token(text: string) | Slice(offset: nat, length: nat)

  /** `get_range_offset_and_length`, whose asserts are the precondition. */
  function GetRangeOffsetAndLength(r: Range, contentLength: nat): (ol: (nat, nat))
    requires Within(r, contentLength)
    ensures ol.0 + ol.1 <= contentLength
    ensures forall p :: Holds(r, p) <==> ol.0 <= p < ol.0 + ol.1
  {
    (r.first, r.last - r.first + 1)
  }

  function MakeContentRangeHeaderField(ol: (nat, nat), contentLength: nat): string
    requires ol.1 > 0
  {
    "bytes " + ToString(ol.0) + "-" + ToString(ol.0 + ol.1 - 1) + "/" + ToString(contentLength)
  }

  function StartPieces(boundary: string): seq<Piece> { [Token("--"), Token(boundary), Token(CRLF)] }

  function TypePieces(contentType: string): seq<Piece> {
    if contentType == "" then [] else [Token("Content-Type: "), Token(contentType), Token(CRLF)]
  }

  function RangePieces(field: string): seq<Piece> {
    [Token("Content-Range: "), Token(field), Token(CRLF)] + [Token(CRLF)]
  }

  function DataPieces(ol: (nat, nat)): seq<Piece> { [Slice(ol.0, ol.1), Token(CRLF)] }

  function PartPieces(r: Range, boundary: string, contentType: string, contentLength: nat): seq<Piece>
    requires Within(r, contentLength)
  {
    var ol := GetRangeOffsetAndLength(r, contentLength);
    StartPieces(boundary) + TypePieces(contentType) + RangePieces(MakeContentRangeHeaderField(ol, contentLength))
    + DataPieces(ol)
  }

  function PartsPieces(rs: seq<Range>, boundary: string, contentType: string, contentLength: nat): seq<Piece>
    requires AllWithin(rs, contentLength)
  {
    if rs == [] then []
    else PartPieces(rs[0], boundary, contentType, contentLength)
         + PartsPieces(rs[1..], boundary, contentType, contentLength)
  }

  function Pieces(rs: seq<Range>, boundary: string, contentType: string, contentLength: nat): seq<Piece>
    requires AllWithin(rs, contentLength)
  {
    PartsPieces(rs, boundary, contentType, contentLength) + [Token("--"), Token(boundary), Token("--")]
  }

  predicate Fits(pieces: seq<Piece>, contentLength: nat) {
    forall p :: p in pieces && p.Slice? ==> p.offset + p.length <= contentLength
  }

  function RenderPiece(p: Piece, content: string): string
    requires p.Slice? ==> p.offset + p.length <= |content|
  {
    match p
    case Token(text) => text
    case Slice(offset, length) => content[offset..offset + length]
  }

  /** The text the pieces stand for. */
  function Render(pieces: seq<Piece>, content: string): string
    requires Fits(pieces, |content|)
  {
    if pieces == [] then "" else RenderPiece(pieces[0], content) + Render(pieces[1..], content)
  }

  function PieceSize(p: Piece): nat { if p.Token? then |p.text| else p.length }

  function Size(pieces: seq<Piece>): nat {
    if pieces == [] then 0 else PieceSize(pieces[0]) + Size(pieces[1..])
  }

  lemma FitsAppend(a: seq<Piece>, b: seq<Piece>, contentLength: nat)
    ensures Fits(a + b, contentLength) <==> Fits(a, contentLength) && Fits(b, contentLength)
  {
    if Fits(a + b, contentLength) {
      forall p | p in a && p.Slice? ensures p.offset + p.length <= contentLength { assert p in a + b; }
      forall p | p in b && p.Slice? ensures p.offset + p.length <= contentLength { assert p in a + b; }
    }
  }

  lemma RenderStep(p: Piece, pieces: seq<Piece>, content: string)
    requires Fits([p] + pieces, |content|)
    ensures Fits(pieces, |content|) && (p.Slice? ==> p.offset + p.length <= |content|)
    ensures Render([p] + pieces, content) == RenderPiece(p, content) + Render(pieces, content)
  {
    FitsAppend([p], pieces, |content|);
    assert ([p] + pieces)[0] == p && ([p] + pieces)[1..] == pieces;
  }

  lemma {:induction false} RenderAppend(a: seq<Piece>, b: seq<Piece>, content: string)
    requires Fits(a, |content|) && Fits(b, |content|)
    ensures Fits(a + b, |content|) && Render(a + b, content) == Render(a, content) + Render(b, content)
  {
    hide Fits, RenderPiece, Render;
    FitsAppend(a, b, |content|);
    if a == [] {
      assert a + b == b;
      NothingRendered(content);
    } else {
      var first, more := a[0], a[1..];
      assert a == [first] + more;
      Assoc([first], more, b);
      RenderStep(first, more, content);
      RenderStep(first, more + b, content);
      RenderAppend(more, b, content);
      Assoc(RenderPiece(first, content), Render(more, content), Render(b, content));
    }
  }

  lemma NothingRendered(content: string)
    ensures Fits([], |content|) && Render([], content) == ""
  {
  }

  lemma {:induction false} SizeAppend(a: seq<Piece>, b: seq<Piece>)
    ensures Size(a + b) == Size(a) + Size(b)
  {
    if a == [] {
      assert a + b == b;
    } else {
      assert (a + b)[1..] == a[1..] + b;
      SizeAppend(a[1..], b);
    }
  }

  /** Counting and printing agree. */
  lemma {:induction false} SizeOfRender(pieces: seq<Piece>, content: string)
    requires Fits(pieces, |content|)
    ensures Size(pieces) == |Render(pieces, content)|
  {
    if pieces != [] {
      assert pieces[0] in pieces;
      SizeOfRender(pieces[1..], content);
    }
  }

  lemma {:induction false} PartsFit(rs: seq<Range>, boundary: string, contentType: string, contentLength: nat)
    requires AllWithin(rs, contentLength)
    ensures Fits(PartsPieces(rs, boundary, contentType, contentLength), contentLength)
    ensures Fits(Pieces(rs, boundary, contentType, contentLength), contentLength)
  {
    if rs != [] { PartsFit(rs[1..], boundary, contentType, contentLength); }
  }

  // ---------------------------------------------------------------------------
  // Reading the text back
  // ---------------------------------------------------------------------------

  datatype Part = Part(first: nat, last: nat, total: nat, data: string)

  function Strip(s: string, prefix: string): (r: Option<string>)
    ensures r.Some? ==> |r.value| == |s| - |prefix|
  {
    if |prefix| <= |s| && s[..|prefix|] == prefix then Some(s[|prefix|..]) else None
  }

  lemma StripIs(prefix: string, rest: string)
    ensures Strip(prefix + rest, prefix) == Some(rest)
  {
  }

  function Opening(boundary: string, contentType: string): string {
    "--" + boundary + CRLF + (if contentType == "" then "" else "Content-Type: " + contentType + CRLF)
    + "Content-Range: bytes "
  }

  /** A number, then `mark`. */
  function NumberThen(s: string, mark: string): (r: Option<(nat, string)>)
    ensures r.Some? ==> |r.value.1| <= |s|
  {
    var (n, rest) := TakeNumber(s, 0);
    match Strip(rest, mark)
    case None => None
    case Some(more) => Some((n, more))
  }

  lemma NumberThenIs(n: nat, mark: string, rest: string)
    requires mark != "" && !IsDigit(mark[0])
    ensures NumberThen(ToString(n) + (mark + rest), mark) == Some((n, rest))
  {
    TakeNumberPrinted(n, mark + rest);
    StripIs(mark, rest);
  }

  /** The three numbers of a `Content-Range`, then the blank line. */
  function ReadPositions(s: string): (r: Option<(nat, nat, nat, string)>)
    ensures r.Some? ==> |r.value.3| <= |s|
  {
    match NumberThen(s, "-")
    case None => None
    case Some((first, a)) =>
      match NumberThen(a, "/")
      case None => None
      case Some((last, b)) =>
        match NumberThen(b, CRLF + CRLF)
        case None => None
        case Some((total, c)) => Some((first, last, total, c))
  }

  /** As much data as the positions say, and the line end. */
  function ReadData(s: string, first: nat, last: nat, total: nat): (r: Option<(Part, string)>)
    ensures r.Some? ==> |r.value.1| < |s|
  {
    if first <= last && last - first + 1 <= |s| then
      var n := last - first + 1;
      match Strip(s[n..], CRLF)
      case None => None
      case Some(rest) => Some((Part(first, last, total, s[..n]), rest))
    else None
  }

  /** One part as section 14.6 of RFC 9110 lays it out. */
  function ReadPart(s: string, boundary: string, contentType: string): (r: Option<(Part, string)>)
    ensures r.Some? ==> |r.value.1| < |s|
  {
    match Strip(s, Opening(boundary, contentType))
    case None => None
    case Some(a) =>
      match ReadPositions(a)
      case None => None
      case Some((first, last, total, b)) => ReadData(b, first, last, total)
  }

  function ReadParts(s: string, boundary: string, contentType: string): Option<seq<Part>>
    decreases |s|
  {
    if s == "--" + boundary + "--" then Some([])
    else
      match ReadPart(s, boundary, contentType)
      case None => None
      case Some((part, rest)) =>
        match ReadParts(rest, boundary, contentType)
        case None => None
        case Some(parts) => Some([part] + parts)
  }

  lemma ReadPositionsIs(first: nat, last: nat, total: nat, rest: string)
    ensures ReadPositions(ToString(first) + ("-" + (ToString(last) + ("/" + (ToString(total) + (CRLF + CRLF + rest))))))
            == Some((first, last, total, rest))
  {
    hide NumberThen, ToString;
    NumberThenIs(total, CRLF + CRLF, rest);
    NumberThenIs(last, "/", ToString(total) + (CRLF + CRLF + rest));
    NumberThenIs(first, "-", ToString(last) + ("/" + (ToString(total) + (CRLF + CRLF + rest))));
  }

  /** The part's text, grouped as the reader takes it apart. */
  function PartText(r: Range, boundary: string, contentType: string, content: string, rest: string): string
    requires Within(r, |content|)
  {
    Opening(boundary, contentType)
    + (ToString(r.first) + ("-" + (ToString(r.last) + ("/" + (ToString(|content|)
       + (CRLF + CRLF + (content[r.first..r.last + 1] + (CRLF + rest))))))))
  }

  lemma RenderTokens(a: Piece, b: Piece, c: Piece, content: string)
    requires a.Token? && b.Token? && c.Token?
    ensures Fits([a, b, c], |content|) && Render([a, b, c], content) == a.text + b.text + c.text
  {
    assert [a, b, c][1..] == [b, c] && [b, c][1..] == [c] && [c][1..] == [];
    assert Render([c], content) == c.text + Render([], content) == c.text;
    assert Render([b, c], content) == b.text + Render([c], content);
    assert Render([a, b, c], content) == a.text + Render([b, c], content);
    Assoc(a.text, b.text, c.text);
  }

  lemma Nest(a: string, b: string, c: string, d: string, e: string, f: string)
    ensures a + b + c + d + e + f == a + (b + (c + (d + (e + f))))
  {
    Assoc(a + b + c + d, e, f);
    Assoc(a + b + c, d, e + f);
    Assoc(a + b, c, d + (e + f));
    Assoc(a, b, c + (d + (e + f)));
  }

  /** The `Content-Range` line, regrouped from the printer's tokens. */
  lemma FieldRegrouped(a: string, b: string, t: string, more: string)
    ensures "Content-Range: " + ("bytes " + a + "-" + b + "/" + t) + CRLF + CRLF + more
            == "Content-Range: bytes " + (a + ("-" + (b + ("/" + (t + (CRLF + CRLF + more))))))
  {
    var prefix, tail := "Content-Range: ", CRLF + CRLF + more;
    var field := "bytes " + a + "-" + b + "/" + t;
    Assoc(prefix + field, CRLF, CRLF);
    Assoc(prefix + field, CRLF + CRLF, more);
    Assoc(prefix, field, tail);
    Nest("bytes " + a, "-", b, "/", t, tail);
    var inner := "-" + (b + ("/" + (t + tail)));
    Assoc("bytes ", a, inner);
    Assoc(prefix, "bytes ", a + inner);
    assert prefix + "bytes " == "Content-Range: bytes ";
  }

  lemma PartPiecesRendered(r: Range, boundary: string, contentType: string, content: string)
    requires Within(r, |content|)
    ensures Fits(PartPieces(r, boundary, contentType, |content|), |content|)
    ensures var field := MakeContentRangeHeaderField(GetRangeOffsetAndLength(r, |content|), |content|);
            Render(PartPieces(r, boundary, contentType, |content|), content)
            == "--" + boundary + CRLF + (if contentType == "" then "" else "Content-Type: " + contentType + CRLF)
               + ("Content-Range: " + field + CRLF + CRLF) + (content[r.first..r.last + 1] + CRLF)
  {
    hide Render, MakeContentRangeHeaderField, StartPieces, TypePieces, RangePieces, DataPieces, Fits;
    var ol := GetRangeOffsetAndLength(r, |content|);
    var field := MakeContentRangeHeaderField(ol, |content|);
    var start, kind, line := StartPieces(boundary), TypePieces(contentType), RangePieces(field);
    StartRendered(boundary, content);
    TypeRendered(contentType, content);
    RangeRendered(field, content);
    DataRendered(ol, content);
    RenderAppend(start, kind, content);
    RenderAppend(start + kind, line, content);
    RenderAppend(start + kind + line, DataPieces(ol), content);
  }

  lemma StartRendered(boundary: string, content: string)
    ensures Fits(StartPieces(boundary), |content|)
    ensures Render(StartPieces(boundary), content) == "--" + boundary + CRLF
  {
    RenderTokens(Token("--"), Token(boundary), Token(CRLF), content);
  }

  lemma Regrouped(opening: string, a: string, b: string, t: string, slice: string, rest: string)
    ensures opening + ("Content-Range: " + ("bytes " + a + "-" + b + "/" + t) + CRLF + CRLF) + (slice + CRLF) + rest
            == (opening + "Content-Range: bytes ")
               + (a + ("-" + (b + ("/" + (t + (CRLF + CRLF + (slice + (CRLF + rest))))))))
  {
    var line := "Content-Range: " + ("bytes " + a + "-" + b + "/" + t) + CRLF + CRLF;
    var more := slice + (CRLF + rest);
    Assoc(opening + line, slice + CRLF, rest);
    Assoc(slice, CRLF, rest);
    Assoc(opening, line, more);
    FieldRegrouped(a, b, t, more);
    Assoc(opening, "Content-Range: bytes ", a + ("-" + (b + ("/" + (t + (CRLF + CRLF + more))))));
  }

  lemma PartRendered(r: Range, boundary: string, contentType: string, content: string, rest: string)
    requires Within(r, |content|)
    ensures Fits(PartPieces(r, boundary, contentType, |content|), |content|)
    ensures Render(PartPieces(r, boundary, contentType, |content|), content) + rest
            == PartText(r, boundary, contentType, content, rest)
  {
    hide Render, ToString, PartPieces;
    PartPiecesRendered(r, boundary, contentType, content);
    var opening := "--" + boundary + CRLF + if contentType == "" then "" else "Content-Type: " + contentType + CRLF;
    Regrouped(opening, ToString(r.first), ToString(r.last), ToString(|content|), content[r.first..r.last + 1], rest);
  }

  lemma TypeRendered(contentType: string, content: string)
    ensures Fits(TypePieces(contentType), |content|)
    ensures Render(TypePieces(contentType), content)
            == if contentType == "" then "" else "Content-Type: " + contentType + CRLF
  {
    hide Render, Fits;
    if contentType == "" { NothingRendered(content); }
    RenderTokens(Token("Content-Type: "), Token(contentType), Token(CRLF), content);
  }

  lemma RangeRendered(field: string, content: string)
    ensures Fits(RangePieces(field), |content|)
    ensures Render(RangePieces(field), content) == "Content-Range: " + field + CRLF + CRLF
  {
    hide Render, Fits;
    RenderTokens(Token("Content-Range: "), Token(field), Token(CRLF), content);
    LastRendered(content);
    RenderAppend([Token("Content-Range: "), Token(field), Token(CRLF)], [Token(CRLF)], content);
  }

  lemma LastRendered(content: string)
    ensures Fits([Token(CRLF)], |content|) && Render([Token(CRLF)], content) == CRLF
  {
    assert Render([Token(CRLF)], content) == CRLF + "";
  }

  lemma OneSliceRendered(offset: nat, length: nat, content: string)
    requires offset + length <= |content|
    ensures Fits([Slice(offset, length)], |content|)
    ensures Render([Slice(offset, length)], content) == content[offset..offset + length]
  {
    var pieces := [Slice(offset, length)];
    assert pieces[1..] == [];
  }

  lemma DataRendered(ol: (nat, nat), content: string)
    requires ol.0 + ol.1 <= |content|
    ensures Fits(DataPieces(ol), |content|)
    ensures Render(DataPieces(ol), content) == content[ol.0..ol.0 + ol.1] + CRLF
  {
    hide Render, Fits;
    OneSliceRendered(ol.0, ol.1, content);
    LastRendered(content);
    RenderAppend([Slice(ol.0, ol.1)], [Token(CRLF)], content);
    assert DataPieces(ol) == [Slice(ol.0, ol.1)] + [Token(CRLF)];
  }

  lemma ReadDataIs(r: Range, content: string, rest: string)
    requires Within(r, |content|)
    ensures ReadData(content[r.first..r.last + 1] + (CRLF + rest), r.first, r.last, |content|)
            == Some((PartOf(r, content), rest))
  {
    hide Strip;
    var slice := content[r.first..r.last + 1];
    var more := slice + (CRLF + rest);
    assert more[..|slice|] == slice && more[|slice|..] == CRLF + rest;
    StripIs(CRLF, rest);
  }

  /** The reader takes back one printed part. */
  lemma ReadPartIs(r: Range, boundary: string, contentType: string, content: string, rest: string)
    requires Within(r, |content|)
    ensures ReadPart(PartText(r, boundary, contentType, content, rest), boundary, contentType)
            == Some((PartOf(r, content), rest))
  {
    hide Opening, ReadPositions, ToString, ReadData, Strip;
    var more := content[r.first..r.last + 1] + (CRLF + rest);
    var total := ToString(|content|);
    var numbers := ToString(r.first) + ("-" + (ToString(r.last) + ("/" + (total + (CRLF + CRLF + more)))));
    StripIs(Opening(boundary, contentType), numbers);
    ReadPositionsIs(r.first, r.last, |content|, more);
    ReadDataIs(r, content, rest);
  }

  function PartOf(r: Range, content: string): Part
    requires Within(r, |content|)
  {
    Part(r.first, r.last, |content|, content[r.first..r.last + 1])
  }

  /** What is read back: each range's positions, and exactly the bytes asked for. */
  function Parts(rs: seq<Range>, content: string): (parts: seq<Part>)
    requires AllWithin(rs, |content|)
    ensures |parts| == |rs|
    ensures forall i :: 0 <= i < |rs| ==> Within(rs[i], |content|) && parts[i] == PartOf(rs[i], content)
  {
    if rs == [] then [] else [PartOf(rs[0], content)] + Parts(rs[1..], content)
  }

  lemma NotClosing(r: Range, boundary: string, contentType: string, content: string, rest: string)
    requires Within(r, |content|)
    ensures PartText(r, boundary, contentType, content, rest) != "--" + boundary + "--"
  {
    hide ToString;
    var n := 2 + |boundary|;
    assert Opening(boundary, contentType)[n] == '\r';
    assert PartText(r, boundary, contentType, content, rest)[n] == Opening(boundary, contentType)[n];
    assert ("--" + boundary + "--")[n] == '-';
  }

  /** Round trip: the printed ranges read back as the requested slices, in order. */
  lemma {:induction false} ReadPrintedRanges(rs: seq<Range>, boundary: string, contentType: string, content: string)
    requires AllWithin(rs, |content|)
    ensures Fits(Pieces(rs, boundary, contentType, |content|), |content|)
    ensures ReadParts(Render(Pieces(rs, boundary, contentType, |content|), content), boundary, contentType)
            == Some(Parts(rs, content))
  {
    hide ReadPart, Render, PartPieces, PartText;
    PartsFit(rs, boundary, contentType, |content|);
    var closing := [Token("--"), Token(boundary), Token("--")];
    RenderTokens(Token("--"), Token(boundary), Token("--"), content);
    if rs == [] {
      assert Pieces(rs, boundary, contentType, |content|) == closing;
    } else {
      var first := PartPieces(rs[0], boundary, contentType, |content|);
      var others := PartsPieces(rs[1..], boundary, contentType, |content|);
      PartsFit(rs[1..], boundary, contentType, |content|);
      Assoc(first, others, closing);
      var rest := Render(others + closing, content);
      RenderFirst(rs, boundary, contentType, content);
      PartRendered(rs[0], boundary, contentType, content, rest);
      ReadPartIs(rs[0], boundary, contentType, content, rest);
      NotClosing(rs[0], boundary, contentType, content, rest);
      ReadPrintedRanges(rs[1..], boundary, contentType, content);
    }
  }

  lemma RenderFirst(rs: seq<Range>, boundary: string, contentType: string, content: string)
    requires rs != [] && AllWithin(rs, |content|)
    ensures Fits(Pieces(rs, boundary, contentType, |content|), |content|)
    ensures Fits(Pieces(rs[1..], boundary, contentType, |content|), |content|)
    ensures Fits(PartPieces(rs[0], boundary, contentType, |content|), |content|)
    ensures Render(Pieces(rs, boundary, contentType, |content|), content)
            == Render(PartPieces(rs[0], boundary, contentType, |content|), content)
               + Render(Pieces(rs[1..], boundary, contentType, |content|), content)
  {
    hide Render;
    PartsFit(rs, boundary, contentType, |content|);
    PartsFit(rs[1..], boundary, contentType, |content|);
    var closing := [Token("--"), Token(boundary), Token("--")];
    var first := PartPieces(rs[0], boundary, contentType, |content|);
    Assoc(first, PartsPieces(rs[1..], boundary, contentType, |content|), closing);
    RenderAppend(first, Pieces(rs[1..], boundary, contentType, |content|), content);
  }
}
