/** The users of the multi-range printer: the body built in memory, the length counted, and the parts sent. */
module RangeResponse {
  import opened Bytes
  import opened Chunked
  import opened Ranges
  import opened RangeFraming

  // ---------------------------------------------------------------------------
  // What the writes of a response carry
  // ---------------------------------------------------------------------------

  /** The writes made for one piece: a token is written once, whatever comes of it; a stretch of the content until all
      of it is taken. */
  predicate Performs(p: Piece, writes: seq<Attempt>, content: string) {
    match p
    case Token(text) =>
      if text == "" then writes == []
      else |writes| == 1 && writes[0].data == text && (writes[0].taken == -1 || 0 < writes[0].taken <= |text|)
    case Slice(offset, length) =>
      offset + length <= |content| && TakenBytes(writes) == content[offset..offset + length]
  }

  /** The writes of the pieces, piece by piece. */
  predicate PerformsAll(pieces: seq<Piece>, groups: seq<seq<Attempt>>, content: string) {
    |groups| == |pieces| && forall i :: 0 <= i < |pieces| ==> Performs(pieces[i], groups[i], content)
  }

  /** The write of a token took all its bytes. */
  predicate TookToken(p: Piece, writes: seq<Attempt>) {
    p.Token? && p.text != "" ==> writes != [] && writes[0].taken == |p.text|
  }

  predicate TookAllTokens(pieces: seq<Piece>, groups: seq<seq<Attempt>>) {
    |groups| == |pieces| && forall i :: 0 <= i < |pieces| ==> TookToken(pieces[i], groups[i])
  }

  lemma OneGroup(p: Piece, writes: seq<Attempt>, content: string)
    requires (p.Slice? ==> p.offset + p.length <= |content|) && Performs(p, writes, content)
    ensures |TakenBytes(writes)| <= |RenderPiece(p, content)|
    ensures |TakenBytes(writes)| == |RenderPiece(p, content)| <==> TookToken(p, writes)
    ensures TookToken(p, writes) ==> TakenBytes(writes) == RenderPiece(p, content)
  {
    if p.Token? && p.text != "" {
      assert writes[..0] == [];
      assert TakenBytes(writes) == TakenBytes([]) + TakenPart(writes[0]) == TakenPart(writes[0]);
      if writes[0].taken == |p.text| { assert p.text[..|p.text|] == p.text; }
    }
  }

  /** The connection gets the text of the pieces exactly when every token write took all its bytes. */
  lemma {:induction false} SentWholeIff(pieces: seq<Piece>, groups: seq<seq<Attempt>>, content: string)
    requires Fits(pieces, |content|) && PerformsAll(pieces, groups, content)
    ensures |TakenBytes(Flatten(groups))| <= |Render(pieces, content)|
    ensures TakenBytes(Flatten(groups)) == Render(pieces, content) <==> TookAllTokens(pieces, groups)
    decreases |pieces|
  {
    if pieces != [] {
      hide Performs, TookToken;
      assert pieces[0] in pieces;
      OneGroup(pieces[0], groups[0], content);
      SentWholeIff(pieces[1..], groups[1..], content);
      TakenBytesAppend(groups[0], Flatten(groups[1..]));
      var a, b := TakenBytes(groups[0]), TakenBytes(Flatten(groups[1..]));
      var x, y := RenderPiece(pieces[0], content), Render(pieces[1..], content);
      assert a + b == x + y ==> |a| == |x| && |b| == |y|;
      assert |a| == |x| ==> (a + b)[|a|..] == b && (x + y)[|x|..] == y;
      assert TookAllTokens(pieces, groups) <==>
          TookToken(pieces[0], groups[0]) && TookAllTokens(pieces[1..], groups[1..]);
    }
  }

  lemma PerformsOneMore(pieces: seq<Piece>, groups: seq<seq<Attempt>>, p: Piece, writes: seq<Attempt>, content: string)
    requires PerformsAll(pieces, groups, content) && Performs(p, writes, content)
    ensures PerformsAll(pieces + [p], groups + [writes], content)
  {
    hide Performs;
  }

  lemma {:induction false} FlattenOneMore(before: seq<Attempt>, groups: seq<seq<Attempt>>, writes: seq<Attempt>)
    ensures before + Flatten(groups) + writes == before + Flatten(groups + [writes])
    decreases |groups|
  {
    if groups == [] {
      assert [writes][1..] == [] && [] + [writes] == [writes];
      assert Flatten([writes]) == writes + Flatten([]) == writes;
    } else {
      assert (groups + [writes])[1..] == groups[1..] + [writes];
      FlattenOneMore(before + groups[0], groups[1..], writes);
      Assoc(before, groups[0], Flatten(groups[1..]));
      Assoc(before, groups[0], Flatten(groups[1..] + [writes]));
    }
  }

  // ---------------------------------------------------------------------------
  // write_content
  // ---------------------------------------------------------------------------

  /** The sink a content provider writes on, over the connection. */
  class ContentSink {
    const strm: OutStream
    var offset: nat
    var ok: bool

    constructor (strm: OutStream, offset: nat)
      ensures this.strm == strm && this.offset == offset && ok
    {
      this.strm, this.offset, ok := strm, offset, true;
    }

    /** `data_sink.write` */
    method Write(d: string) returns (r: bool)
      requires strm.Valid()
      modifies this, strm
      ensures strm.Valid() && old(strm.log) <= strm.log && r == ok
      ensures ok ==> old(ok) && offset == old(offset) + |d| && strm.sent == old(strm.sent) + d
      ensures old(ok) && !ok ==> strm.broken
    {
      hide OutStream.Planned, TakenBytes;
      if ok {
        if strm.broken {
          ok := false;
        } else {
          var written := strm.WriteData(d);
          if written { offset := offset + |d|; } else { ok := false; }
        }
      }
      r := ok;
    }
  }

  /** `s` is `start` followed by the content from `from` to `to`. */
  predicate SentUpTo(s: string, start: string, content: string, from: nat, to: nat) {
    from <= to <= |content| && s == start + content[from..to]
  }

  lemma SentMore(s: string, start: string, content: string, from: nat, to: nat, more: nat)
    requires SentUpTo(s, start, content, from, to) && to + more <= |content|
    ensures SentUpTo(s + content[to..to + more], start, content, from, to + more)
  {
    assert content[from..to] + content[to..to + more] == content[from..to + more];
    Assoc(start, content[from..to], content[to..to + more]);
  }

  /** A conforming provider: it writes what is asked for in any number of pieces, and stops when it likes after the
      first; unless it is `willing` it may refuse. */
  class ContentProvider {
    const content: string
    const willing: bool

    constructor (content: string, willing: bool)
      ensures this.content == content && this.willing == willing
    {
      this.content, this.willing := content, willing;
    }

    method Provide(offset: nat, length: nat, sink: ContentSink, ghost start: string, ghost from: nat)
        returns (r: bool)
      requires sink.strm.Valid() && 0 < length && offset + length <= |content| && sink.offset == offset && sink.ok
      requires SentUpTo(sink.strm.sent, start, content, from, offset)
      modifies sink, sink.strm
      ensures sink.strm.Valid() && old(sink.strm.log) <= sink.strm.log
      ensures willing ==> r
      ensures r && sink.ok ==>
                offset < sink.offset <= offset + length && SentUpTo(sink.strm.sent, start, content, from, sink.offset)
      ensures !sink.ok ==> sink.strm.broken
    {
      hide SentUpTo, OutStream.Planned, TakenBytes;
      var refuses: bool := *;
      if refuses && !willing { return false; }
      var done := 0;
      var stops := false;
      while done < length && !stops && sink.ok
        invariant done <= length && sink.strm.Valid() && old(sink.strm.log) <= sink.strm.log
        invariant sink.ok ==> sink.offset == offset + done
        invariant sink.ok ==> SentUpTo(sink.strm.sent, start, content, from, offset + done)
        invariant !sink.ok ==> sink.strm.broken
        invariant stops || done == length ==> done > 0
        decreases length - done
      {
        var n :| 1 <= n <= length - done;
        SentMore(sink.strm.sent, start, content, from, offset + done, n);
        var _ := sink.Write(content[offset + done..offset + done + n]);
        done := done + n;
        stops := *;
      }
      return true;
    }
  }

  /** `write_content`, not shutting down: succeeds unless the connection breaks or the provider refuses, and then the
      stretch asked for has been sent. */
  method WriteContent(strm: OutStream, provider: ContentProvider, offset: nat, length: nat) returns (r: bool)
    requires strm.Valid() && offset + length <= |provider.content|
    modifies strm
    ensures strm.Valid() && old(strm.log) <= strm.log
    ensures r || strm.broken || !provider.willing
    ensures r ==> strm.sent == old(strm.sent) + provider.content[offset..offset + length]
  {
    hide OutStream.Planned, TakenBytes;
    var endOffset := offset + length;
    var sink := new ContentSink(strm, offset);
    assert strm.sent + provider.content[offset..offset] == strm.sent;
    while sink.offset < endOffset
      invariant sink.strm == strm && fresh(sink) && strm.Valid() && old(strm.log) <= strm.log && sink.ok
      invariant offset <= sink.offset <= endOffset
      invariant SentUpTo(strm.sent, old(strm.sent), provider.content, offset, sink.offset)
      decreases endOffset - sink.offset
    {
      if strm.broken { return false; }
      var given := provider.Provide(sink.offset, endOffset - sink.offset, sink, old(strm.sent), offset);
      if !given { return false; }
      if !sink.ok { return false; }
    }
    return true;
  }

  // ---------------------------------------------------------------------------
  // process_multipart_ranges_data
  // ---------------------------------------------------------------------------

  /** What the three instantiations of the printer do with its tokens. */
  datatype Use = Append(body: string) | Count | Send(strm: OutStream, provider: ContentProvider)

  class RangeSink {
    const use: Use
    const contentLength: nat
    var data: string
    var dataLength: nat
    /** Everything taken so far, the log before, and the writes made for each piece. */
    ghost var taken: seq<Piece>
    ghost var before: seq<Attempt>
    ghost var groups: seq<seq<Attempt>>

    ghost predicate Valid()
      reads this, Footprint()
    {
      && Fits(taken, contentLength)
      && match use {
           case Append(body) => |body| == contentLength && data == Render(taken, body)
           case Count => dataLength == Size(taken)
           case Send(strm, provider) => |provider.content| == contentLength && strm.Valid() && Performed()
         }
    }

    /** The connection's log is the writes of what was taken. */
    ghost predicate Performed()
      requires use.Send?
      reads this, Footprint()
    {
      use.strm.log == before + Flatten(groups) && PerformsAll(taken, groups, use.provider.content)
    }

    ghost function Footprint(): set<object> {
      if use.Send? then {use.strm} else {}
    }

    /** Nothing to be reported: the connection is up and the provider willing. */
    ghost predicate Fine()
      reads Footprint()
    {
      use.Send? ==> !use.strm.broken && use.provider.willing
    }

    constructor (use: Use, contentLength: nat)
      requires use.Append? ==> |use.body| == contentLength
      requires use.Send? ==> |use.provider.content| == contentLength && use.strm.Valid()
      ensures Valid() && this.use == use && this.contentLength == contentLength && taken == [] && groups == []
      ensures use.Send? ==> before == use.strm.log
    {
      this.use, this.contentLength := use, contentLength;
      data, dataLength := "", 0;
      taken, groups := [], [];
      before := if use.Send? then use.strm.log else [];
    }

    lemma Took(p: Piece, content: string)
      requires Fits(taken, |content|) && (p.Slice? ==> p.offset + p.length <= |content|)
      ensures Fits(taken + [p], |content|)
      ensures Render(taken + [p], content) == Render(taken, content) + RenderPiece(p, content)
      ensures Size(taken + [p]) == Size(taken) + PieceSize(p)
    {
      hide Render;
      RenderAppend(taken, [p], content);
      RenderStep(p, [], content);
      NothingRendered(content);
      assert [p] + [] == [p];
      assert RenderPiece(p, content) + "" == RenderPiece(p, content);
      SizeAppend(taken, [p]);
      assert Size([p]) == PieceSize(p) + Size([]);
    }

    ghost function AnyContent(n: nat): (s: string)
      ensures |s| == n
    {
      seq(n, _ => ' ')
    }

    ghost function Content(): string {
      if use.Append? then use.body
      else if use.Send? then use.provider.content
      else AnyContent(contentLength)
    }

    /** `stoken` and `ctoken` on a connection: one write, whose result is ignored. */
    method SendToken(text: string)
      requires Valid() && use.Send?
      modifies this, use.strm
      ensures Valid() && taken == old(taken) + [Token(text)] && before == old(before)
      ensures old(use.strm.broken) ==> use.strm.broken
    {
      hide Render, Fits, Size, PerformsAll, OutStream.Planned, TakenBytes;
      ghost var content := use.provider.content;
      Took(Token(text), content);
      ghost var writes: seq<Attempt> := [];
      if text != "" {
        var n := use.strm.Write(text);
        writes := [Attempt(text, n)];
      }
      FlattenOneMore(before, groups, writes);
      assert before + Flatten(groups) + [] == before + Flatten(groups);
      PerformsOneMore(taken, groups, Token(text), writes, content);
      groups := groups + [writes];
      taken := taken + [Token(text)];
    }

    method TakeToken(text: string)
      requires Valid()
      modifies this, Footprint()
      ensures Valid() && taken == old(taken) + [Token(text)] && before == old(before)
    {
      hide Render, Fits, Size, Performed;
      if use.Send? {
        SendToken(text);
      } else {
        Took(Token(text), Content());
        if use.Append? { data := data + text; } else { dataLength := dataLength + |text|; }
        taken := taken + [Token(text)];
      }
    }

    method SendSlice(offset: nat, length: nat) returns (ok: bool)
      requires Valid() && use.Send? && offset + length <= contentLength
      modifies this, use.strm
      ensures use.strm.Valid() && (ok || use.strm.broken || !use.provider.willing)
      ensures ok ==> Valid() && taken == old(taken) + [Slice(offset, length)] && before == old(before)
    {
      hide Render, Fits, Size, PerformsAll, OutStream.Planned, TakenBytes;
      ghost var content, logged := use.provider.content, use.strm.log;
      Took(Slice(offset, length), content);
      ok := WriteContent(use.strm, use.provider, offset, length);
      if !ok { return false; }
      ghost var writes := use.strm.log[|logged|..];
      SliceWrites(logged, use.strm.log, offset, length, content);
      FlattenOneMore(before, groups, writes);
      PerformsOneMore(taken, groups, Slice(offset, length), writes, content);
      groups := groups + [writes];
      taken := taken + [Slice(offset, length)];
    }

    /** `content` */
    method TakeSlice(offset: nat, length: nat) returns (ok: bool)
      requires Valid() && offset + length <= contentLength
      modifies this, Footprint()
      ensures ok ==> Valid() && taken == old(taken) + [Slice(offset, length)] && before == old(before)
      ensures ok || !Fine()
      ensures use.Send? ==> use.strm.Valid()
    {
      hide Render, Fits, Size, Performed;
      if use.Send? {
        ok := SendSlice(offset, length);
      } else {
        Took(Slice(offset, length), Content());
        if use.Append? {
          data := data + use.body[offset..offset + length];
        } else {
          dataLength := dataLength + length;
        }
        taken := taken + [Slice(offset, length)];
        ok := true;
      }
    }
  }

  lemma SliceWrites(before: seq<Attempt>, after: seq<Attempt>, offset: nat, length: nat, content: string)
    requires before <= after && offset + length <= |content|
    requires TakenBytes(after) == TakenBytes(before) + content[offset..offset + length]
    ensures before + after[|before|..] == after && Performs(Slice(offset, length), after[|before|..], content)
  {
    hide TakenBytes;
    var writes := after[|before|..];
    assert before + writes == after;
    TakenBytesAppend(before, writes);
    CancelPrefix(TakenBytes(before), TakenBytes(writes), content[offset..offset + length]);
  }

  lemma StartTaken(taken: seq<Piece>, boundary: string)
    ensures taken + [Token("--")] + [Token(boundary)] + [Token(CRLF)] == taken + StartPieces(boundary)
  {
  }

  lemma TypeTaken(taken: seq<Piece>, contentType: string)
    ensures contentType == "" ==> taken + TypePieces(contentType) == taken
    ensures contentType != "" ==>
              taken + [Token("Content-Type: ")] + [Token(contentType)] + [Token(CRLF)]
              == taken + TypePieces(contentType)
  {
  }

  lemma RangeTaken(taken: seq<Piece>, field: string)
    ensures taken + [Token("Content-Range: ")] + [Token(field)] + [Token(CRLF)] + [Token(CRLF)]
            == taken + RangePieces(field)
  {
  }

  lemma DataTaken(taken: seq<Piece>, ol: (nat, nat))
    ensures taken + [Slice(ol.0, ol.1)] + [Token(CRLF)] == taken + DataPieces(ol)
  {
  }

  lemma PartTaken(taken: seq<Piece>, r: Range, boundary: string, contentType: string, contentLength: nat)
    requires Within(r, contentLength)
    ensures var ol := GetRangeOffsetAndLength(r, contentLength);
            taken + StartPieces(boundary) + TypePieces(contentType)
            + RangePieces(MakeContentRangeHeaderField(ol, contentLength)) + DataPieces(ol)
            == taken + PartPieces(r, boundary, contentType, contentLength)
  {
    hide StartPieces, TypePieces, RangePieces, DataPieces, MakeContentRangeHeaderField;
  }

  /** One pass of the printer's loop. */
  method ProcessRange(r: Range, boundary: string, contentType: string, sink: RangeSink) returns (ok: bool)
    requires sink.Valid() && Within(r, sink.contentLength)
    modifies sink, sink.Footprint()
    ensures ok ==> sink.Valid() && sink.before == old(sink.before)
    ensures ok ==> sink.taken == old(sink.taken) + PartPieces(r, boundary, contentType, sink.contentLength)
    ensures ok || !sink.Fine()
    ensures sink.use.Send? ==> sink.use.strm.Valid()
  {
    hide PartPieces, StartPieces, TypePieces, RangePieces, DataPieces, MakeContentRangeHeaderField, Render, Fits, Size,
         RangeSink.Performed, OutStream.Planned, TakenBytes;
    StartTaken(sink.taken, boundary);
    sink.TakeToken("--");
    sink.TakeToken(boundary);
    sink.TakeToken(CRLF);
    TypeTaken(sink.taken, contentType);
    if contentType != "" {
      sink.TakeToken("Content-Type: ");
      sink.TakeToken(contentType);
      sink.TakeToken(CRLF);
    }
    var offsetAndLength := GetRangeOffsetAndLength(r, sink.contentLength);
    var field := MakeContentRangeHeaderField(offsetAndLength, sink.contentLength);
    RangeTaken(sink.taken, field);
    sink.TakeToken("Content-Range: ");
    sink.TakeToken(field);
    sink.TakeToken(CRLF);
    sink.TakeToken(CRLF);
    DataTaken(sink.taken, offsetAndLength);
    ok := sink.TakeSlice(offsetAndLength.0, offsetAndLength.1);
    if !ok { return false; }
    sink.TakeToken(CRLF);
    PartTaken(old(sink.taken), r, boundary, contentType, sink.contentLength);
  }

  lemma OnePartMore(taken: seq<Piece>, ranges: seq<Range>, i: nat, boundary: string, contentType: string,
                    contentLength: nat)
    requires AllWithin(ranges, contentLength) && i < |ranges|
    ensures Within(ranges[i], contentLength)
    ensures taken + PartsPieces(ranges[i..], boundary, contentType, contentLength)
            == taken + PartPieces(ranges[i], boundary, contentType, contentLength)
               + PartsPieces(ranges[i + 1..], boundary, contentType, contentLength)
  {
    hide PartPieces;
    assert ranges[i] in ranges;
    Advance(ranges, i);
    Assoc(taken, PartPieces(ranges[i], boundary, contentType, contentLength),
          PartsPieces(ranges[i + 1..], boundary, contentType, contentLength));
  }

  lemma ClosingTaken(taken: seq<Piece>, parts: seq<Piece>, boundary: string)
    ensures taken + parts + [Token("--")] + [Token(boundary)] + [Token("--")]
            == taken + (parts + [Token("--"), Token(boundary), Token("--")])
  {
  }

  /** `process_multipart_ranges_data`: every piece reaches the user, and for a connection the log says what became of
      it; it fails only with the connection or the provider. */
  method ProcessMultipartRangesData(ranges: seq<Range>, boundary: string, contentType: string, sink: RangeSink)
      returns (ok: bool)
    requires sink.Valid() && AllWithin(ranges, sink.contentLength)
    modifies sink, sink.Footprint()
    ensures ok ==> sink.Valid() && sink.before == old(sink.before)
    ensures ok ==> sink.taken == old(sink.taken) + Pieces(ranges, boundary, contentType, sink.contentLength)
    ensures ok || !sink.Fine()
    ensures sink.use.Send? ==> sink.use.strm.Valid()
  {
    hide PartPieces, PartsPieces, Render, Fits, Size, RangeSink.Performed, OutStream.Planned, TakenBytes;
    ghost var target := old(sink.taken) + PartsPieces(ranges, boundary, contentType, sink.contentLength);
    assert ranges[0..] == ranges;
    for i := 0 to |ranges|
      invariant sink.Valid() && sink.before == old(sink.before)
      invariant AllWithin(ranges[i..], sink.contentLength)
      invariant sink.taken + PartsPieces(ranges[i..], boundary, contentType, sink.contentLength) == target
    {
      OnePartMore(sink.taken, ranges, i, boundary, contentType, sink.contentLength);
      ok := ProcessRange(ranges[i], boundary, contentType, sink);
      if !ok { return false; }
    }
    assert ranges[|ranges|..] == [];
    NoParts(sink.taken, boundary, contentType, sink.contentLength);
    ClosingTaken(old(sink.taken), PartsPieces(ranges, boundary, contentType, sink.contentLength), boundary);
    sink.TakeToken("--");
    sink.TakeToken(boundary);
    sink.TakeToken("--");
    return true;
  }

  lemma NoParts(taken: seq<Piece>, boundary: string, contentType: string, contentLength: nat)
    ensures taken + PartsPieces([], boundary, contentType, contentLength) == taken
  {
  }

  // ---------------------------------------------------------------------------
  // The three users
  // ---------------------------------------------------------------------------

  /** The whole text for `ranges` of `content`. */
  function RangesText(ranges: seq<Range>, boundary: string, contentType: string, content: string): string
    requires AllWithin(ranges, |content|)
  {
    PartsFit(ranges, boundary, contentType, |content|);
    Render(Pieces(ranges, boundary, contentType, |content|), content)
  }

  /** `make_multipart_ranges_data` */
  method MakeMultipartRangesData(ranges: seq<Range>, body: string, boundary: string, contentType: string)
      returns (data: string)
    requires AllWithin(ranges, |body|)
    ensures data == RangesText(ranges, boundary, contentType, body)
  {
    hide Pieces, Render, Fits, Size;
    var sink := new RangeSink(Use.Append(body), |body|);
    var ok := ProcessMultipartRangesData(ranges, boundary, contentType, sink);
    assert [] + Pieces(ranges, boundary, contentType, |body|) == Pieces(ranges, boundary, contentType, |body|);
    return sink.data;
  }

  /** `get_multipart_ranges_data_length`: right for every content of that length. */
  method GetMultipartRangesDataLength(ranges: seq<Range>, boundary: string, contentType: string, contentLength: nat)
      returns (length: nat)
    requires AllWithin(ranges, contentLength)
    ensures forall content: string :: |content| == contentLength ==>
              length == |RangesText(ranges, boundary, contentType, content)|
  {
    hide Pieces, Render, Fits, Size, RangesText;
    var sink := new RangeSink(Use.Count, contentLength);
    var ok := ProcessMultipartRangesData(ranges, boundary, contentType, sink);
    ghost var pieces := Pieces(ranges, boundary, contentType, contentLength);
    assert [] + pieces == pieces;
    length := sink.dataLength;
    forall content: string | |content| == contentLength
      ensures length == |RangesText(ranges, boundary, contentType, content)|
    {
      SizeOfText(ranges, boundary, contentType, content);
    }
  }

  lemma SizeOfText(ranges: seq<Range>, boundary: string, contentType: string, content: string)
    requires AllWithin(ranges, |content|)
    ensures Size(Pieces(ranges, boundary, contentType, |content|))
            == |RangesText(ranges, boundary, contentType, content)|
  {
    hide Pieces, Render, Size;
    PartsFit(ranges, boundary, contentType, |content|);
    SizeOfRender(Pieces(ranges, boundary, contentType, |content|), content);
  }

  /** From log `before` to log `after` the writes of `pieces` were made. */
  predicate Carried(before: seq<Attempt>, after: seq<Attempt>, pieces: seq<Piece>, groups: seq<seq<Attempt>>,
                    content: string) {
    after == before + Flatten(groups) && PerformsAll(pieces, groups, content)
  }

  /** Then the text of the pieces has been sent exactly when every token write took all its bytes. */
  lemma CarriedMeans(before: seq<Attempt>, after: seq<Attempt>, pieces: seq<Piece>, groups: seq<seq<Attempt>>,
                     content: string)
    requires Fits(pieces, |content|) && Carried(before, after, pieces, groups, content)
    ensures TakenBytes(after) == TakenBytes(before) + Render(pieces, content) <==> TookAllTokens(pieces, groups)
  {
    hide PerformsAll, TookAllTokens;
    var sent, a, b := TakenBytes(before), TakenBytes(Flatten(groups)), Render(pieces, content);
    TakenBytesAppend(before, Flatten(groups));
    SentWholeIff(pieces, groups, content);
    CancelPrefix(sent, a, b);
  }

  /** On an unbroken connection that takes every write whole, so was every token. */
  lemma WholeConnection(strm: OutStream, before: seq<Attempt>, pieces: seq<Piece>, groups: seq<seq<Attempt>>,
                        content: string)
    requires strm.Valid() && strm.Whole() && !strm.broken
    requires Carried(before, strm.log, pieces, groups, content)
    ensures TookAllTokens(pieces, groups)
  {
    hide TakenBytes;
    forall i | 0 <= i < |pieces| ensures TookToken(pieces[i], groups[i]) {
      if pieces[i].Token? && pieces[i].text != "" {
        assert Performs(pieces[i], groups[i], content);
        var k := InFlattened(groups, i, 0);
        assert strm.log[|before| + k] == groups[i][0];
      }
    }
  }

  lemma {:induction false} InFlattened<T>(lists: seq<seq<T>>, i: nat, j: nat) returns (k: nat)
    requires i < |lists| && j < |lists[i]|
    ensures k < |Flatten(lists)| && Flatten(lists)[k] == lists[i][j]
    decreases i
  {
    if i == 0 { return j; }
    k := InFlattened(lists[1..], i - 1, j);
    k := k + |lists[0]|;
  }

  /** `write_multipart_ranges_data`: fails only with the connection or the provider. When it reports success every
      piece has been written once, and the text is on the connection exactly when no token write was short or failed;
      so it is when the connection takes every write whole and is still up. */
  method WriteMultipartRangesData(strm: OutStream, ranges: seq<Range>, provider: ContentProvider, boundary: string,
                                  contentType: string) returns (r: bool, ghost groups: seq<seq<Attempt>>)
    requires strm.Valid() && AllWithin(ranges, |provider.content|)
    modifies strm
    ensures strm.Valid() && (r || strm.broken || !provider.willing)
    ensures r ==>
              var pieces := Pieces(ranges, boundary, contentType, |provider.content|);
              var text := RangesText(ranges, boundary, contentType, provider.content);
              && Carried(old(strm.log), strm.log, pieces, groups, provider.content)
              && (strm.sent == old(strm.sent) + text <==> TookAllTokens(pieces, groups))
              && (strm.Whole() && !strm.broken ==> strm.sent == old(strm.sent) + text)
  {
    hide Pieces, Render, Fits, Size, TookAllTokens, PerformsAll, OutStream.Planned, TakenBytes;
    ghost var content, before := provider.content, strm.log;
    ghost var pieces := Pieces(ranges, boundary, contentType, |content|);
    PartsFit(ranges, boundary, contentType, |content|);
    var sink := new RangeSink(Use.Send(strm, provider), |provider.content|);
    r := ProcessMultipartRangesData(ranges, boundary, contentType, sink);
    groups := sink.groups;
    if r {
      assert [] + pieces == pieces;
      CarriedMeans(before, strm.log, pieces, groups, content);
      if strm.Whole() && !strm.broken { WholeConnection(strm, before, pieces, groups, content); }
    }
  }

  // ---------------------------------------------------------------------------
  // The response
  // ---------------------------------------------------------------------------

  /** What a 206 response carries: the content, one slice of it, or the printed ranges. */
  function Payload(ranges: seq<Range>, boundary: string, contentType: string, content: string): string
    requires AllWithin(ranges, |content|)
  {
    if ranges == [] then content
    else if |ranges| == 1 then
      assert ranges[0] in ranges;
      content[ranges[0].first..ranges[0].last + 1]
    else RangesText(ranges, boundary, contentType, content)
  }

  /** The payload, piece by piece. */
  function PayloadPieces(ranges: seq<Range>, boundary: string, contentType: string, contentLength: nat): seq<Piece>
    requires AllWithin(ranges, contentLength)
  {
    if ranges == [] then [Slice(0, contentLength)]
    else if |ranges| == 1 then
      assert ranges[0] in ranges;
      var ol := GetRangeOffsetAndLength(ranges[0], contentLength);
      [Slice(ol.0, ol.1)]
    else Pieces(ranges, boundary, contentType, contentLength)
  }

  lemma PayloadRendered(ranges: seq<Range>, boundary: string, contentType: string, content: string)
    requires AllWithin(ranges, |content|)
    ensures Fits(PayloadPieces(ranges, boundary, contentType, |content|), |content|)
    ensures Render(PayloadPieces(ranges, boundary, contentType, |content|), content)
            == Payload(ranges, boundary, contentType, content)
  {
    hide Render, Pieces, Fits;
    if ranges == [] {
      OneSliceRendered(0, |content|, content);
      assert content[0..|content|] == content;
    } else if |ranges| == 1 {
      assert ranges[0] in ranges;
      var ol := GetRangeOffsetAndLength(ranges[0], |content|);
      OneSliceRendered(ol.0, ol.1, content);
    } else {
      PartsFit(ranges, boundary, contentType, |content|);
    }
  }

  /** `data` are the bytes of `content` at the positions of `r`. */
  predicate IsSlice(data: string, r: Range, content: string) {
    && |data| == r.last - r.first + 1
    && forall k :: 0 <= k < |data| ==> 0 <= r.first + k < |content| && data[k] == content[r.first + k]
  }

  /** `out` gives a client the content, the bytes at one range's positions, or a text in which a reader finds each
      range's positions and the bytes at them, in order. */
  predicate Answers(out: string, ranges: seq<Range>, boundary: string, contentType: string, content: string) {
    && (|ranges| == 0 ==> out == content)
    && (|ranges| == 1 ==> IsSlice(out, ranges[0], content))
    && (|ranges| > 1 ==>
          match ReadParts(out, boundary, contentType)
          case None => false
          case Some(parts) =>
            && |parts| == |ranges|
            && forall i :: 0 <= i < |parts| ==>
                 && parts[i].first == ranges[i].first && parts[i].last == ranges[i].last
                 && parts[i].total == |content| && IsSlice(parts[i].data, ranges[i], content))
  }

  lemma PayloadAnswers(ranges: seq<Range>, boundary: string, contentType: string, content: string)
    requires AllWithin(ranges, |content|)
    ensures Answers(Payload(ranges, boundary, contentType, content), ranges, boundary, contentType, content)
  {
    hide ReadParts, Render, Pieces;
    if |ranges| == 1 {
      assert ranges[0] in ranges;
    } else if |ranges| > 1 {
      ReadPrintedRanges(ranges, boundary, contentType, content);
    }
  }

  /** The ranged part of `Server::apply_ranges` for a 206 response: the new body, and the length it announces when
      the body is empty. */
  method ApplyRanges(ranges: seq<Range>, body: string, contentLength: nat, boundary: string, contentType: string)
      returns (newBody: string, announced: Option<nat>)
    requires AllWithin(ranges, if body == "" then contentLength else |body|)
    ensures body != "" ==> announced == None && newBody == Payload(ranges, boundary, contentType, body)
    ensures body != "" ==> Answers(newBody, ranges, boundary, contentType, body)
    ensures body == "" ==> newBody == "" && (announced.Some? <==> contentLength > 0)
    ensures body == "" && contentLength > 0 ==> forall content: string :: |content| == contentLength ==>
              announced.value == |Payload(ranges, boundary, contentType, content)|
    ensures body == "" && contentLength > 0 && |ranges| == 0 ==> announced.value == contentLength
    ensures body == "" && contentLength > 0 && |ranges| == 1 ==>
              announced.value == ranges[0].last - ranges[0].first + 1
  {
    hide RangesText, Answers;
    if body != "" { PayloadAnswers(ranges, boundary, contentType, body); }
    if body == "" {
      if contentLength == 0 { return body, None; }
      if |ranges| == 0 { return body, Some(contentLength); }
      if |ranges| == 1 {
        assert ranges[0] in ranges;
        var offsetAndLength := GetRangeOffsetAndLength(ranges[0], contentLength);
        return body, Some(offsetAndLength.1);
      }
      var length := GetMultipartRangesDataLength(ranges, boundary, contentType, contentLength);
      return body, Some(length);
    }
    if |ranges| == 0 { return body, None; }
    if |ranges| == 1 {
      assert ranges[0] in ranges;
      var offsetAndLength := GetRangeOffsetAndLength(ranges[0], |body|);
      return body[offsetAndLength.0..offsetAndLength.0 + offsetAndLength.1], None;
    }
    var data := MakeMultipartRangesData(ranges, body, boundary, contentType);
    return data, None;
  }

  /** One stretch of the content, as the writes of a single piece. */
  method SendOneSlice(strm: OutStream, provider: ContentProvider, offset: nat, length: nat)
      returns (r: bool, ghost groups: seq<seq<Attempt>>)
    requires strm.Valid() && offset + length <= |provider.content|
    modifies strm
    ensures strm.Valid() && (r || strm.broken || !provider.willing)
    ensures r ==> Carried(old(strm.log), strm.log, [Slice(offset, length)], groups, provider.content)
  {
    hide OutStream.Planned, TakenBytes;
    ghost var before := strm.log;
    r := WriteContent(strm, provider, offset, length);
    groups := [strm.log[|before|..]];
    if r {
      SliceWrites(before, strm.log, offset, length, provider.content);
      assert groups[1..] == [];
      assert Flatten(groups) == groups[0] + Flatten(groups[1..]) == groups[0];
    }
  }

  /** `Server::write_content_with_provider` for a content of known length: as `WriteMultipartRangesData`, for the
      payload of no, one or several ranges. */
  method WriteContentWithProvider(strm: OutStream, ranges: seq<Range>, provider: ContentProvider, boundary: string,
                                  contentType: string) returns (r: bool, ghost groups: seq<seq<Attempt>>)
    requires strm.Valid() && AllWithin(ranges, |provider.content|) && provider.content != ""
    modifies strm
    ensures strm.Valid() && (r || strm.broken || !provider.willing)
    ensures r ==>
              var pieces := PayloadPieces(ranges, boundary, contentType, |provider.content|);
              var payload := Payload(ranges, boundary, contentType, provider.content);
              && Carried(old(strm.log), strm.log, pieces, groups, provider.content)
              && (strm.sent == old(strm.sent) + payload <==> TookAllTokens(pieces, groups))
              && (strm.Whole() && !strm.broken ==> strm.sent == old(strm.sent) + payload)
    ensures r && ((strm.Whole() && !strm.broken) || |ranges| <= 1) ==>
              && old(strm.sent) <= strm.sent
              && Answers(strm.sent[|old(strm.sent)|..], ranges, boundary, contentType, provider.content)
  {
    hide RangesText, Pieces, Render, Fits, TookAllTokens, PerformsAll, OutStream.Planned, TakenBytes, Answers;
    ghost var content, before := provider.content, strm.log;
    ghost var pieces := PayloadPieces(ranges, boundary, contentType, |content|);
    if |ranges| == 0 {
      r, groups := SendOneSlice(strm, provider, 0, |provider.content|);
    } else if |ranges| == 1 {
      assert ranges[0] in ranges;
      var offsetAndLength := GetRangeOffsetAndLength(ranges[0], |provider.content|);
      r, groups := SendOneSlice(strm, provider, offsetAndLength.0, offsetAndLength.1);
    } else {
      r, groups := WriteMultipartRangesData(strm, ranges, provider, boundary, contentType);
    }
    if r {
      PayloadRendered(ranges, boundary, contentType, content);
      CarriedMeans(before, strm.log, pieces, groups, content);
      if strm.Whole() && !strm.broken { WholeConnection(strm, before, pieces, groups, content); }
      if |ranges| <= 1 { NoTokens(pieces, groups, content); }
      PayloadAnswers(ranges, boundary, contentType, content);
    }
  }

  lemma NoTokens(pieces: seq<Piece>, groups: seq<seq<Attempt>>, content: string)
    requires PerformsAll(pieces, groups, content) && forall p :: p in pieces ==> p.Slice?
    ensures TookAllTokens(pieces, groups)
  {
    forall i | 0 <= i < |pieces| ensures TookToken(pieces[i], groups[i]) { assert pieces[i] in pieces; }
  }

  /** The whole ranged response: on a reliable connection that takes every write whole, with a willing provider, just
      as many bytes are sent as were announced, and they are the payload. */
  method RespondWithRanges(strm: OutStream, ranges: seq<Range>, provider: ContentProvider, boundary: string,
                           contentType: string) returns (r: bool, announced: nat)
    requires strm.Valid() && AllWithin(ranges, |provider.content|) && provider.content != ""
    modifies strm
    ensures strm.Valid()
    ensures strm.Reliable() && strm.Whole() && provider.willing ==>
              && r && |strm.sent| == |old(strm.sent)| + announced
              && strm.sent == old(strm.sent) + Payload(ranges, boundary, contentType, provider.content)
              && Answers(strm.sent[|old(strm.sent)|..], ranges, boundary, contentType, provider.content)
  {
    hide Answers, Payload, PayloadPieces, TookAllTokens, Carried, OutStream.Planned, TakenBytes;
    var _, length := ApplyRanges(ranges, "", |provider.content|, boundary, contentType);
    announced := length.value;
    ghost var groups: seq<seq<Attempt>>;
    r, groups := WriteContentWithProvider(strm, ranges, provider, boundary, contentType);
  }

  /** A connection that takes one byte of its first write and everything after: success is reported, and the text is
      not there. */
  method ShortTokenGoesUnnoticed(boundary: string, contentType: string) returns (strm: OutStream, r: bool)
    ensures r && strm.Reliable() && !strm.broken
    ensures strm.sent != RangesText([Range(0, 0), Range(1, 1)], boundary, contentType, "ab")
  {
    hide Render, RangesText, OutStream.Planned, TakenBytes, PerformsAll, TookAllTokens, PartPieces;
    var ranges := [Range(0, 0), Range(1, 1)];
    strm := new OutStream((i: nat) => if i == 0 then TakesUpTo(1) else TakesAll);
    var provider := new ContentProvider("ab", true);
    ghost var groups: seq<seq<Attempt>>;
    r, groups := WriteMultipartRangesData(strm, ranges, provider, boundary, contentType);
    assert "" + RangesText(ranges, boundary, contentType, "ab") == RangesText(ranges, boundary, contentType, "ab");
    ghost var pieces := Pieces(ranges, boundary, contentType, 2);
    FirstPiece(ranges, boundary, contentType, 2);
    FirstTokenShort(strm, pieces, groups, "ab");
  }

  lemma FirstPiece(ranges: seq<Range>, boundary: string, contentType: string, contentLength: nat)
    requires ranges != [] && AllWithin(ranges, contentLength)
    ensures var pieces := Pieces(ranges, boundary, contentType, contentLength); pieces != [] && pieces[0] == Token("--")
  {
    hide MakeContentRangeHeaderField;
    assert StartPieces(boundary)[0] == Token("--");
  }

  lemma FirstTokenShort(strm: OutStream, pieces: seq<Piece>, groups: seq<seq<Attempt>>, content: string)
    requires strm.Valid() && !strm.broken && strm.plan(0) == TakesUpTo(1)
    requires pieces != [] && pieces[0] == Token("--")
    requires Carried([], strm.log, pieces, groups, content)
    ensures !TookAllTokens(pieces, groups)
  {
    hide TakenBytes;
    assert Performs(pieces[0], groups[0], content);
    assert strm.log[0] == groups[0][0];
    assert !TookToken(pieces[0], groups[0]);
  }

  // ---------------------------------------------------------------------------
  // The asserts
  // ---------------------------------------------------------------------------

  lemma OneRange(contentLength: nat)
    requires contentLength > 0
    ensures var rs := [Range(contentLength - 1, -1)];
            Normalised(rs, contentLength) == [Range(contentLength - 1, contentLength - 1)]
            && Acceptable(Normalised(rs, contentLength), contentLength)
  {
    var rs := [Range(contentLength - 1, contentLength - 1)];
    assert Overlapping(rs, 1) == {};
  }

  /** The asserts hold after every acceptance exactly when not both lengths are set, or the one that is checked is
      not the larger: `range_error` takes the content length when there is one, the slices the body's. */
  lemma AssertsHoldIff(contentLength: nat, bodySize: nat)
    ensures var checked := if contentLength != 0 then contentLength else bodySize;
            var used := if bodySize != 0 then bodySize else contentLength;
            (forall rs: seq<Range> ::
               rs != [] && Acceptable(Normalised(rs, checked), checked) ==> AllWithin(Normalised(rs, checked), used))
            <==> (contentLength == 0 || bodySize == 0 || contentLength <= bodySize)
  {
    if !(contentLength == 0 || bodySize == 0 || contentLength <= bodySize) {
      OneRange(contentLength);
      var rs := [Range(contentLength - 1, -1)];
      assert Range(contentLength - 1, contentLength - 1) in Normalised(rs, contentLength);
      assert !AllWithin(Normalised(rs, contentLength), bodySize);
    }
  }
}
