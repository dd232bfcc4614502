/** `read_content_with_length` and `read_content_chunked` over a stream, against the decoder of the whole input. */
module ChunkedReader {
  import opened Bytes
  import opened Streams
  import opened HeaderBlock
  import opened Chunked

  const RECV_BUFSIZ: nat := 16384

  /** The content receiver: it may refuse data at any call unless it is `willing`. */
  class Receiver {
    var received: string
    var refused: bool
    const willing: bool

    constructor (willing: bool)
      ensures received == "" && !refused && this.willing == willing
    {
      received, refused, this.willing := "", false, willing;
    }

    method Receive(data: string) returns (ok: bool)
      modifies this
      ensures ok ==> received == old(received) + data && refused == old(refused)
      ensures !ok ==> refused && received == old(received)
      ensures willing ==> ok
    {
      var refuses: bool := *;
      if refuses && !willing {
        refused := true;
        return false;
      }
      received := received + data;
      return true;
    }
  }

  /** `t` continues `s` by a prefix of `more`. */
  predicate Extends(t: string, s: string, more: string) {
    |s| <= |t| <= |s| + |more| && t == s + more[..|t| - |s|]
  }

  lemma ExtendsMore(t: string, s: string, part: string, more: string)
    requires Extends(t, s, part) && part <= more
    ensures Extends(t, s, more)
  {
    assert more[..|t| - |s|] == part[..|t| - |s|];
  }

  /** `read_content_with_length`: the next `len` bytes, however they arrive. */
  method ReadContentWithLength(strm: SocketStream, len: nat, out: Receiver) returns (ok: bool)
    requires strm.Valid() && !out.refused
    modifies strm.Repr(), out
    ensures strm.Valid()
    ensures var p := old(strm.Pending());
            var n := Min(|p|, len);
            if out.refused then !ok && Extends(out.received, old(out.received), p[..n])
            else ok == (len <= |p|) && out.received == old(out.received) + p[..n] && strm.Pending() == p[n..]
  {
    ghost var p := strm.Pending();
    ghost var before := out.received;
    var r := 0;
    while r < len
      invariant r <= len && r <= |p| && strm.Valid() && strm.Pending() == p[r..]
      invariant !out.refused && out.received == before + p[..r]
    {
      var readLen := len - r;
      var n, data := strm.Read(Min(readLen, RECV_BUFSIZ));
      if n <= 0 { return false; }
      Piece(p, r, data, strm.Pending());
      ghost var sofar := p[..r];
      var accepted := out.Receive(data);
      if !accepted {
        ExtendsMore(out.received, before, p[..r], p[..Min(|p|, len)]);
        return false;
      }
      Assoc(before, sofar, data);
      r := r + n;
    }
    return true;
  }

  lemma Piece(p: string, r: nat, data: string, rest: string)
    requires r <= |p| && p[r..] == data + rest
    ensures r + |data| <= |p| && p[..r] + data == p[..r + |data|] && p[r + |data|..] == rest
  {
    assert p == p[..r] + (data + rest);
    Assoc(p[..r], data, rest);
  }

  // ---------------------------------------------------------------------------
  // read_content_chunked
  // ---------------------------------------------------------------------------

  /** `target` is what remains to be reported once `sofar` has been delivered and `s` is the unread input. */
  ghost predicate Delivers(target: Message, sofar: string, s: string, end: End) {
    target == Prepend(sofar, ReadMessage(s, end))
  }

  lemma SizeStep(target: Message, sofar: string, s: string, end: End)
    requires Delivers(target, sofar, s, end) && HasLine(s, end)
    ensures |AfterLine(s)| < |s|
    ensures match StrToUL(CString(Line(s)))
            case None => target == Message(false, sofar, [], AfterLine(s))
            case Some(len) =>
              && (len == ULONG_MAX ==> target == Message(false, sofar, [], AfterLine(s)))
              && (0 < len < ULONG_MAX && |AfterLine(s)| < len ==>
                    target == Message(false, sofar + AfterLine(s), [], ""))
  {
    hide LineLength, StrToUL, CString;
    assert sofar + "" == sofar;
  }

  lemma DataStep(target: Message, sofar: string, s: string, end: End, len: nat)
    requires Delivers(target, sofar, s, end) && HasLine(s, end)
    requires StrToUL(CString(Line(s))) == Some(len) && 0 < len < ULONG_MAX && len <= |AfterLine(s)|
    ensures var data, tail := AfterLine(s)[..len], AfterLine(s)[len..];
            && (!HasLine(tail, end) || CString(Line(tail)) != CRLF ==>
                  target == Message(false, sofar + data, [], AfterLine(tail)))
            && (HasLine(tail, end) && CString(Line(tail)) == CRLF ==>
                  Delivers(target, sofar + data, AfterLine(tail), end))
            && sofar + data <= target.body
  {
    hide LineLength, StrToUL, CString;
    var tail := AfterLine(s)[len..];
    PrependTwice(sofar, AfterLine(s)[..len], ReadMessage(AfterLine(tail), end));
  }

  lemma LastStep(target: Message, sofar: string, s: string, end: End)
    requires Delivers(target, sofar, s, end) && HasLine(s, end)
    requires StrToUL(CString(Line(s))) == Some(0)
    ensures !HasLine(AfterLine(s), end) ==> target == Message(true, sofar, [], AfterLine(AfterLine(s)))
    ensures HasLine(AfterLine(s), end) ==>
              var b := ReadTrailers(AfterLine(s), end); target == Message(b.ok, sofar, b.fields, b.rest)
  {
    hide LineLength, StrToUL, CString;
    assert sofar + "" == sofar;
  }

  lemma NoMessage(s: string, end: End)
    requires !HasLine(s, end)
    ensures ReadMessage(s, end) == Message(false, "", [], AfterLine(s))
  {
  }

  /** The trailer loop; the reader has just read the first line of `s`. */
  method ReadTrailerLines(reader: StreamLineReader, ghost s0: string) returns (ok: bool, trailers: seq<Header>)
    requires reader.Valid() && HasLine(s0, reader.strm.sock.end)
    requires reader.Text() == Line(s0) && reader.strm.Pending() == AfterLine(s0)
    modifies reader.Repr()
    ensures reader.Valid()
    ensures Block(ok, trailers, reader.strm.Pending()) == ReadTrailers(s0, reader.strm.sock.end)
  {
    hide LineLength, EndsWithCrlf, ParsedHeader, CString, ReadTrailers, Line, AfterLine;
    ghost var target := ReadTrailers(s0, reader.strm.sock.end);
    ghost var s := s0;
    trailers := [];
    var line := reader.Contents();
    assert target == Block(target.ok, [] + target.fields, target.rest);
    while CString(line) != CRLF
      invariant reader.Valid() && line == Line(s) && reader.strm.Pending() == AfterLine(s)
      invariant HasLine(s, reader.strm.sock.end)
      invariant var b := ReadTrailers(s, reader.strm.sock.end);
                target == Block(b.ok, trailers + b.fields, b.rest)
      decreases |s|
    {
      TrailerStep(target, trailers, s, reader.strm.sock.end);
      if |line| > HEADER_MAX_LENGTH { return false, trailers; }
      if |line| >= 2 {
        var h := ParseHeader(line[..|line| - 2]);
        if h.Some? { trailers := trailers + [h.value]; }
      }
      s := AfterLine(s);
      TrailerEnd(target, trailers, s, reader.strm.sock.end);
      var got := reader.Getline();
      if !got { return false, trailers; }
      line := reader.Contents();
    }
    TrailerStep(target, trailers, s, reader.strm.sock.end);
    return true, trailers;
  }

  lemma TrailerStep(target: Block, before: seq<Header>, s: string, end: End)
    requires HasLine(s, end)
    requires var b := ReadTrailers(s, end); target == Block(b.ok, before + b.fields, b.rest)
    ensures |AfterLine(s)| < |s|
    ensures CString(Line(s)) == CRLF ==> target == Block(true, before, AfterLine(s))
    ensures CString(Line(s)) != CRLF && |Line(s)| > HEADER_MAX_LENGTH ==> target == Block(false, before, AfterLine(s))
    ensures CString(Line(s)) != CRLF && |Line(s)| <= HEADER_MAX_LENGTH ==>
              var b := ReadTrailers(AfterLine(s), end);
              var now := match TrailerField(Line(s)) case None => before case Some(h) => before + [h];
              target == Block(b.ok, now + b.fields, b.rest)
  {
    hide LineLength, ParsedHeader, CString;
    assert before + [] == before;
    forall h { Assoc(before, [h], ReadTrailers(AfterLine(s), end).fields); }
  }

  lemma TrailerEnd(target: Block, before: seq<Header>, s: string, end: End)
    requires var b := ReadTrailers(s, end); target == Block(b.ok, before + b.fields, b.rest)
    ensures !HasLine(s, end) ==> target == Block(false, before, AfterLine(s))
  {
    assert before + [] == before;
  }

  /** One chunk after its size line: the data and the CRLF that must follow. */
  method ReadChunkBody(reader: StreamLineReader, len: nat, out: Receiver) returns (ok: bool)
    requires reader.Valid() && !out.refused && 0 < len
    modifies reader.Repr(), out
    ensures reader.Valid()
    ensures var p := old(reader.strm.Pending());
            var n := Min(|p|, len);
            if out.refused then !ok && Extends(out.received, old(out.received), p[..n])
            else
              && out.received == old(out.received) + p[..n]
              && (|p| < len ==> !ok && reader.strm.Pending() == "")
              && (|p| >= len ==>
                    reader.strm.Pending() == AfterLine(p[len..])
                    && (ok <==> HasLine(p[len..], reader.strm.sock.end) && CString(Line(p[len..])) == CRLF))
  {
    hide LineLength, EndsWithCrlf, CString, Line, AfterLine, Extends;
    ghost var p := reader.strm.Pending();
    var got := ReadContentWithLength(reader.strm, len, out);
    if !got { return false; }
    got := reader.Getline();
    if !got { return false; }
    var line := reader.Contents();
    return CString(line) == CRLF;
  }

  /** For every input and every pattern of short reads, what is delivered is what the whole-input decoder says. */
  method ReadContentChunked(strm: SocketStream, out: Receiver) returns (ok: bool, trailers: seq<Header>)
    requires strm.Valid() && !out.refused
    modifies strm.Repr(), out
    ensures strm.Valid()
    ensures var m := ReadMessage(old(strm.Pending()), strm.sock.end);
            if out.refused then !ok && Extends(out.received, old(out.received), m.body)
            else ok == m.ok && out.received == old(out.received) + m.body && trailers == m.trailers
                 && strm.Pending() == m.rest
  {
    hide LineLength, EndsWithCrlf, CString, Line, AfterLine, ReadMessage, ReadTrailers, StrToUL, Prepend, Delivers,
         Extends;
    var buf := new char[16];
    var reader := new StreamLineReader(strm, buf);
    trailers := [];
    ghost var before := out.received;
    ghost var s := strm.Pending();
    ghost var end := strm.sock.end;
    ghost var target := ReadMessage(s, end);
    ghost var sofar := "";
    StartDelivery(s, end);
    if !HasLine(s, end) { NoMessage(s, end); }
    assert before + "" == before;
    ok := reader.Getline();
    if !ok { return; }
    while true
      invariant reader.Valid() && reader.strm == strm && fresh(reader) && reader.fixedBuffer == buf && fresh(buf)
      invariant HasLine(s, end) && reader.Text() == Line(s) && strm.Pending() == AfterLine(s)
      invariant Delivers(target, sofar, s, end) && !out.refused && out.received == before + sofar
      invariant trailers == []
      decreases |s|
    {
      SizeStep(target, sofar, s, end);
      var line := reader.Contents();
      var size := StrToUL(CString(line));
      if size.None? || size.value == ULONG_MAX { ok := false; return; }
      var len := size.value;
      if len == 0 { break; }
      ghost var p := strm.Pending();
      ok := ReadChunkBody(reader, len, out);
      ghost var n := Min(|p|, len);
      ChunkDelivered(target, before, sofar, s, end, len, out.received);
      if !ok { return; }
      sofar := sofar + p[..len];
      s := AfterLine(p[len..]);
      if !HasLine(s, end) { DeliversNothing(target, sofar, s, end); }
      LaterIsShorter(p, len);
      ok := reader.Getline();
      if !ok { return; }
    }
    LastStep(target, sofar, s, end);
    ghost var last := AfterLine(s);
    ok := reader.Getline();
    if !ok { ok := true; return; }
    ok, trailers := ReadTrailerLines(reader, last);
  }

  lemma StartDelivery(s: string, end: End)
    ensures Delivers(ReadMessage(s, end), "", s, end)
  {
    PrependTwice("", "", ReadMessage(s, end));
  }

  lemma DeliversNothing(target: Message, sofar: string, s: string, end: End)
    requires Delivers(target, sofar, s, end) && !HasLine(s, end)
    ensures target == Message(false, sofar, [], AfterLine(s))
  {
    assert sofar + "" == sofar;
  }

  lemma LaterIsShorter(p: string, len: nat)
    requires len <= |p|
    ensures |AfterLine(p[len..])| <= |p|
  {
  }

  /** The bookkeeping for one chunk, in each of its outcomes. */
  lemma ChunkDelivered(target: Message, before: string, sofar: string, s: string, end: End, len: nat, received: string)
    requires Delivers(target, sofar, s, end) && HasLine(s, end)
    requires StrToUL(CString(Line(s))) == Some(len) && 0 < len < ULONG_MAX
    ensures var p := AfterLine(s);
            var n := Min(|p|, len);
            && (before + sofar) + p[..n] == before + (sofar + p[..n])
            && (Extends(received, before + sofar, p[..n]) ==> Extends(received, before, target.body))
            && (|p| < len ==> target == Message(false, sofar + p[..n], [], ""))
            && (|p| >= len ==>
                  var tail := p[len..];
                  && (!HasLine(tail, end) || CString(Line(tail)) != CRLF ==>
                        target == Message(false, sofar + p[..n], [], AfterLine(tail)))
                  && (HasLine(tail, end) && CString(Line(tail)) == CRLF ==>
                        Delivers(target, sofar + p[..n], AfterLine(tail), end)))
  {
    hide LineLength, EndsWithCrlf, CString, Line, AfterLine, ReadMessage, StrToUL, Delivers;
    var p := AfterLine(s);
    var n := Min(|p|, len);
    Assoc(before, sofar, p[..n]);
    SizeStep(target, sofar, s, end);
    if |p| < len {
      assert p[..n] == p;
    } else {
      DataStep(target, sofar, s, end, len);
    }
    if Extends(received, before + sofar, p[..n]) { ExtendsThrough(received, before, sofar, p[..n], target.body); }
  }

  lemma ExtendsThrough(t: string, s: string, middle: string, part: string, more: string)
    requires Extends(t, s + middle, part) && middle + part <= more
    ensures Extends(t, s, more)
  {
    var k := |t| - |s| - |middle|;
    assert t == s + (middle + part[..k]);
    assert more[..|t| - |s|] == middle + part[..k];
  }
}
