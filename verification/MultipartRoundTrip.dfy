/** What `serialize_multipart_formdata` writes, the parser reads back, in one piece or in any chunks
    (section 5.1.1 of RFC 2046). */
module MultipartRoundTrip {
  import opened Bytes
  import opened PercentCoding
  import opened QueryText
  import opened HeaderBlock
  import opened Multipart
  import opened MultipartNames
  import opened MultipartParser
  import opened MultipartStreaming

  // ---------------------------------------------------------------------------
  // What may be sent
  // ---------------------------------------------------------------------------

  /** `is_multipart_boundary_chars_valid` */
  predicate BoundaryChars(boundary: string) {
    forall i :: 0 <= i < |boundary| ==> IsAlnum(boundary[i]) || boundary[i] == '-' || boundary[i] == '_'
  }

  method IsMultipartBoundaryCharsValid(boundary: string) returns (valid: bool)
    ensures valid <==> BoundaryChars(boundary)
  {
    valid := true;
    var i := 0;
    while i < |boundary|
      invariant i <= |boundary|
      invariant valid && forall k :: 0 <= k < i ==> IsAlnum(boundary[k]) || boundary[k] == '-' || boundary[k] == '_'
    {
      var c := boundary[i];
      if !IsAlnum(c) && c != '-' && c != '_' {
        valid := false;
        break;
      }
      i := i + 1;
    }
  }

  /** A header line that is read as one line, in every chunk it may end up in. */
  predicate SendableLine(line: string) { |line| < HEADER_MAX_LENGTH && Find(line, CRLF) == |line| }

  predicate LinesSendable(file: FileInfo) { SendableLine(DispositionLine(file)) && SendableLine(TypeLine(file)) }

  predicate ContentSendable(content: string, boundary: string) {
    Find(content, Delimiter(boundary)) == |content|
  }

  predicate ItemsSendable(items: seq<Item>, boundary: string) {
    forall x :: x in items ==> LinesSendable(x.file) && ContentSendable(x.content, boundary)
  }

  // ---------------------------------------------------------------------------
  // The machine on a part
  // ---------------------------------------------------------------------------

  lemma LineTaken(c: Config, line: string, rest: string, file: FileInfo)
    requires c.state == PartHeaders && c.window == line + CRLF + rest
    requires line != "" && SendableLine(line) && WithLine(c.file, line) == Some(file)
    ensures ReadPartHeaders(c, true) == ReadPartHeaders(c.(file := file, window := rest), true)
    ensures !TooLong(c.window, true)
  {
    hide Find, WithLine;
    FindLineEnd(line, rest);
  }

  lemma BlankLineTaken(c: Config, rest: string)
    requires c.state == PartHeaders && c.window == CRLF + rest && c.budget == None
    ensures ReadPartHeaders(c, true) == Waiting(Opened(c).(window := rest, state := PartBody))
  {
    hide Find;
    FindLineEnd("", rest);
    assert c.window == "" + CRLF + rest;
  }

  predicate HeadersGive(c: Config, file: FileInfo, f: FileInfo, rest: string) {
    c.state == PartHeaders && c.budget == None && c.file == NO_FILE && c.window == ItemHeaders(file) + rest ==>
      && ReadPartHeaders(c, true) == Waiting(Opened(c.(file := f)).(window := rest, state := PartBody))
      && !TooLong(c.window, true)
  }

  /** The part headers printed for `file` open an item that is described by `f`. */
  ghost predicate ReadsAs(file: FileInfo, f: FileInfo) { forall c, rest :: HeadersGive(c, file, f, rest) }

  /** The part headers bring back the file's description, as far as its two lines do. */
  lemma HeadersTaken(file: FileInfo)
    requires LinesSendable(file) && Reread(file).Some?
    ensures ReadsAs(file, Reread(file).value)
  {
    hide HeadersGive, Reread, SendableLine;
    forall c, rest ensures HeadersGive(c, file, Reread(file).value, rest) {
      HeadersTakenFrom(c, file, rest);
    }
  }

  lemma HeadersTakenFrom(c: Config, file: FileInfo, rest: string)
    requires LinesSendable(file) && Reread(file).Some?
    ensures HeadersGive(c, file, Reread(file).value, rest)
  {
    hide ReadPartHeaders, WithLine, DispositionLine, TypeLine, SendableLine, TooLong;
    if c.state == PartHeaders && c.budget == None && c.file == NO_FILE && c.window == ItemHeaders(file) + rest {
      var first, second := DispositionLine(file), TypeLine(file);
      var last := CRLF + rest;
      var more := if file.contentType == "" then last else second + CRLF + last;
      assert c.window == first + CRLF + more by {
        HeadersRegroup(first, second, rest);
      }
      NonEmptyLines(file);
      var named := WithLine(NO_FILE, first).value;
      LineTaken(c, first, more, named);
      var d := c.(file := named, window := more);
      if file.contentType != "" { LineTaken(d, second, last, Reread(file).value); }
      BlankLineTaken(c.(file := Reread(file).value, window := last), rest);
    }
  }

  lemma NonEmptyLines(file: FileInfo)
    ensures DispositionLine(file) != "" && TypeLine(file) != ""
  {
  }

  lemma HeadersRegroup(first: string, second: string, rest: string)
    ensures (first + CRLF + "" + CRLF) + rest == first + CRLF + (CRLF + rest)
    ensures (first + CRLF + (second + CRLF) + CRLF) + rest == first + CRLF + (second + CRLF + (CRLF + rest))
  {
  }

  /** The delimiter begins with the only CR it has, so no occurrence of it overlaps the end of a content without one. */
  lemma DelimiterFoundAtEnd(content: string, boundary: string, rest: string)
    requires BoundaryChars(boundary) && Find(content, Delimiter(boundary)) == |content|
    ensures Find(content + Delimiter(boundary) + rest, Delimiter(boundary)) == |content|
  {
    hide Find;
    var s := Delimiter(boundary);
    var w := content + s + rest;
    forall p | 0 <= p < |content| ensures !OccursAt(w, s, p) {
      OccursInPrefix(content, s + rest, s, p);
      assert content + (s + rest) == w;
      if p + |s| > |content| {
        var k := |content| - p;          // where the real delimiter would begin inside the supposed one
        assert w[p + k] == s[0] == '\r';
        NoOtherReturn(boundary, k);
        OccursChar(w, s, p, k);
      }
    }
    assert w[|content|..|content| + |s|] == s;
    FindIs(w, s, |content|);
  }

  lemma OccursChar(w: string, s: string, p: nat, k: nat)
    requires k < |s|
    ensures OccursAt(w, s, p) ==> p + k < |w| && w[p + k] == s[k]
  {
    if OccursAt(w, s, p) { assert w[p..p + |s|][k] == w[p + k]; }
  }

  lemma NoOtherReturn(boundary: string, k: nat)
    requires BoundaryChars(boundary) && 0 < k < |Delimiter(boundary)|
    ensures Delimiter(boundary)[k] != '\r'
  {
    if k >= 4 { assert Delimiter(boundary)[k] == boundary[k - 4]; }
  }

  // ---------------------------------------------------------------------------
  // All the parts
  // ---------------------------------------------------------------------------

  /** The serialisation after its first boundary line, with `close` behind the last delimiter. */
  function Entries(items: seq<Item>, boundary: string, close: string): string
    requires items != []
  {
    ItemHeaders(items[0].file)
    + (items[0].content + Delimiter(boundary)
       + if |items| == 1 then close else CRLF + Entries(items[1..], boundary, close))
  }

  /** Every item is read under the description at its place in `files`. */
  ghost predicate AllReadAs(items: seq<Item>, files: seq<FileInfo>, boundary: string) {
    |items| == |files|
    && forall i :: 0 <= i < |items| ==> ReadsAs(items[i].file, files[i]) && ContentSendable(items[i].content, boundary)
  }

  function Renamed(items: seq<Item>, files: seq<FileInfo>): seq<Item>
    requires |items| == |files|
  {
    if items == [] then [] else [Item(files[0], items[0].content)] + Renamed(items[1..], files[1..])
  }

  /** One part, from its first header line to behind its closing delimiter. */
  lemma PartTaken(boundary: string, c: Config, item: Item, f: FileInfo, rest: string)
    requires BoundaryChars(boundary) && ReadsAs(item.file, f) && ContentSendable(item.content, boundary)
    requires c.state == NewEntry && c.budget == None
    requires c.window == ItemHeaders(item.file) + (item.content + Delimiter(boundary) + rest)
    ensures Run(boundary, c, true) == Run(boundary, PartRead(c, Item(f, item.content), rest), true)
  {
    hide Find, ReadPartHeaders, ItemHeaders, Delimiter, TooLong;
    var body := item.content + Delimiter(boundary) + rest;
    var d := c.(file := NO_FILE, state := PartHeaders);
    SomeHeaders(item.file);
    assert HeadersGive(d, item.file, f, body);
    HeadersRun(boundary, d);
    var e := Opened(d.(file := f)).(window := body, state := PartBody);
    DelimiterLengths(boundary);
    DelimiterFoundAtEnd(item.content, boundary, rest);
    BodyRun(boundary, true, e);
    assert body[..|item.content|] == item.content && body[|item.content| + |Delimiter(boundary)|..] == rest;
    ContentGiven(c.items, Item(f, item.content));
  }

  function PartRead(c: Config, item: Item, rest: string): Config {
    c.(file := item.file, items := c.items + [item], window := rest, state := AfterBoundary)
  }

  lemma SomeHeaders(file: FileInfo)
    ensures ItemHeaders(file) != ""
  {
  }

  lemma ContentGiven(items: seq<Item>, item: Item)
    ensures Lengthened(items + [Item(item.file, "")], item.content) == items + [item]
  {
    assert "" + item.content == item.content;
  }

  lemma {:induction false} EntriesTaken(boundary: string, c: Config, items: seq<Item>, files: seq<FileInfo>,
                                        close: string)
    requires items != [] && BoundaryChars(boundary) && AllReadAs(items, files, boundary)
    requires c.state == NewEntry && c.budget == None && !c.valid && (close == "-" || close == "--")
    requires c.window == Entries(items, boundary, close)
    ensures close == "-" ==> StillOpen(Run(boundary, c, true))
    ensures close == "--" ==> JustClosed(Run(boundary, c, true), c.items + Renamed(items, files))
    decreases |items|
  {
    hide Run, ReadsAs, ContentSendable, ItemHeaders, Delimiter;
    var later := items[1..];
    var rest := if |items| == 1 then close else CRLF + Entries(later, boundary, close);
    var x := Item(files[0], items[0].content);
    PartTaken(boundary, c, items[0], files[0], rest);
    var d := PartRead(c, x, rest);
    if |items| == 1 {
      assert Renamed(items, files) == [x];
      Closing(boundary, d, close);
    } else {
      var e := d.(window := Entries(later, boundary, close), state := NewEntry);
      NextPart(boundary, d, e);
      EntriesTaken(boundary, e, later, files[1..], close);
      Assoc(c.items, [x], Renamed(later, files[1..]));
    }
  }

  lemma Closing(boundary: string, d: Config, close: string)
    requires d.state == AfterBoundary && !d.valid && d.window == close
    ensures close == "-" ==> StillOpen(Run(boundary, d, true))
    ensures close == "--" ==> JustClosed(Run(boundary, d, true), d.items)
  {
    assert close == "--" ==> d.window[0] != CRLF[0] && "--" <= d.window;
  }

  lemma NextPart(boundary: string, d: Config, e: Config)
    requires d.state == AfterBoundary && d.window == CRLF + e.window && e == d.(window := e.window, state := NewEntry)
    ensures Run(boundary, d, true) == Run(boundary, e, true)
  {
    assert d.window[2..] == e.window;
  }

  lemma RegroupLast(b: string, h: string, content: string)
    ensures (("--" + b + CRLF + h) + (content + CRLF)) + ("--" + b + "--" + CRLF)
            == ("--" + b + CRLF) + (h + (content + (CRLF + "--" + b) + "--")) + CRLF
  {
  }

  lemma RegroupMore(b: string, h: string, content: string, later: string)
    ensures (("--" + b + CRLF + h) + (content + CRLF)) + (("--" + b + CRLF) + later + CRLF)
            == ("--" + b + CRLF) + (h + (content + (CRLF + "--" + b) + (CRLF + later))) + CRLF
  {
  }

  /** The serialisation, cut where the parser cuts it. */
  lemma {:induction false} SerializedIs(items: seq<Item>, boundary: string)
    requires items != []
    ensures Serialized(items, boundary, true) == FirstDelimiter(boundary) + Entries(items, boundary, "--") + CRLF
  {
    hide ItemHeaders;
    var x, later := items[0], items[1..];
    var h := ItemHeaders(x.file);
    if |items| == 1 {
      assert ItemsText(items, boundary) == ItemText(x, boundary) + "";
      RegroupLast(boundary, h, x.content);
    } else {
      SerializedIs(later, boundary);
      Assoc(ItemText(x, boundary), ItemsText(later, boundary), Finish(boundary));
      RegroupMore(boundary, h, x.content, Entries(later, boundary, "--"));
    }
  }

  lemma {:induction false} EntriesCloseOff(items: seq<Item>, boundary: string)
    requires items != []
    ensures Entries(items, boundary, "--") == Entries(items, boundary, "-") + "-"
  {
    hide ItemHeaders, Delimiter;
    var h, b := ItemHeaders(items[0].file), items[0].content + Delimiter(boundary);
    if |items| == 1 {
      assert h + (b + "--") == h + (b + "-") + "-";
    } else {
      EntriesCloseOff(items[1..], boundary);
      var e := Entries(items[1..], boundary, "-");
      assert h + (b + (CRLF + (e + "-"))) == h + (b + (CRLF + e)) + "-";
    }
  }

  // ---------------------------------------------------------------------------
  // The round trip
  // ---------------------------------------------------------------------------

  /** A parser that has just been given its boundary, with a receiver that never refuses. */
  const NEW_PARSER := Config(InitialBoundary, "", NO_FILE, false, [], None)

  lemma FirstFound(boundary: string, rest: string)
    ensures var w := FirstDelimiter(boundary) + rest;
            Find(w, FirstDelimiter(boundary)) == 0 < |w| && w[|FirstDelimiter(boundary)|..] == rest
  {
    var first := FirstDelimiter(boundary);
    var w := first + rest;
    assert w[0..|first|] == first;
    FindIs(w, first, 0);
  }

  lemma FirstTaken(boundary: string, rest: string)
    ensures Run(boundary, Fed(NEW_PARSER, FirstDelimiter(boundary) + rest), true)
            == Run(boundary, NEW_PARSER.(window := rest, state := NewEntry), true)
  {
    hide Find, FirstDelimiter;
    DelimiterLengths(boundary);
    FirstFound(boundary, rest);
    var w := FirstDelimiter(boundary) + rest;
    assert Fed(NEW_PARSER, w).window == w && w[0..] == w;
  }

  lemma SerializedCloses(items: seq<Item>, files: seq<FileInfo>, boundary: string)
    requires items != [] && BoundaryChars(boundary) && AllReadAs(items, files, boundary)
    ensures ClosesWith(boundary, NEW_PARSER, FirstDelimiter(boundary) + Entries(items, boundary, "--"),
                       Renamed(items, files))
  {
    hide Run, FirstDelimiter, Entries, StillOpen, JustClosed, ReadsAs, ContentSendable;
    var first := FirstDelimiter(boundary);
    var text := first + Entries(items, boundary, "--");
    EntriesCloseOff(items, boundary);
    assert text[..|text| - 1] == first + Entries(items, boundary, "-");
    FirstTaken(boundary, Entries(items, boundary, "-"));
    FirstTaken(boundary, Entries(items, boundary, "--"));
    EntriesTaken(boundary, NEW_PARSER.(window := Entries(items, boundary, "-"), state := NewEntry), items, files, "-");
    EntriesTaken(boundary, NEW_PARSER.(window := Entries(items, boundary, "--"), state := NewEntry), items, files,
                 "--");
    assert [] + Renamed(items, files) == Renamed(items, files);
  }

  lemma FirstAdded(boundary: string, chunk: string)
    requires FirstDelimiter(boundary) <= chunk
    ensures Started(boundary, Fed(NEW_PARSER, chunk))
  {
    hide Find, FirstDelimiter;
    var first := FirstDelimiter(boundary);
    FirstFound(boundary, chunk[|first|..]);
    assert first + chunk[|first|..] == chunk == "" + chunk;
  }

  /** A form whose items are read under the descriptions in `files`, whatever these are, is accepted and delivered under
      them, cut anywhere as long as the first chunk holds the first boundary line. */
  lemma FormReadAs(items: seq<Item>, files: seq<FileInfo>, boundary: string, chunks: seq<string>)
    requires items != [] && BoundaryChars(boundary) && AllReadAs(items, files, boundary)
    requires Concat(chunks) == Serialized(items, boundary, true)
    requires chunks != [] && FirstDelimiter(boundary) <= chunks[0]
    ensures var o := FeedAll(boundary, NEW_PARSER, chunks);
            o.Waiting? && o.config.valid && o.config.items == Renamed(items, files)
  {
    hide FirstDelimiter, Entries, ReadsAs, ContentSendable, FeedAll, ClosesWith, Find, Serialized, Started;
    var first := FirstDelimiter(boundary);
    var text := first + Entries(items, boundary, "--");
    SerializedIs(items, boundary);
    SerializedCloses(items, files, boundary);
    FirstAdded(boundary, chunks[0]);
    FirstAdded(boundary, text);
    ChunksEqualWhole(boundary, NEW_PARSER, chunks, text, Renamed(items, files));
  }

  // ---------------------------------------------------------------------------
  // Forms that are rejected
  // ---------------------------------------------------------------------------

  /** A header line of some item is rejected. */
  predicate AnyRejected(items: seq<Item>) { exists x :: x in items && Reread(x.file) == None }

  lemma RejectedLater(items: seq<Item>)
    requires AnyRejected(items) && Reread(items[0].file).Some?
    ensures |items| > 1 && AnyRejected(items[1..])
  {
    hide Reread;
    var x :| x in items && Reread(x.file) == None;
    assert x in items[1..];
  }

  /** The headers of a rejected item up to the CR behind the line that is not taken. */
  function HeadersUpToBad(file: FileInfo): string {
    if WithLine(NO_FILE, DispositionLine(file)) == None then DispositionLine(file) + "\r"
    else DispositionLine(file) + CRLF + (TypeLine(file) + "\r")
  }

  function BadLine(file: FileInfo): string {
    if WithLine(NO_FILE, DispositionLine(file)) == None then DispositionLine(file) else TypeLine(file)
  }

  /** `Entries` up to there. */
  function UpToBad(items: seq<Item>, boundary: string): string
    requires AnyRejected(items)
  {
    var file := items[0].file;
    if Reread(file) == None then HeadersUpToBad(file)
    else
      RejectedLater(items);
      ItemHeaders(file) + (items[0].content + Delimiter(boundary) + (CRLF + UpToBad(items[1..], boundary)))
  }

  lemma HeadersBad(file: FileInfo) returns (more: string)
    requires Reread(file) == None
    ensures ItemHeaders(file) == HeadersUpToBad(file) + ("\n" + more)
  {
    hide DispositionLine, TypeLine, WithLine;
    var first, second := DispositionLine(file), TypeLine(file);
    if WithLine(NO_FILE, first) == None {
      more := (if file.contentType == "" then "" else second + CRLF) + CRLF;
      assert first + CRLF + more == (first + "\r") + ("\n" + more);
    } else {
      more := CRLF;
      assert first + CRLF + (second + CRLF) + CRLF == (first + CRLF + (second + "\r")) + ("\n" + more);
    }
  }

  lemma {:induction false} EntriesBad(items: seq<Item>, boundary: string, close: string) returns (more: string)
    requires AnyRejected(items)
    ensures Entries(items, boundary, close) == UpToBad(items, boundary) + ("\n" + more)
    decreases |items|
  {
    hide ItemHeaders, HeadersUpToBad, Reread, Delimiter;
    var h, b := ItemHeaders(items[0].file), items[0].content + Delimiter(boundary);
    var later := if |items| == 1 then close else CRLF + Entries(items[1..], boundary, close);
    if Reread(items[0].file) == None {
      var rest := HeadersBad(items[0].file);
      more := rest + (b + later);
      Assoc(HeadersUpToBad(items[0].file), "\n" + rest, b + later);
      Assoc("\n", rest, b + later);
    } else {
      RejectedLater(items);
      more := EntriesBad(items[1..], boundary, close);
      var up := UpToBad(items[1..], boundary);
      RegroupBad(h, b, up, "\n" + more);
    }
  }

  lemma RegroupBad(h: string, b: string, up: string, more: string)
    ensures h + (b + (CRLF + (up + more))) == h + (b + (CRLF + up)) + more
  {
    Assoc(CRLF, up, more);
    Assoc(b, CRLF + up, more);
    Assoc(h, b + (CRLF + up), more);
  }

  lemma LineAwaited(c: Config, line: string)
    requires c.state == PartHeaders && c.window == line + "\r" && SendableLine(line)
    ensures ReadPartHeaders(c, true) == Waiting(c) && !TooLong(c.window, true)
  {
    hide Find, WithLine;
    FindLineEnd(line, "");
  }

  lemma HeadersStop(boundary: string, c: Config, file: FileInfo) returns (d: Config)
    requires LinesSendable(file) && Reread(file) == None
    requires c.state == NewEntry && c.budget == None && !c.valid && c.window == HeadersUpToBad(file)
    ensures Run(boundary, c, true) == Waiting(d) && AwaitsBadLine(d, BadLine(file))
  {
    hide ReadPartHeaders, WithLine, DispositionLine, TypeLine, TooLong, Find;
    NonEmptyLines(file);
    var first, second := DispositionLine(file), TypeLine(file);
    d := c.(file := NO_FILE, state := PartHeaders);
    if WithLine(NO_FILE, first) == None {
      LineAwaited(d, first);
      HeadersRun(boundary, d);
    } else {
      var named := WithLine(NO_FILE, first).value;
      LineTaken(d, first, second + "\r", named);
      HeadersRun(boundary, d);
      d := d.(file := named, window := second + "\r");
      LineAwaited(d, second);
    }
  }

  /** The run up to the bad line ends there. */
  lemma {:induction false} EntriesStop(boundary: string, c: Config, items: seq<Item>) returns (d: Config, line: string)
    requires BoundaryChars(boundary) && ItemsSendable(items, boundary) && AnyRejected(items)
    requires c.state == NewEntry && c.budget == None && !c.valid && c.window == UpToBad(items, boundary)
    ensures Run(boundary, c, true) == Waiting(d) && AwaitsBadLine(d, line)
    decreases |items|
  {
    hide Run, LinesSendable, ContentSendable, Reread, HeadersUpToBad, ItemHeaders, Delimiter, ReadsAs, AwaitsBadLine;
    var x := items[0];
    assert x in items;
    if Reread(x.file) == None {
      d := HeadersStop(boundary, c, x.file);
      line := BadLine(x.file);
    } else {
      RejectedLater(items);
      var later := items[1..];
      var f := Reread(x.file).value;
      HeadersTaken(x.file);
      var rest := CRLF + UpToBad(later, boundary);
      PartTaken(boundary, c, x, f, rest);
      var after := PartRead(c, Item(f, x.content), rest);
      var e := after.(window := UpToBad(later, boundary), state := NewEntry);
      NextPart(boundary, after, e);
      d, line := EntriesStop(boundary, e, later);
    }
  }

  lemma FormRejected(items: seq<Item>, boundary: string, chunks: seq<string>)
    requires BoundaryChars(boundary) && ItemsSendable(items, boundary) && AnyRejected(items)
    requires Concat(chunks) == Serialized(items, boundary, true)
    requires chunks != [] && FirstDelimiter(boundary) <= chunks[0]
    ensures FeedAll(boundary, NEW_PARSER, chunks).Rejected?
  {
    hide FirstDelimiter, Entries, ItemsSendable, FeedAll, Serialized, Started, Run, AnyRejected, AwaitsBadLine, UpToBad;
    var first := FirstDelimiter(boundary);
    var upto := UpToBad(items, boundary);
    assert items != [] by { SomeItem(items); }
    SerializedIs(items, boundary);
    var more := EntriesBad(items, boundary, "--");
    RegroupStop(first, upto, more);
    FirstAdded(boundary, chunks[0]);
    FirstAdded(boundary, first + upto);
    FirstTaken(boundary, upto);
    var d, line := EntriesStop(boundary, NEW_PARSER.(window := upto, state := NewEntry), items);
    ChunksRejected(boundary, NEW_PARSER, chunks, first + upto, more + CRLF, d, line);
  }

  lemma SomeItem(items: seq<Item>)
    requires AnyRejected(items)
    ensures items != []
  {
  }

  lemma RegroupStop(first: string, upto: string, more: string)
    ensures first + (upto + ("\n" + more)) + CRLF == (first + upto) + ("\n" + (more + CRLF))
  {
    Assoc("\n", more, CRLF);
    Assoc(upto, "\n" + more, CRLF);
    Assoc(first, upto + ("\n" + more), CRLF);
    Assoc(first, upto, "\n" + (more + CRLF));
  }

  // ---------------------------------------------------------------------------
  // The round trip
  // ---------------------------------------------------------------------------

  function RereadFiles(items: seq<Item>): seq<FileInfo>
    requires !AnyRejected(items)
  {
    seq(|items|, i requires 0 <= i < |items| => Reread(items[i].file).value)
  }

  lemma {:induction false} RenamedIs(items: seq<Item>, files: seq<FileInfo>)
    requires |items| == |files|
    ensures |Renamed(items, files)| == |items|
    ensures forall i :: 0 <= i < |items| ==> Renamed(items, files)[i] == Item(files[i], items[i].content)
  {
    if items != [] { RenamedIs(items[1..], files[1..]); }
  }

  lemma NoneRejected(items: seq<Item>, boundary: string)
    requires ItemsSendable(items, boundary) && !AnyRejected(items)
    ensures AllReadAs(items, RereadFiles(items), boundary)
  {
    hide Reread, ReadsAs, LinesSendable, ContentSendable;
    forall i | 0 <= i < |items|
      ensures ReadsAs(items[i].file, RereadFiles(items)[i]) && ContentSendable(items[i].content, boundary)
    {
      assert items[i] in items;
      HeadersTaken(items[i].file);
    }
  }

  /** Every form is read as its header lines are: rejected when one of them is, and accepted under what they say
      otherwise, however the text is cut. */
  lemma FormReread(items: seq<Item>, boundary: string, chunks: seq<string>)
    requires items != [] && BoundaryChars(boundary) && ItemsSendable(items, boundary)
    requires Concat(chunks) == Serialized(items, boundary, true)
    requires chunks != [] && FirstDelimiter(boundary) <= chunks[0]
    ensures var o := FeedAll(boundary, NEW_PARSER, chunks);
            if AnyRejected(items) then o.Rejected?
            else o.Waiting? && o.config.valid && o.config.items == Renamed(items, RereadFiles(items))
  {
    hide *;
    if AnyRejected(items) {
      FormRejected(items, boundary, chunks);
    } else {
      NoneRejected(items, boundary);
      FormReadAs(items, RereadFiles(items), boundary, chunks);
    }
  }

  /** Cut the serialised form anywhere, as long as the first chunk holds the first boundary line: the parser accepts it,
      is done with it, and rebuilds the items one for one, exactly when every name, file name and content type is made
      of the characters that survive in a header. */
  lemma MultipartRoundTrip(items: seq<Item>, boundary: string, chunks: seq<string>)
    requires items != [] && BoundaryChars(boundary) && ItemsSendable(items, boundary)
    requires Concat(chunks) == Serialized(items, boundary, true)
    requires chunks != [] && FirstDelimiter(boundary) <= chunks[0]
    ensures var o := FeedAll(boundary, NEW_PARSER, chunks);
            o.Waiting? && o.config.valid && o.config.items == items <==> forall x :: x in items ==> Clean(x.file)
  {
    hide *;
    FormReread(items, boundary, chunks);
    RereadSame(items);
  }

  lemma RereadSame(items: seq<Item>)
    ensures !AnyRejected(items) && Renamed(items, RereadFiles(items)) == items
            <==> forall x :: x in items ==> Clean(x.file)
  {
    hide Reread, Clean, Renamed;
    forall x | x in items ensures Reread(x.file) == Some(x.file) <==> Clean(x.file) { RereadIff(x.file); }
    if !AnyRejected(items) {
      RenamedIs(items, RereadFiles(items));
      if Renamed(items, RereadFiles(items)) == items {
        forall x | x in items ensures Clean(x.file) {
          var i :| 0 <= i < |items| && items[i] == x;
          assert Renamed(items, RereadFiles(items))[i] == items[i];
        }
      }
    }
  }

  // ---------------------------------------------------------------------------
  // Names that never come back
  // ---------------------------------------------------------------------------

  predicate AllClean(items: seq<Item>) { forall i :: 0 <= i < |items| ==> CleanNames(items[i].file) }

  predicate CleanSoFar(c: Config) { CleanNames(c.file) && AllClean(c.items) }

  function ItemsOf(o: Outcome): seq<Item> {
    match o
    case Waiting(c) => c.items
    case Rejected(_, items) => items
  }

  predicate CleanOutcome(o: Outcome) { AllClean(ItemsOf(o)) && (o.Waiting? ==> CleanSoFar(o.config)) }

  lemma {:induction false} HeadersKeepClean(c: Config, strict: bool)
    requires c.state == PartHeaders && CleanSoFar(c)
    ensures CleanOutcome(ReadPartHeaders(c, strict))
    decreases |c.window|
  {
    hide Find, WithLine, TooLong, CleanNames;
    var pos := Find(c.window, CRLF);
    if 0 < pos < |c.window| {
      var line := c.window[..pos];
      LineKeepsClean(c.file, line);
      match WithLine(c.file, line)
      case None =>
      case Some(file) =>
        HeadersKeepClean(c.(file := file, window := c.window[pos + 2..]), strict);
    }
  }

  lemma GivenKeepsClean(c: Config, data: string)
    requires CleanSoFar(c)
    ensures CleanSoFar(Given(c, data))
  {
    hide CleanNames;
  }

  lemma {:induction false} RunKeepsClean(boundary: string, c: Config)
    requires CleanSoFar(c)
    ensures CleanOutcome(Run(boundary, c, false))
    decreases |c.window|, Rank(c.state)
  {
    hide Find, Given, ReadPartHeaders, TooLong, FirstDelimiter, Delimiter, CleanNames, AllClean;
    DelimiterLengths(boundary);
    NoFileIsClean();
    if c.window != "" {
      match c.state
      case InitialBoundary =>
        var first := FirstDelimiter(boundary);
        var rest := c.window[Find(c.window, first)..];
        if first <= rest { RunKeepsClean(boundary, c.(window := rest[|first|..], state := NewEntry)); }
      case NewEntry => RunKeepsClean(boundary, c.(file := NO_FILE, state := PartHeaders));
      case PartHeaders =>
        var o := ReadPartHeaders(c, false);
        HeadersKeepClean(c, false);
        if o.Waiting? && o.config.state == PartBody { RunKeepsClean(boundary, o.config); }
      case PartBody =>
        var s := Delimiter(boundary);
        var pos := Find(c.window, s);
        OccursFits(c.window, s, pos);
        if |s| <= |c.window| {
          GivenKeepsClean(c, c.window[..|c.window| - |s|]);
          GivenKeepsClean(c, c.window[..pos]);
          if pos < |c.window| {
            RunKeepsClean(boundary,
                          Given(c, c.window[..pos]).(window := c.window[pos + |s|..], state := AfterBoundary));
          }
        }
      case AfterBoundary =>
        if CRLF <= c.window { RunKeepsClean(boundary, c.(window := c.window[2..], state := NewEntry)); }
    }
  }

  lemma NoFileIsClean()
    ensures CleanNames(NO_FILE)
  {
  }

  lemma {:induction false} ChunksKeepClean(boundary: string, c: Config, chunks: seq<string>)
    requires CleanSoFar(c)
    ensures CleanOutcome(FeedAll(boundary, c, chunks))
    decreases |chunks|
  {
    hide Run, CleanNames, AllClean;
    if chunks != [] {
      RunKeepsClean(boundary, Fed(c, chunks[0]));
      match Run(boundary, Fed(c, chunks[0]), false)
      case Rejected(_, _) =>
      case Waiting(d) => ChunksKeepClean(boundary, d, chunks[1..]);
    }
  }

  /** Whatever bytes come in, in whatever chunks and for whatever receiver: no item is delivered under a name with
      other than the allowed characters, or with a content type that is not a field value. */
  lemma DeliveredAreClean(boundary: string, budget: Option<nat>, chunks: seq<string>, i: nat)
    requires i < |ItemsOf(FeedAll(boundary, NEW_PARSER.(budget := budget), chunks))|
    ensures CleanNames(ItemsOf(FeedAll(boundary, NEW_PARSER.(budget := budget), chunks))[i].file)
  {
    hide FeedAll;
    ChunksKeepClean(boundary, NEW_PARSER.(budget := budget), chunks);
  }

  lemma BrokenReadsAs()
    ensures ReadsAs(BROKEN_NAME, FileInfo("\"a", "", ""))
  {
    hide HeadersGive;
    forall c, rest ensures HeadersGive(c, BROKEN_NAME, FileInfo("\"a", "", ""), rest) {
      BrokenTaken(c, rest);
    }
  }

  lemma BrokenTaken(c: Config, rest: string)
    ensures HeadersGive(c, BROKEN_NAME, FileInfo("\"a", "", ""), rest)
  {
    hide ReadPartHeaders, WithLine, FirstHalf, SecondHalf, TooLong, SendableLine, DispositionLine;
    if c.state == PartHeaders && c.budget == None && c.file == NO_FILE && c.window == ItemHeaders(BROKEN_NAME) + rest {
      BrokenLines();
      HalvesSendable();
      var first, second, f := FirstHalf(), SecondHalf(), FileInfo("\"a", "", "");
      var last := CRLF + rest;
      RegroupHalves(first, second, rest);
      FirstHalfRead();
      SecondHalfRead(f);
      LineTaken(c, first, second + CRLF + last, f);
      LineTaken(c.(file := f, window := second + CRLF + last), second, last, f);
      BlankLineTaken(c.(file := f, window := last), rest);
    }
  }

  lemma RegroupHalves(first: string, second: string, rest: string)
    ensures (((first + CRLF + second) + CRLF + "") + CRLF) + rest == first + CRLF + (second + CRLF + (CRLF + rest))
  {
  }

  lemma HalvesSendable()
    ensures SendableLine(FirstHalf()) && SendableLine(SecondHalf()) && FirstHalf() != "" && SecondHalf() != ""
  {
    hide OneLine, Find;
    HalvesOneLine();
    NoReturns(FirstHalf());
    NoReturns(SecondHalf());
    assert |FirstHalf()| == 39 && |SecondHalf()| == 5;
  }

  lemma HalvesOneLine()
    ensures OneLine(FirstHalf()) && OneLine(SecondHalf())
  {
  }

  lemma NoReturns(line: string)
    requires OneLine(line)
    ensures Find(line, CRLF) == |line|
  {
    forall p | 0 <= p < |line| ensures !OccursAt(line, CRLF, p) { OccursHead(line, CRLF, p); }
    FindIs(line, CRLF, |line|);
  }

  /** A form with an item of the name "a", CRLF, "X: y" is accepted, in whatever chunks, under the name that stands
      before the line end, with a quote in front: the rest is read as another header line. */
  lemma NameWithLineEnd(content: string, boundary: string, chunks: seq<string>)
    requires BoundaryChars(boundary) && ContentSendable(content, boundary)
    requires Concat(chunks) == Serialized([Item(BROKEN_NAME, content)], boundary, true)
    requires chunks != [] && FirstDelimiter(boundary) <= chunks[0]
    ensures var o := FeedAll(boundary, NEW_PARSER, chunks);
            o.Waiting? && o.config.valid && o.config.items == [Item(FileInfo("\"a", "", ""), content)]
  {
    hide FeedAll, Serialized, FirstDelimiter, BoundaryChars, ContentSendable, ReadsAs;
    BrokenReadsAs();
    var items, files := [Item(BROKEN_NAME, content)], [FileInfo("\"a", "", "")];
    FormReadAs(items, files, boundary, chunks);
    RenamedIs(items, files);
  }
}
