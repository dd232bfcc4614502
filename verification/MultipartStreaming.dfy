/** Cutting the input of the multipart parser into chunks does not change what it delivers. */
module MultipartStreaming {
  import opened Bytes
  import opened HeaderBlock
  import opened Multipart
  import opened MultipartParser

  // ---------------------------------------------------------------------------
  // Searching a window that grows
  // ---------------------------------------------------------------------------

  /** What has been found stays found at the same place. */
  lemma FoundStays(w: string, b: string, pat: string)
    requires pat != "" && Find(w, pat) < |w|
    ensures Find(w + b, pat) == Find(w, pat)
  {
    hide Find, OccursAt;
    var n := Find(w, pat);
    OccursFits(w, pat, n);
    forall p | 0 <= p <= n ensures OccursAt(w + b, pat, p) <==> OccursAt(w, pat, p) {
      OccursInPrefix(w, b, pat, p);
    }
    FindIs(w + b, pat, n);
  }

  lemma OccursFits(w: string, pat: string, p: nat)
    ensures OccursAt(w, pat, p) ==> p + |pat| <= |w|
  {
  }

  /** An occurrence that the old window does not hold ends in the new bytes. */
  lemma FoundLater(w: string, b: string, pat: string)
    requires pat != "" && Find(w, pat) == |w|
    ensures Find(w + b, pat) < |w + b| ==> Find(w + b, pat) + |pat| > |w|
  {
    hide Find, OccursAt;
    var n := Find(w + b, pat);
    OccursInPrefix(w, b, pat, n);
    OccursFits(w, pat, n);
    if n < |w + b| && n + |pat| <= |w| {
      assert false;
    }
  }

  lemma OccursInDrop(s: string, k: nat, pat: string, p: nat)
    requires k <= |s|
    ensures OccursAt(s[k..], pat, p) <==> OccursAt(s, pat, k + p)
  {
    if k + p + |pat| <= |s| { assert s[k..][p..p + |pat|] == s[k + p..k + p + |pat|]; }
  }

  /** Bytes before which nothing begins may be dropped from the search. */
  lemma FindAfterDrop(s: string, k: nat, pat: string)
    requires pat != "" && k <= |s|
    requires Find(s, pat) < |s| ==> k <= Find(s, pat)
    ensures Find(s[k..], pat) == Find(s, pat) - k
  {
    hide Find, OccursAt;
    var n := Find(s, pat);
    forall p: nat ensures OccursAt(s[k..], pat, p) <==> OccursAt(s, pat, k + p) {
      OccursInDrop(s, k, pat, p);
    }
    FindIs(s[k..], pat, n - k);
  }

  lemma TooLongStays(w: string, b: string)
    ensures TooLong(w, true) ==> TooLong(w + b, true)
    ensures Find(w, CRLF) < |w| && TooLong(w + b, true) ==> TooLong(w, true)
  {
    hide Find;
    if Find(w, CRLF) < |w| { FoundStays(w, b, CRLF); } else { FoundLater(w, b, CRLF); }
  }

  // ---------------------------------------------------------------------------
  // One more chunk
  // ---------------------------------------------------------------------------

  lemma FedTwice(c: Config, a: string, b: string)
    ensures Fed(Fed(c, a), b) == Fed(c, a + b)
  {
    Assoc(c.window, a, b);
  }

  lemma {:induction false} HeadersSplit(c: Config, b: string)
    requires c.state == PartHeaders && c.budget == None
    ensures match ReadPartHeaders(c, true)
            case Rejected(_, _) => ReadPartHeaders(Fed(c, b), true).Rejected?
            case Waiting(d) =>
              && d.budget == None && d.valid == c.valid
              && (d.state == PartBody ==> ReadPartHeaders(Fed(c, b), true) == Waiting(Fed(d, b)))
              && (d.state != PartBody ==> d.state == PartHeaders
                                          && ReadPartHeaders(Fed(c, b), true) == ReadPartHeaders(Fed(d, b), true))
    decreases |c.window|
  {
    hide Find, WithLine, TooLong;
    var w := c.window;
    var pos := Find(w, CRLF);
    TooLongStays(w, b);
    if !TooLong(w, true) && pos < |w| {
      FoundStays(w, b, CRLF);
      OccursFits(w, CRLF, pos);
      assert (w + b)[pos + 2..] == w[pos + 2..] + b && (w + b)[..pos] == w[..pos];
      if pos > 0 {
        match WithLine(c.file, w[..pos])
        case None =>
        case Some(file) =>
          HeadersSplit(c.(file := file, window := w[pos + 2..]), b);
      }
    }
  }

  lemma LengthenedTwice(items: seq<Item>, x: string, y: string)
    ensures Lengthened(Lengthened(items, x), y) == Lengthened(items, x + y)
  {
    if items != [] { Assoc(items[|items| - 1].content, x, y); }
  }

  /** Two emissions in a row, against one. */
  lemma EmissionsJoin(items: seq<Item>, all: string, len: nat, end: nat)
    requires len <= end <= |all|
    ensures Lengthened(Lengthened(items, all[..len]), all[len..][..end - len]) == Lengthened(items, all[..end])
    ensures all[len..][end - len..] == all[end..]
  {
    hide Lengthened;
    assert all[..len] + all[len..][..end - len] == all[..end];
    LengthenedTwice(items, all[..len], all[len..][..end - len]);
  }

  /** What the body state retains of `all` after emitting its first `len` bytes. */
  function Emitted(c: Config, all: string, len: nat): Config
    requires len <= |all|
  {
    c.(items := Lengthened(c.items, all[..len]), window := all[len..])
  }

  /** The body closed after `content`, with `rest` behind the delimiter. */
  function BodyClosed(c: Config, content: string, rest: string): Config {
    c.(items := Lengthened(c.items, content), window := rest, state := AfterBoundary)
  }

  lemma BodyTurn(boundary: string, strict: bool, c: Config)
    requires c.state == PartBody && c.budget == None && Find(c.window, Delimiter(boundary)) < |c.window|
    ensures var s := Delimiter(boundary);
            var pos := Find(c.window, s);
            pos + |s| <= |c.window|
            && Run(boundary, c, strict) == Run(boundary, BodyClosed(c, c.window[..pos], c.window[pos + |s|..]), strict)
  {
    hide Find, Lengthened, Run, Delimiter;
    BodyRun(boundary, strict, c);
  }

  lemma ClosedAfterEmitted(c: Config, all: string, len: nat, pos: nat, next: nat)
    requires len <= pos <= next <= |all|
    ensures BodyClosed(Emitted(c, all, len), all[len..][..pos - len], all[len..][next - len..])
            == BodyClosed(c.(window := all), all[..pos], all[next..])
  {
    hide Lengthened;
    EmissionsJoin(c.items, all, len, pos);
    EmissionsJoin(c.items, all, len, next);
  }

  lemma BodyFound(boundary: string, strict: bool, c: Config, all: string, len: nat)
    requires c.state == PartBody && c.budget == None && len <= |all|
    requires len <= Find(all, Delimiter(boundary)) < |all|
    ensures Run(boundary, c.(window := all), strict) == Run(boundary, Emitted(c, all, len), strict)
  {
    hide Find, Delimiter, Run, Emitted, BodyClosed;
    var s := Delimiter(boundary);
    DelimiterLengths(boundary);
    var pos := Find(all, s);
    FindAfterDrop(all, len, s);
    EmittedIs(c, all, len);
    BodyTurn(boundary, strict, c.(window := all));
    BodyTurn(boundary, strict, Emitted(c, all, len));
    ClosedAfterEmitted(c, all, len, pos, pos + |s|);
  }

  lemma EmittedTwice(c: Config, all: string, len: nat, end: nat)
    requires len <= end <= |all|
    ensures Emitted(Emitted(c, all, len), all[len..], end - len) == Emitted(c, all, end)
  {
    hide Lengthened;
    EmissionsJoin(c.items, all, len, end);
  }

  lemma BodyWaits(boundary: string, strict: bool, c: Config, w: string)
    requires c.state == PartBody && c.budget == None
    requires |Delimiter(boundary)| <= |w| && Find(w, Delimiter(boundary)) == |w|
    ensures Run(boundary, c.(window := w), strict) == Waiting(Emitted(c, w, |w| - |Delimiter(boundary)|))
  {
    hide Find, Delimiter, Lengthened, Run;
    DelimiterLengths(boundary);
    BodyRun(boundary, strict, c.(window := w));
    NothingEmitted(c.items);
    if |w| == |Delimiter(boundary)| { assert w[..0] == "" && w[0..] == w; }
  }

  lemma BodyMissing(boundary: string, strict: bool, c: Config, all: string, len: nat)
    requires c.state == PartBody && c.budget == None && len + |Delimiter(boundary)| <= |all|
    requires Find(all, Delimiter(boundary)) == |all|
    ensures Run(boundary, c.(window := all), strict) == Run(boundary, Emitted(c, all, len), strict)
  {
    hide Find, Delimiter, Lengthened, Run, Emitted;
    var s := Delimiter(boundary);
    DelimiterLengths(boundary);
    FindAfterDrop(all, len, s);
    BodyWaits(boundary, strict, c, all);
    EmittedIs(c, all, len);
    BodyWaits(boundary, strict, Emitted(c, all, len), all[len..]);
    EmittedTwice(c, all, len, |all| - |s|);
  }

  lemma EmittedIs(c: Config, all: string, len: nat)
    requires len <= |all|
    ensures var d := Emitted(c, all, len);
            d.state == c.state && d.budget == c.budget && d.window == all[len..] && d.(window := all[len..]) == d
  {
  }

  lemma NothingEmitted(items: seq<Item>)
    ensures Lengthened(items, "") == items
  {
    if items != [] { assert items[|items| - 1].content + "" == items[|items| - 1].content; }
  }

  /** The body state on a window in which the delimiter has not been found yet. */
  lemma BodySplit(boundary: string, c: Config, b: string)
    requires c.state == PartBody && c.budget == None && c.window != ""
    requires Find(c.window, Delimiter(boundary)) == |c.window| > |Delimiter(boundary)|
    ensures var d := Emitted(c, c.window, |c.window| - |Delimiter(boundary)|);
            Run(boundary, c, true) == Waiting(d) && Run(boundary, Fed(c, b), true) == Run(boundary, Fed(d, b), true)
  {
    hide Find, Delimiter, Lengthened, Run;
    var s := Delimiter(boundary);
    var w := c.window;
    var len := |w| - |s|;
    BodyRun(boundary, true, c);
    var all := w + b;
    assert w[len..] + b == all[len..] && w[..len] == all[..len];
    FoundLater(w, b, s);
    if Find(all, s) < |all| {
      BodyFound(boundary, true, c, all, len);
    } else {
      BodyMissing(boundary, true, c, all, len);
    }
  }

  /** One turn in the body state. */
  lemma BodyRun(boundary: string, strict: bool, c: Config)
    requires c.state == PartBody && c.window != "" && c.budget == None
    ensures var s := Delimiter(boundary);
            var pos, len := Find(c.window, s), |c.window| - |s|;
            && s != ""
            && (pos < |c.window| ==> pos + |s| <= |c.window|)
            && (pos < |c.window| ==>
                  Run(boundary, c, strict) == Run(boundary,
                    Given(c, c.window[..pos]).(window := c.window[pos + |s|..], state := AfterBoundary), strict))
            && (pos == |c.window| && len <= 0 ==> Run(boundary, c, strict) == Waiting(c))
            && (pos == |c.window| && len > 0 ==>
                  Run(boundary, c, strict) == Waiting(Given(c, c.window[..len]).(window := c.window[len..])))
  {
    hide Find, Lengthened;
    OccursFits(c.window, Delimiter(boundary), Find(c.window, Delimiter(boundary)));
  }

  /** Running on `c` and then on more bytes is running on all of them; once closed, more bytes change nothing. */
  ghost predicate Splits(boundary: string, c: Config, b: string) {
    match Run(boundary, c, true)
    case Rejected(_, _) => Run(boundary, Fed(c, b), true).Rejected?
    case Waiting(d) =>
      d.budget == None && d.state != InitialBoundary
      && Run(boundary, Fed(c, b), true) == if d.valid then Waiting(d) else Run(boundary, Fed(d, b), true)
  }

  lemma SplitsAfter(boundary: string, c: Config, d: Config, b: string)
    requires Run(boundary, c, true) == Run(boundary, d, true)
    requires Run(boundary, Fed(c, b), true) == Run(boundary, Fed(d, b), true)
    requires Splits(boundary, d, b)
    ensures Splits(boundary, c, b)
  {
  }

  lemma InitialSplit(boundary: string, c: Config, b: string, strict: bool)
    requires c.state == InitialBoundary && Find(c.window, FirstDelimiter(boundary)) < |c.window|
    ensures var first := FirstDelimiter(boundary);
            var d := c.(window := c.window[Find(c.window, first)..][|first|..], state := NewEntry);
            && |d.window| < |c.window|
            && Run(boundary, c, true) == Run(boundary, d, true)
            && Run(boundary, Fed(c, b), strict) == Run(boundary, Fed(d, b), strict)
  {
    hide Find;
    var first := FirstDelimiter(boundary);
    var w, n := c.window, Find(c.window, first);
    FoundStays(w, b, first);
    OccursFits(w, first, n);
    FoundSlices(w, b, first, n);
  }

  lemma FoundSlices(w: string, b: string, pat: string, n: nat)
    requires OccursAt(w, pat, n)
    ensures n + |pat| <= |w| && pat <= w[n..] && (w + b)[n..] == w[n..] + b
    ensures pat <= w[n..] + b && (w[n..] + b)[|pat|..] == w[n..][|pat|..] + b
    ensures (w + b)[n + |pat|..] == w[n + |pat|..] + b && (w + b)[..n] == w[..n]
  {
    assert w[n..][..|pat|] == w[n..n + |pat|];
    assert (w[n..] + b)[..|pat|] == pat;
  }

  lemma BodyClosedFed(c: Config, content: string, rest: string, b: string)
    ensures Fed(BodyClosed(c, content, rest), b) == BodyClosed(Fed(c, b), content, rest + b)
  {
  }

  lemma BodySplitFound(boundary: string, c: Config, b: string, strict: bool)
    requires c.state == PartBody && c.budget == None && Find(c.window, Delimiter(boundary)) < |c.window|
    ensures var s := Delimiter(boundary);
            var pos := Find(c.window, s);
            pos + |s| <= |c.window| &&
            var d := BodyClosed(c, c.window[..pos], c.window[pos + |s|..]);
            && Run(boundary, c, true) == Run(boundary, d, true)
            && Run(boundary, Fed(c, b), strict) == Run(boundary, Fed(d, b), strict)
  {
    hide Find, Lengthened, Run, Delimiter, BodyClosed, OccursAt;
    var s := Delimiter(boundary);
    DelimiterLengths(boundary);
    var pos := Find(c.window, s);
    FoundStays(c.window, b, s);
    FoundSlices(c.window, b, s, pos);
    BodyTurn(boundary, true, c);
    BodyTurn(boundary, strict, Fed(c, b));
    BodyClosedFed(c, c.window[..pos], c.window[pos + |s|..], b);
  }

  lemma AfterBoundarySplit(boundary: string, c: Config, b: string)
    requires c.state == AfterBoundary && !c.valid && c.budget == None
    requires !(CRLF <= c.window)
    ensures Splits(boundary, c, b)
  {
    var w := c.window;
    if |w| >= 2 {
      assert (w + b)[..2] == w[..2];
    }
  }

  lemma HeadersRun(boundary: string, c: Config)
    requires c.state == PartHeaders && c.window != "" && !TooLong(c.window, true)
    ensures var o := ReadPartHeaders(c, true);
            Run(boundary, c, true)
            == if o.Waiting? && o.config.state == PartBody then Run(boundary, o.config, true) else o
  {
  }

  lemma NewEntryRuns(boundary: string, c: Config, strict: bool)
    requires c.state == NewEntry && c.window != ""
    ensures Run(boundary, c, strict) == Run(boundary, c.(file := NO_FILE, state := PartHeaders), strict)
  {
  }

  lemma NextEntryRuns(boundary: string, c: Config, b: string, strict: bool)
    requires c.state == AfterBoundary && CRLF <= c.window
    ensures var d := c.(window := c.window[2..], state := NewEntry);
            Run(boundary, Fed(c, b), strict) == Run(boundary, Fed(d, b), strict)
  {
    assert CRLF <= c.window + b && (c.window + b)[2..] == c.window[2..] + b;
  }

  lemma {:induction false} RunSplit(boundary: string, c: Config, b: string)
    requires c.budget == None && !c.valid
    requires c.state == InitialBoundary ==> Find(c.window, FirstDelimiter(boundary)) < |c.window|
    ensures Splits(boundary, c, b)
    decreases |c.window|, 1 + Rank(c.state)
  {
    hide Find, Lengthened, ReadPartHeaders, TooLong, FirstDelimiter, Delimiter, Run;
    DelimiterLengths(boundary);
    if c.window == "" {
      NothingRuns(boundary, c);
      assert Fed(c, b) == c.(window := b);
    } else {
      match c.state
      case InitialBoundary =>
        InitialSplit(boundary, c, b, true);
        var first := FirstDelimiter(boundary);
        var d := c.(window := c.window[Find(c.window, first)..][|first|..], state := NewEntry);
        RunSplit(boundary, d, b);
        SplitsAfter(boundary, c, d, b);
      case NewEntry =>
        var d := c.(file := NO_FILE, state := PartHeaders);
        NewEntryRuns(boundary, c, true);
        NewEntryRuns(boundary, Fed(c, b), true);
        RunSplit(boundary, d, b);
        SplitsAfter(boundary, c, d, b);
      case PartHeaders => PartHeadersSplit(boundary, c, b);
      case PartBody =>
        var s := Delimiter(boundary);
        var pos := Find(c.window, s);
        if pos < |c.window| {
          BodySplitFound(boundary, c, b, true);
          var d := BodyClosed(c, c.window[..pos], c.window[pos + |s|..]);
          RunSplit(boundary, d, b);
          SplitsAfter(boundary, c, d, b);
        } else if |c.window| > |s| {
          BodySplit(boundary, c, b);
        } else {
          BodyRun(boundary, true, c);
        }
      case AfterBoundary =>
        if CRLF <= c.window {
          var d := c.(window := c.window[2..], state := NewEntry);
          NextEntryRuns(boundary, c, "", true);
          assert c.window + "" == c.window && d.window + "" == d.window;
          NextEntryRuns(boundary, c, b, true);
          RunSplit(boundary, d, b);
          SplitsAfter(boundary, c, d, b);
        } else {
          AfterBoundarySplit(boundary, c, b);
        }
    }
  }

  lemma NothingRuns(boundary: string, c: Config)
    requires c.window == ""
    ensures Run(boundary, c, true) == Waiting(c)
  {
  }

  lemma DelimiterLengths(boundary: string)
    ensures |Delimiter(boundary)| >= 4 && |FirstDelimiter(boundary)| >= 4
  {
  }

  lemma PartHeadersSplit(boundary: string, c: Config, b: string)
    requires c.budget == None && !c.valid && c.state == PartHeaders && c.window != ""
    ensures Splits(boundary, c, b)
    decreases |c.window|, 0
  {
    hide ReadPartHeaders, TooLong;
    TooLongStays(c.window, b);
    HeadersSplit(c, b);
    if !TooLong(c.window, true) {
      var o := ReadPartHeaders(c, true);
      HeadersRun(boundary, c);
      if o.Waiting? && o.config.state == PartBody {
        HeadersReach(boundary, c, o.config, b);
        RunSplit(boundary, o.config, b);
        SplitsAfter(boundary, c, o.config, b);
      } else {
        HeadersWait(boundary, c, b);
      }
    }
  }

  lemma HeadersReach(boundary: string, c: Config, d: Config, b: string)
    requires c.state == PartHeaders && c.window != "" && !TooLong(c.window, true) && d.state == PartBody
    requires ReadPartHeaders(c, true) == Waiting(d) && ReadPartHeaders(Fed(c, b), true) == Waiting(Fed(d, b))
    ensures Run(boundary, Fed(c, b), true) == Run(boundary, Fed(d, b), true)
  {
    hide TooLong;
    if !TooLong(c.window + b, true) { HeadersRun(boundary, Fed(c, b)); }
  }

  lemma HeadersWait(boundary: string, c: Config, b: string)
    requires c.state == PartHeaders && c.window != "" && !TooLong(c.window, true) && c.budget == None && !c.valid
    requires var o := ReadPartHeaders(c, true);
             match o
             case Rejected(_, _) => ReadPartHeaders(Fed(c, b), true).Rejected?
             case Waiting(d) =>
               d.budget == None && !d.valid && d.state == PartHeaders
               && ReadPartHeaders(Fed(c, b), true) == ReadPartHeaders(Fed(d, b), true)
    ensures Splits(boundary, c, b)
  {
    hide ReadPartHeaders, Run, TooLong;
    TooLongStays(c.window, b);
    HeadersRun(boundary, c);
    HeadersTurn(boundary, Fed(c, b));
    match ReadPartHeaders(c, true)
    case Rejected(_, _) =>
    case Waiting(d) =>
      if d.window + b != "" { HeadersTurn(boundary, Fed(d, b)); } else { EmptyHeaders(boundary, Fed(d, b)); }
  }

  /** One turn in the header state, with the check of the line's length moved into the reading of the lines. */
  lemma HeadersTurn(boundary: string, c: Config)
    requires c.state == PartHeaders && c.window != ""
    ensures var o := ReadPartHeaders(c, true);
            Run(boundary, c, true)
            == if o.Waiting? && o.config.state == PartBody then Run(boundary, o.config, true) else o
  {
    if TooLong(c.window, true) { assert ReadPartHeaders(c, true) == Rejected(c.valid, c.items); }
  }

  lemma EmptyHeaders(boundary: string, c: Config)
    requires c.state == PartHeaders && c.window == ""
    ensures Run(boundary, c, true) == Waiting(c) == ReadPartHeaders(c, true)
  {
  }

  // ---------------------------------------------------------------------------
  // The limit on header lines
  // ---------------------------------------------------------------------------

  lemma {:induction false} HeadersStrict(c: Config)
    requires c.state == PartHeaders && ReadPartHeaders(c, true).Waiting?
    ensures ReadPartHeaders(c, false) == ReadPartHeaders(c, true)
    decreases |c.window|
  {
    hide Find, WithLine;
    var pos := Find(c.window, CRLF);
    if 0 < pos < |c.window| {
      match WithLine(c.file, c.window[..pos])
      case None =>
      case Some(file) => HeadersStrict(c.(file := file, window := c.window[pos + 2..]));
    }
  }

  /** Looking at the length of every line instead of the first one only ever rejects more. */
  lemma {:induction false} RunStrict(boundary: string, c: Config)
    requires Run(boundary, c, true).Waiting?
    ensures Run(boundary, c, false) == Run(boundary, c, true)
    decreases |c.window|, Rank(c.state)
  {
    hide Find, Lengthened, ReadPartHeaders, FirstDelimiter, Delimiter;
    if c.window != "" {
      match c.state
      case InitialBoundary =>
        var first := FirstDelimiter(boundary);
        DelimiterLengths(boundary);
        var rest := c.window[Find(c.window, first)..];
        if |first| <= |rest| { RunStrict(boundary, c.(window := rest[|first|..], state := NewEntry)); }
      case NewEntry => RunStrict(boundary, c.(file := NO_FILE, state := PartHeaders));
      case PartHeaders =>
        var o := ReadPartHeaders(c, true);
        assert o.Waiting?;
        HeadersStrict(c);
        if o.config.state == PartBody { RunStrict(boundary, o.config); }
      case PartBody =>
        var s := Delimiter(boundary);
        DelimiterLengths(boundary);
        var pos := Find(c.window, s);
        if |s| <= |c.window| && pos < |c.window| {
          OccursFits(c.window, s, pos);
          RunStrict(boundary, Given(c, c.window[..pos]).(window := c.window[pos + |s|..], state := AfterBoundary));
        }
      case AfterBoundary =>
        if CRLF <= c.window { RunStrict(boundary, c.(window := c.window[2..], state := NewEntry)); }
    }
  }

  // ---------------------------------------------------------------------------
  // All the chunks
  // ---------------------------------------------------------------------------

  /** The parser called on one chunk after another, up to the first call that returns false. */
  function FeedAll(boundary: string, c: Config, chunks: seq<string>): Outcome
    decreases |chunks|
  {
    if chunks == [] then Waiting(c)
    else
      match Run(boundary, Fed(c, chunks[0]), false)
      case Rejected(valid, items) => Rejected(valid, items)
      case Waiting(d) => FeedAll(boundary, d, chunks[1..])
  }

  /** Nothing but what may be left of the CRLF after the closing delimiter is still to come. */
  predicate OnlyEpilogue(c: Config, rest: string) {
    c.valid &&
    match c.state
    case AfterBoundary => |c.window + rest| <= 1 || c.window + rest == CRLF
    case NewEntry => c.window + rest == ""
    case _ => false
  }

  lemma {:induction false} FeedEpilogue(boundary: string, c: Config, chunks: seq<string>)
    requires OnlyEpilogue(c, Concat(chunks))
    ensures var o := FeedAll(boundary, c, chunks); o.Waiting? && o.config.valid && o.config.items == c.items
    decreases |chunks|
  {
    if chunks != [] {
      var d := Fed(c, chunks[0]);
      Assoc(c.window, chunks[0], Concat(chunks[1..]));
      assert d.window + Concat(chunks[1..]) == c.window + Concat(chunks);
      if d.window == CRLF {
        assert d.window[2..] == "" && Concat(chunks[1..]) == "";
        var e := d.(window := "", state := NewEntry);
        assert Run(boundary, d, false) == Run(boundary, e, false) == Waiting(e);
        FeedEpilogue(boundary, e, chunks[1..]);
      } else {
        assert |d.window| <= 1;
        assert Run(boundary, d, false) == Waiting(d);
        FeedEpilogue(boundary, d, chunks[1..]);
      }
    }
  }

  predicate StillOpen(o: Outcome) { o.Waiting? && !o.config.valid }

  predicate JustClosed(o: Outcome, items: seq<Item>) {
    o.Waiting? && o.config.valid && o.config.state == AfterBoundary && o.config.window == "" && o.config.items == items
  }

  /** `text` run from `c` in one go is closed by its last byte. */
  predicate ClosesWith(boundary: string, c: Config, text: string, items: seq<Item>) {
    text != ""
    && StillOpen(Run(boundary, Fed(c, text[..|text| - 1]), true))
    && JustClosed(Run(boundary, Fed(c, text), true), items)
  }

  predicate Started(boundary: string, c: Config) {
    c.budget == None && !c.valid
    && (c.state == InitialBoundary ==> Find(c.window, FirstDelimiter(boundary)) < |c.window|)
  }

  /** A text that leaves the parser open takes it, however it is cut, to the very state that one call on the whole text
      leads to, provided the first chunk holds the first boundary line. */
  lemma {:induction false} OpenChunksEqualWhole(boundary: string, c: Config, chunks: seq<string>)
    requires chunks != [] && Started(boundary, Fed(c, chunks[0]))
    requires StillOpen(Run(boundary, Fed(c, Concat(chunks)), true))
    ensures FeedAll(boundary, c, chunks) == Run(boundary, Fed(c, Concat(chunks)), true)
    decreases |chunks|
  {
    hide Run, FirstDelimiter, Find;
    var rest := Concat(chunks[1..]);
    FedTwice(c, chunks[0], rest);
    RunSplit(boundary, Fed(c, chunks[0]), rest);
    RunStrict(boundary, Fed(c, chunks[0]));
    var d := Run(boundary, Fed(c, chunks[0]), true).config;
    if |chunks| == 1 {
      assert chunks[0] + "" == chunks[0];
    } else {
      StartedFurther(boundary, d, chunks[1]);
      OpenChunksEqualWhole(boundary, d, chunks[1..]);
    }
  }

  lemma FeedInside(boundary: string, c: Config, chunk: string, rest: string, items: seq<Item>)
    requires Started(boundary, Fed(c, chunk)) && rest != ""
    requires ClosesWith(boundary, c, chunk + rest, items)
    ensures var o := Run(boundary, Fed(c, chunk), false);
            StillOpen(o) && o.config.budget == None && o.config.state != InitialBoundary
            && ClosesWith(boundary, o.config, rest, items)
  {
    hide Run, FirstDelimiter, Find;
    var text := chunk + rest;
    var most := rest[..|rest| - 1];
    assert text[..|text| - 1] == chunk + most;
    FedTwice(c, chunk, most);
    FedTwice(c, chunk, rest);
    RunSplit(boundary, Fed(c, chunk), most);
    RunSplit(boundary, Fed(c, chunk), rest);
    RunStrict(boundary, Fed(c, chunk));
  }

  lemma FeedLast(boundary: string, c: Config, text: string, extra: string, items: seq<Item>)
    requires Started(boundary, Fed(c, text)) && ClosesWith(boundary, c, text, items)
    ensures JustClosed(Run(boundary, Fed(c, text + extra), false), items)
  {
    hide Run, FirstDelimiter, Find;
    FedTwice(c, text, extra);
    RunSplit(boundary, Fed(c, text), extra);
    RunStrict(boundary, Fed(c, text + extra));
  }

  lemma ConcatCut(chunks: seq<string>, text: string, tail: string)
    requires chunks != [] && Concat(chunks) == text + tail
    ensures |chunks[0]| <= |text| ==>
              var rest := text[|chunks[0]|..]; text == chunks[0] + rest && Concat(chunks[1..]) == rest + tail
    ensures |chunks[0]| > |text| ==>
              var extra := chunks[0][|text|..]; chunks[0] == text + extra && tail == extra + Concat(chunks[1..])
  {
    var all := text + tail;
    var d := chunks[0];
    assert all[..|d|] == d && all[|d|..] == Concat(chunks[1..]);
    if |d| <= |text| {
      assert all[..|d|] == text[..|d|] && all[|d|..] == text[|d|..] + tail;
    } else {
      assert d[..|text|] == text && tail == all[|text|..] == d[|text|..] + Concat(chunks[1..]);
    }
  }

  /** However the text is cut, the parser accepts it and delivers what one call on the whole text delivers, provided
      the first chunk holds the first boundary line. */
  lemma {:induction false} ChunksEqualWhole(boundary: string, c: Config, chunks: seq<string>, text: string,
                                            items: seq<Item>)
    requires chunks != [] && Started(boundary, Fed(c, chunks[0]))
    requires Concat(chunks) == text + CRLF && ClosesWith(boundary, c, text, items)
    requires Started(boundary, Fed(c, text))
    ensures var o := FeedAll(boundary, c, chunks); o.Waiting? && o.config.valid && o.config.items == items
    decreases |chunks|
  {
    hide Run, FirstDelimiter, Find, ClosesWith;
    ConcatCut(chunks, text, CRLF);
    var d := chunks[0];
    if |d| < |text| {
      var rest := text[|d|..];
      FeedInside(boundary, c, d, rest, items);
      var next := Run(boundary, Fed(c, d), false).config;
      NotTheLast(chunks);
      StartedFurther(boundary, next, chunks[1]);
      StartedFurther(boundary, next, rest);
      ChunksEqualWhole(boundary, next, chunks[1..], rest, items);
    } else {
      var extra := d[|text|..];
      var rest := Concat(chunks[1..]);
      assert d == text + extra && CRLF == extra + rest;
      FeedLast(boundary, c, text, extra, items);
      var next := Run(boundary, Fed(c, d), false).config;
      assert CRLF[|extra|..] == rest;
      FeedEpilogue(boundary, next, chunks[1..]);
    }
  }

  lemma NotTheLast(chunks: seq<string>)
    requires chunks != [] && Concat(chunks) != chunks[0]
    ensures |chunks| > 1
  {
    assert chunks[0] + "" == chunks[0];
  }

  lemma StartedFurther(boundary: string, c: Config, chunk: string)
    requires c.budget == None && !c.valid && c.state != InitialBoundary
    ensures Started(boundary, Fed(c, chunk))
  {
  }

  // ---------------------------------------------------------------------------
  // Where the parser stops
  // ---------------------------------------------------------------------------

  /** Lines already read do not matter for what follows. */
  lemma {:induction false} HeadersContinue(c: Config, d: Config, b: string)
    requires c.state == PartHeaders && c.budget == None && ReadPartHeaders(c, true) == Waiting(d)
    requires d.state == PartHeaders
    ensures ReadPartHeaders(Fed(c, b), false) == ReadPartHeaders(Fed(d, b), false)
    ensures c == d || (Find(c.window, CRLF) < |c.window| && !TooLong(c.window + b, false))
    decreases |c.window|
  {
    hide Find, WithLine;
    var w := c.window;
    var pos := Find(w, CRLF);
    if pos < |w| {
      FoundStays(w, b, CRLF);
      OccursFits(w, CRLF, pos);
      assert (w + b)[pos + 2..] == w[pos + 2..] + b && (w + b)[..pos] == w[..pos];
      match WithLine(c.file, w[..pos])
      case None =>
      case Some(file) => HeadersContinue(c.(file := file, window := w[pos + 2..]), d, b);
    }
  }

  /** Where a run can end up inside the part headers. */
  lemma EndsInHeaders(boundary: string, c: Config, d: Config)
    requires c.budget == None && Run(boundary, c, true) == Waiting(d) && d.state == PartHeaders && d.window != ""
    ensures c.window != ""
    ensures c.state == PartHeaders ==> !TooLong(c.window, true)
    ensures c.state == PartBody ==> Find(c.window, Delimiter(boundary)) < |c.window|
    ensures c.state == AfterBoundary ==> CRLF <= c.window
  {
    hide Find, Lengthened, ReadPartHeaders, TooLong;
    FindBound(c.window, Delimiter(boundary));
  }

  lemma FindBound(w: string, pat: string)
    requires pat != ""
    ensures Find(w, pat) <= |w|
  {
  }

  lemma HeadersReachLoose(boundary: string, c: Config, d: Config, b: string)
    requires c.state == PartHeaders && c.window != "" && c.budget == None && d.state == PartBody
    requires ReadPartHeaders(c, true) == Waiting(d)
    ensures Run(boundary, Fed(c, b), false) == Run(boundary, Fed(d, b), false)
  {
    hide Find, WithLine;
    HeadersSplit(c, b);
    HeadersStrict(Fed(c, b));
    StrictIsStricter(c.window + b);
  }

  lemma StrictIsStricter(w: string)
    ensures TooLong(w, false) ==> TooLong(w, true)
  {
  }

  lemma HeadersWaitLoose(boundary: string, c: Config, d: Config, b: string)
    requires c.state == PartHeaders && c.window != "" && c.budget == None
    requires ReadPartHeaders(c, true) == Waiting(d) && d.state == PartHeaders && d.window != ""
    requires !TooLong(d.window + b, false)
    ensures Run(boundary, Fed(c, b), false) == Run(boundary, Fed(d, b), false)
  {
    hide Find, WithLine, ReadPartHeaders, TooLong;
    HeadersContinue(c, d, b);
  }

  /** A run that stops inside the part headers goes on from there, whether or not it is interrupted. */
  lemma {:induction false} RunContinues(boundary: string, c: Config, d: Config, b: string)
    requires Started(boundary, c) && Run(boundary, c, true) == Waiting(d)
    requires d.state == PartHeaders && d.window != "" && !TooLong(d.window + b, false)
    ensures Run(boundary, Fed(c, b), false) == Run(boundary, Fed(d, b), false)
    decreases |c.window|, Rank(c.state)
  {
    hide Find, Lengthened, ReadPartHeaders, TooLong, FirstDelimiter, Delimiter, Run;
    DelimiterLengths(boundary);
    EndsInHeaders(boundary, c, d);
    match c.state
    case InitialBoundary =>
      InitialSplit(boundary, c, b, false);
      var first := FirstDelimiter(boundary);
      RunContinues(boundary, c.(window := c.window[Find(c.window, first)..][|first|..], state := NewEntry), d, b);
    case NewEntry =>
      NewEntryRuns(boundary, c, true);
      NewEntryRuns(boundary, Fed(c, b), false);
      RunContinues(boundary, c.(file := NO_FILE, state := PartHeaders), d, b);
    case PartHeaders =>
      HeadersRun(boundary, c);
      var o := ReadPartHeaders(c, true);
      if o.Waiting? && o.config.state == PartBody {
        HeadersSplit(c, b);
        HeadersReachLoose(boundary, c, o.config, b);
        RunContinues(boundary, o.config, d, b);
      } else {
        HeadersWaitLoose(boundary, c, d, b);
      }
    case PartBody =>
      BodySplitFound(boundary, c, b, false);
      var s := Delimiter(boundary);
      var pos := Find(c.window, s);
      RunContinues(boundary, BodyClosed(c, c.window[..pos], c.window[pos + |s|..]), d, b);
    case AfterBoundary =>
      NextEntryRuns(boundary, c, "", true);
      assert c.window + "" == c.window && c.window[2..] + "" == c.window[2..];
      NextEntryRuns(boundary, c, b, false);
      RunContinues(boundary, c.(window := c.window[2..], state := NewEntry), d, b);
  }

  /** The parser waits for the end of a header line that it will not accept. */
  predicate AwaitsBadLine(d: Config, line: string) {
    && d.state == PartHeaders && !d.valid && d.budget == None
    && line != "" && Find(line, CRLF) == |line| < HEADER_MAX_LENGTH
    && d.window == line + "\r" && WithLine(d.file, line) == None
  }

  lemma BadLineRejects(boundary: string, d: Config, line: string, more: string)
    requires AwaitsBadLine(d, line)
    ensures !TooLong(d.window + ("\n" + more), false)
    ensures Run(boundary, Fed(d, "\n" + more), false) == Rejected(false, d.items)
  {
    hide Find, WithLine;
    FindLineEnd(line, more);
    assert d.window + ("\n" + more) == line + CRLF + more;
  }

  /** However the text is cut, the parser rejects it at the bad line, provided the first chunk holds the first boundary
      line. */
  lemma {:induction false} ChunksRejected(boundary: string, c: Config, chunks: seq<string>, upto: string, more: string,
                                          d: Config, line: string)
    requires chunks != [] && Started(boundary, Fed(c, chunks[0])) && Started(boundary, Fed(c, upto))
    requires Concat(chunks) == upto + ("\n" + more)
    requires Run(boundary, Fed(c, upto), true) == Waiting(d) && AwaitsBadLine(d, line)
    ensures FeedAll(boundary, c, chunks).Rejected?
    decreases |chunks|
  {
    hide Run, FirstDelimiter, Find, WithLine, AwaitsBadLine;
    ConcatCut(chunks, upto, "\n" + more);
    AwaitsMeans(d, line);
    var first := chunks[0];
    if |first| <= |upto| {
      var rest := upto[|first|..];
      FedTwice(c, first, rest);
      RunSplit(boundary, Fed(c, first), rest);
      RunStrict(boundary, Fed(c, first));
      var e := Run(boundary, Fed(c, first), true).config;
      assert |Concat(chunks)| > |first|;
      NotTheLast(chunks);
      StartedFurther(boundary, e, chunks[1]);
      StartedFurther(boundary, e, rest);
      ChunksRejected(boundary, e, chunks[1..], rest, more, d, line);
    } else {
      var extra := first[|upto|..];
      var later := extra[1..];
      BeginsAlike("\n" + more, extra, Concat(chunks[1..]));
      FedTwice(c, upto, extra);
      BadLineRejects(boundary, d, line, later);
      RunContinues(boundary, Fed(c, upto), d, extra);
    }
  }

  lemma BeginsAlike(s: string, a: string, b: string)
    requires s != "" && a != "" && s == a + b
    ensures a == [s[0]] + a[1..]
  {
  }

  lemma AwaitsMeans(d: Config, line: string)
    requires AwaitsBadLine(d, line)
    ensures d.state == PartHeaders && !d.valid && d.budget == None && d.window != ""
  {
  }

  // ---------------------------------------------------------------------------
  // The first boundary line
  // ---------------------------------------------------------------------------

  predicate HoldsFirst(boundary: string, chunk: string) { Find(chunk, FirstDelimiter(boundary)) < |chunk| }

  /** Chunks without a whole first boundary line are thrown away, and with them what they hold of the beginning of one:
      it is looked for in each chunk alone. */
  lemma {:induction false} FirstLineIsWhole(boundary: string, c: Config, chunks: seq<string>, k: nat)
    requires c.state == InitialBoundary && c.window == "" && k <= |chunks|
    requires forall j :: 0 <= j < k ==> !HoldsFirst(boundary, chunks[j])
    ensures FeedAll(boundary, c, chunks) == FeedAll(boundary, c, chunks[k..])
    decreases k
  {
    hide Run, HoldsFirst;
    if k == 0 {
      assert chunks[0..] == chunks;
    } else {
      FirstMissing(boundary, c, chunks[0]);
      FirstLineIsWhole(boundary, c, chunks[1..], k - 1);
      assert chunks[1..][k - 1..] == chunks[k..];
    }
  }

  lemma FirstMissing(boundary: string, c: Config, chunk: string)
    requires c.state == InitialBoundary && c.window == "" && !HoldsFirst(boundary, chunk)
    ensures Run(boundary, Fed(c, chunk), false) == Waiting(c)
  {
    hide Find;
    DelimiterLengths(boundary);
    assert c.window + chunk == chunk && chunk[|chunk|..] == "";
  }

  predicate Begun(o: Outcome) { o.Waiting? ==> o.config.state != InitialBoundary }

  lemma {:induction false} RunStaysBegun(boundary: string, c: Config)
    requires c.state != InitialBoundary
    ensures Begun(Run(boundary, c, false))
    decreases |c.window|, Rank(c.state)
  {
    hide Find, Lengthened, Delimiter, TooLong, ReadPartHeaders;
    DelimiterLengths(boundary);
    if c.window != "" {
      match c.state
      case NewEntry => RunStaysBegun(boundary, c.(file := NO_FILE, state := PartHeaders));
      case PartHeaders =>
        HeadersStay(c);
        var o := ReadPartHeaders(c, false);
        if o.Waiting? && o.config.state == PartBody { RunStaysBegun(boundary, o.config); }
      case PartBody =>
        var s := Delimiter(boundary);
        var pos := Find(c.window, s);
        OccursFits(c.window, s, pos);
        if |s| <= |c.window| && pos < |c.window| {
          RunStaysBegun(boundary, Given(c, c.window[..pos]).(window := c.window[pos + |s|..], state := AfterBoundary));
        }
      case AfterBoundary =>
        if CRLF <= c.window { RunStaysBegun(boundary, c.(window := c.window[2..], state := NewEntry)); }
    }
  }

  lemma {:induction false} HeadersStay(c: Config)
    requires c.state == PartHeaders
    ensures Begun(ReadPartHeaders(c, false))
    decreases |c.window|
  {
    hide Find, WithLine;
    var pos := Find(c.window, CRLF);
    if 0 < pos < |c.window| {
      match WithLine(c.file, c.window[..pos])
      case None =>
      case Some(file) => HeadersStay(c.(file := file, window := c.window[pos + 2..]));
    }
  }

  lemma {:induction false} ChunksStayBegun(boundary: string, c: Config, chunks: seq<string>)
    requires c.state != InitialBoundary
    ensures Begun(FeedAll(boundary, c, chunks))
    decreases |chunks|
  {
    hide Run;
    if chunks != [] {
      RunStaysBegun(boundary, Fed(c, chunks[0]));
      match Run(boundary, Fed(c, chunks[0]), false)
      case Rejected(_, _) =>
      case Waiting(d) => ChunksStayBegun(boundary, d, chunks[1..]);
    }
  }

  /** Nothing at all comes of the input exactly when no single chunk holds a whole first boundary line. */
  lemma {:induction false} BeginsIff(boundary: string, c: Config, chunks: seq<string>)
    requires c.state == InitialBoundary && c.window == ""
    ensures FeedAll(boundary, c, chunks) == Waiting(c) <==> forall d :: d in chunks ==> !HoldsFirst(boundary, d)
    decreases |chunks|
  {
    hide Run, HoldsFirst;
    if chunks != [] {
      assert chunks == [chunks[0]] + chunks[1..];
      if HoldsFirst(boundary, chunks[0]) {
        FirstHeld(boundary, c, chunks[0]);
        match Run(boundary, Fed(c, chunks[0]), false)
        case Rejected(_, _) =>
        case Waiting(d) => ChunksStayBegun(boundary, d, chunks[1..]);
      } else {
        FirstMissing(boundary, c, chunks[0]);
        BeginsIff(boundary, c, chunks[1..]);
      }
    }
  }

  lemma FirstHeld(boundary: string, c: Config, chunk: string)
    requires c.state == InitialBoundary && c.window == "" && HoldsFirst(boundary, chunk)
    ensures Begun(Run(boundary, Fed(c, chunk), false))
  {
    hide Find, FirstDelimiter, Run;
    var first := FirstDelimiter(boundary);
    DelimiterLengths(boundary);
    assert c.window + chunk == chunk && chunk + "" == chunk;
    InitialSplit(boundary, Fed(c, chunk), "", false);
    var d := Fed(c, chunk).(window := chunk[Find(chunk, first)..][|first|..], state := NewEntry);
    assert Fed(d, "") == d by { assert d.window + "" == d.window; }
    RunStaysBegun(boundary, d);
  }

  lemma {:induction false} NoneHolds(boundary: string, chunks: seq<string>)
    requires Find(Concat(chunks), FirstDelimiter(boundary)) == |Concat(chunks)|
    ensures forall d :: d in chunks ==> !HoldsFirst(boundary, d)
  {
    hide Find, FirstDelimiter;
    if chunks != [] {
      DelimiterLengths(boundary);
      var first, all, rest := FirstDelimiter(boundary), Concat(chunks), Concat(chunks[1..]);
      assert all == chunks[0] + rest && all[|chunks[0]|..] == rest;
      if Find(chunks[0], first) < |chunks[0]| { FoundStays(chunks[0], rest, first); }
      FindAfterDrop(all, |chunks[0]|, first);
      NoneHolds(boundary, chunks[1..]);
      assert chunks == [chunks[0]] + chunks[1..];
    }
  }

  /** A text that holds the first boundary line at its beginning only: if the first chunk ends within that line, nothing
      comes of the text. */
  lemma FirstLineCut(boundary: string, c: Config, chunks: seq<string>, text: string)
    requires c.state == InitialBoundary && c.window == ""
    requires chunks != [] && Concat(chunks) == text && 0 < |chunks[0]| < |FirstDelimiter(boundary)| <= |text|
    requires Find(text[1..], FirstDelimiter(boundary)) == |text| - 1
    ensures FeedAll(boundary, c, chunks) == Waiting(c)
  {
    hide Find, FirstDelimiter, FeedAll;
    var first, n := FirstDelimiter(boundary), |chunks[0]|;
    assert text == chunks[0] + Concat(chunks[1..]);
    assert text[1..][n - 1..] == text[n..] == Concat(chunks[1..]);
    FindAfterDrop(text[1..], n - 1, first);
    NoneHolds(boundary, chunks[1..]);
    OccursFits(chunks[0], first, Find(chunks[0], first));
    assert chunks == [chunks[0]] + chunks[1..];
    BeginsIff(boundary, c, chunks);
  }

  // ---------------------------------------------------------------------------
  // Input that ends or stalls the parser
  // ---------------------------------------------------------------------------

  /** A first header line over the limit is rejected, even before its end has come in. */
  lemma LongLineRejected(boundary: string, c: Config)
    requires (c.state == PartHeaders || c.state == NewEntry) && Find(c.window, CRLF) > HEADER_MAX_LENGTH
    ensures Run(boundary, c, false) == Rejected(c.valid, c.items)
  {
    hide Find;
    if c.state == NewEntry { NewEntryRuns(boundary, c, false); }
  }

  /** Behind a delimiter, anything but a line end and "--" makes the parser wait for ever, whatever comes. */
  lemma {:induction false} StrayBytesStall(boundary: string, c: Config, chunks: seq<string>)
    requires c.state == AfterBoundary && |c.window| >= 2 && !(CRLF <= c.window) && !("--" <= c.window)
    ensures FeedAll(boundary, c, chunks) == Waiting(Fed(c, Concat(chunks)))
    decreases |chunks|
  {
    if chunks == [] {
      assert c.window + "" == c.window;
    } else {
      var d := Fed(c, chunks[0]);
      assert d.window[..2] == c.window[..2];
      assert Run(boundary, d, false) == Waiting(d);
      StrayBytesStall(boundary, d, chunks[1..]);
      FedTwice(c, chunks[0], Concat(chunks[1..]));
    }
  }

  /** A run with a receiver that refuses from now on delivers nothing, and if it is not rejected is the run it would be
      with one that does not. */
  predicate Refused(c: Config, refusing: Outcome, willing: Outcome) {
    match refusing
    case Rejected(_, items) => items == c.items
    case Waiting(d) => d.items == c.items && willing == Waiting(d.(budget := None))
  }

  lemma {:induction false} RefusedHeaders(c: Config)
    requires c.state == PartHeaders && c.budget == Some(0)
    ensures Refused(c, ReadPartHeaders(c, false), ReadPartHeaders(c.(budget := None), false))
    ensures ReadPartHeaders(c, false).Waiting? ==> ReadPartHeaders(c, false).config.state == PartHeaders
    decreases |c.window|
  {
    hide Find, WithLine;
    var pos := Find(c.window, CRLF);
    if 0 < pos < |c.window| {
      match WithLine(c.file, c.window[..pos])
      case None =>
      case Some(file) => RefusedHeaders(c.(file := file, window := c.window[pos + 2..]));
    }
  }

  lemma {:induction false} RefusedRun(boundary: string, c: Config)
    requires c.budget == Some(0)
    ensures Refused(c, Run(boundary, c, false), Run(boundary, c.(budget := None), false))
    decreases |c.window|, Rank(c.state)
  {
    hide Find, TooLong, ReadPartHeaders, FirstDelimiter, Delimiter, Lengthened;
    DelimiterLengths(boundary);
    if c.window != "" {
      match c.state
      case InitialBoundary =>
        var first := FirstDelimiter(boundary);
        var rest := c.window[Find(c.window, first)..];
        if first <= rest { RefusedRun(boundary, c.(window := rest[|first|..], state := NewEntry)); }
      case NewEntry => RefusedRun(boundary, c.(file := NO_FILE, state := PartHeaders));
      case PartHeaders => RefusedHeaders(c);
      case PartBody =>
      case AfterBoundary =>
        if CRLF <= c.window { RefusedRun(boundary, c.(window := c.window[2..], state := NewEntry)); }
    }
  }

  /** A body whose delimiter is in the window, or that is longer than the delimiter, is given to the receiver: one that
      refuses it ends the parse. */
  lemma RefusedBody(boundary: string, c: Config)
    requires c.state == PartBody && c.budget == Some(0) && c.window != ""
    requires Find(c.window, Delimiter(boundary)) < |c.window| || |c.window| > |Delimiter(boundary)|
    ensures Run(boundary, c, false) == Rejected(false, c.items)
  {
    hide Find;
    OccursFits(c.window, Delimiter(boundary), Find(c.window, Delimiter(boundary)));
  }

  // ---------------------------------------------------------------------------
  // The body search on its own, for arbitrary bytes
  // ---------------------------------------------------------------------------

  /** How many of `received` bytes without a delimiter have been emitted: all but the last few. */
  function EmittedCount(boundary: string, received: string): nat {
    if |received| < |Delimiter(boundary)| then 0 else |received| - |Delimiter(boundary)|
  }

  /** In the body state with `received` read and no delimiter in it: the rest is retained. */
  function InBody(boundary: string, c: Config, received: string): Config {
    Emitted(c, received, EmittedCount(boundary, received))
  }

  lemma BodyChunk(boundary: string, c: Config, received: string, chunk: string)
    requires c.state == PartBody && c.budget == None
    requires Find(received, Delimiter(boundary)) == |received|
    ensures var s := Delimiter(boundary);
            var all := received + chunk;
            var pos := Find(all, s);
            var o := Run(boundary, Fed(InBody(boundary, c, received), chunk), false);
            if pos == |all| then o == Waiting(InBody(boundary, c, all))
            else
              pos + |s| <= |all| &&
              o == Run(boundary, c.(items := Lengthened(c.items, all[..pos]), window := all[pos + |s|..],
                                    state := AfterBoundary), false)
  {
    hide Find, Delimiter, Lengthened, Run;
    DelimiterLengths(boundary);
    var s := Delimiter(boundary);
    var all := received + chunk;
    var n := EmittedCount(boundary, received);
    assert received[n..] + chunk == all[n..] && received[..n] == all[..n];
    assert Fed(InBody(boundary, c, received), chunk) == Emitted(c, all, n);
    FoundLater(received, chunk, s);
    var pos := Find(all, s);
    if pos < |all| {
      BodyFound(boundary, false, c, all, n);
      BodyRun(boundary, false, c.(window := all));
    } else if |all| < |s| {
      NothingEmitted(c.items);
      assert all[..0] == "" && all[0..] == all;
      BodyShort(boundary, c.(window := all));
    } else {
      BodyMissing(boundary, false, c, all, n);
      BodyWaits(boundary, false, c, all);
    }
  }

  lemma BodyShort(boundary: string, c: Config)
    requires c.state == PartBody && |c.window| < |Delimiter(boundary)|
    ensures Run(boundary, c, false) == Waiting(c)
  {
  }

  /** As long as the bytes received hold no delimiter, all of them are emitted but the last few, which are retained:
      in every cut into chunks, bytes emitted and bytes retained are the bytes received. */
  lemma {:induction false} BodyStreams(boundary: string, c: Config, received: string, chunks: seq<string>)
    requires c.state == PartBody && c.budget == None
    requires Find(received + Concat(chunks), Delimiter(boundary)) == |received + Concat(chunks)|
    ensures FeedAll(boundary, InBody(boundary, c, received), chunks)
            == Waiting(InBody(boundary, c, received + Concat(chunks)))
    decreases |chunks|
  {
    hide Find, Delimiter, Run, InBody;
    if chunks == [] {
      assert received + "" == received;
    } else {
      Assoc(received, chunks[0], Concat(chunks[1..]));
      NotFoundBefore(boundary, received + chunks[0], Concat(chunks[1..]));
      NotFoundBefore(boundary, received, chunks[0]);
      BodyChunk(boundary, c, received, chunks[0]);
      BodyStreams(boundary, c, received + chunks[0], chunks[1..]);
    }
  }

  lemma NotFoundBefore(boundary: string, a: string, b: string)
    ensures Delimiter(boundary) != ""
    ensures Find(a + b, Delimiter(boundary)) == |a + b| ==> Find(a, Delimiter(boundary)) == |a|
  {
    hide Find;
    if Find(a, Delimiter(boundary)) < |a| { FoundStays(a, b, Delimiter(boundary)); }
  }

  lemma {:induction false} FeedAllAppend(boundary: string, c: Config, chunks: seq<string>, last: string)
    ensures FeedAll(boundary, c, chunks + [last]) ==
            match FeedAll(boundary, c, chunks)
            case Rejected(valid, items) => Rejected(valid, items)
            case Waiting(d) => Run(boundary, Fed(d, last), false)
    decreases |chunks|
  {
    hide Run;
    if chunks == [] {
      assert ([] + [last])[1..] == [];
    } else {
      assert (chunks + [last])[1..] == chunks[1..] + [last];
      match Run(boundary, Fed(c, chunks[0]), false)
      case Rejected(_, _) =>
      case Waiting(d) => FeedAllAppend(boundary, d, chunks[1..], last);
    }
  }

  /** The chunk that completes the first delimiter ends the body there: what has been emitted is exactly what precedes
      the delimiter in the whole input, and parsing goes on right behind it. `received` is what the body had read of it
      before the first of the chunks. */
  lemma BodyEnds(boundary: string, c: Config, received: string, chunks: seq<string>, last: string)
    requires c.state == PartBody && c.budget == None
    requires var s, before := Delimiter(boundary), received + Concat(chunks);
             s != "" && Find(before, s) == |before| && Find(before + last, s) < |before + last|
    ensures var s, all := Delimiter(boundary), received + Concat(chunks) + last;
            var pos := Find(all, s);
            pos + |s| <= |all| &&
            FeedAll(boundary, InBody(boundary, c, received), chunks + [last]) ==
            Run(boundary, c.(items := Lengthened(c.items, all[..pos]), window := all[pos + |s|..],
                             state := AfterBoundary), false)
  {
    hide Find, Delimiter, Run, InBody, Lengthened, FeedAll;
    BodyStreams(boundary, c, received, chunks);
    FeedAllAppend(boundary, InBody(boundary, c, received), chunks, last);
    BodyChunk(boundary, c, received + Concat(chunks), last);
  }

  /** Every window that a body can be left with between two chunks is one of these. */
  lemma BodyWindow(boundary: string, c: Config)
    requires |c.window| <= |Delimiter(boundary)|
    ensures InBody(boundary, c, c.window) == c
  {
    NothingEmitted(c.items);
    assert c.window[..0] == "" && c.window[0..] == c.window;
  }
}
