/** `MultipartFormDataParser`: the machine it implements, and the class over its sliding buffer. */
module MultipartParser {
  import opened Bytes
  import opened HeaderBlock
  import opened Multipart

  datatype State = InitialBoundary | NewEntry | PartHeaders | PartBody | AfterBoundary

  /** The parser between two `parse` calls, with what its callbacks have been given: a header callback opens an
      item, a content callback lengthens the last one. `budget` is the number of callbacks that will still be
      accepted; `None` stands for a receiver that never refuses. */
  datatype Config = Config(state: State, window: string, file: FileInfo, valid: bool, items: seq<Item>,
                           budget: Option<nat>)

  /** How `parse` returns: true, waiting for more bytes, or false. */
  datatype Outcome = Waiting(config: Config) | Rejected(valid: bool, items: seq<Item>)

  function FirstDelimiter(boundary: string): string { "--" + boundary + CRLF }

  function Delimiter(boundary: string): string { CRLF + "--" + boundary }

  predicate Refuses(budget: Option<nat>) { budget == Some(0) }

  function Spend(budget: Option<nat>): Option<nat> {
    if budget.Some? && budget.value > 0 then Some(budget.value - 1) else budget
  }

  function Lengthened(items: seq<Item>, data: string): seq<Item> {
    if items == [] then items
    else items[|items| - 1 := items[|items| - 1].(content := items[|items| - 1].content + data)]
  }

  /** The header callback. */
  function Opened(c: Config): Config {
    c.(items := c.items + [Item(c.file, "")], budget := Spend(c.budget))
  }

  /** The content callback. */
  function Given(c: Config, data: string): Config {
    c.(items := Lengthened(c.items, data), budget := Spend(c.budget))
  }

  /** Whether the line at the head of `window` is over the limit. The source (`strict` false) looks at the first line
      only, when it enters the header state; `strict` stands for a look at every line, with room for its CRLF. */
  predicate TooLong(window: string, strict: bool) {
    var pos := Find(window, CRLF);
    pos > HEADER_MAX_LENGTH || (strict && pos < |window| && pos > HEADER_MAX_LENGTH - 1)
  }

  /** The header state: line after line, up to the blank one. */
  function ReadPartHeaders(c: Config, strict: bool): (o: Outcome)
    requires c.state == PartHeaders
    ensures o.Waiting? ==>
              |o.config.window| <= |c.window| && (o.config.state == PartBody ==> |o.config.window| < |c.window|)
    decreases |c.window|
  {
    var pos := Find(c.window, CRLF);
    if strict && TooLong(c.window, strict) then Rejected(c.valid, c.items)
    else if pos == |c.window| then Waiting(c)
    else if pos == 0 then
      if Refuses(c.budget) then Rejected(false, c.items)
      else Waiting(Opened(c).(window := c.window[2..], state := PartBody))
    else
      match WithLine(c.file, c.window[..pos])
      case None => Rejected(false, c.items)
      case Some(file) => ReadPartHeaders(c.(file := file, window := c.window[pos + 2..]), strict)
  }

  function Rank(state: State): nat { if state == NewEntry then 1 else 0 }

  /** The `while (buf_size() > 0)` loop. */
  function Run(boundary: string, c: Config, strict: bool): Outcome
    decreases |c.window|, Rank(c.state)
  {
    if c.window == "" then Waiting(c)
    else
      match c.state
      case InitialBoundary =>
        var first := FirstDelimiter(boundary);
        var rest := c.window[Find(c.window, first)..];
        if |rest| < |first| then Waiting(c.(window := rest))
        else if !(first <= rest) then Rejected(c.valid, c.items)
        else Run(boundary, c.(window := rest[|first|..], state := NewEntry), strict)
      case NewEntry => Run(boundary, c.(file := NO_FILE, state := PartHeaders), strict)
      case PartHeaders =>
        if TooLong(c.window, strict) then Rejected(c.valid, c.items)
        else
          var o := ReadPartHeaders(c, strict);
          if o.Waiting? && o.config.state == PartBody then Run(boundary, o.config, strict) else o
      case PartBody =>
        var delimiter := Delimiter(boundary);
        if |c.window| < |delimiter| then Waiting(c)
        else
          var pos := Find(c.window, delimiter);
          if pos < |c.window| then
            if Refuses(c.budget) then Rejected(false, c.items)
            else
              var d := Given(c, c.window[..pos]);
              Run(boundary, d.(window := c.window[pos + |delimiter|..], state := AfterBoundary), strict)
          else
            var len := |c.window| - |delimiter|;
            if len == 0 then Waiting(c)
            else if Refuses(c.budget) then Rejected(false, c.items)
            else Waiting(Given(c, c.window[..len]).(window := c.window[len..]))
      case AfterBoundary =>
        if |c.window| < 2 then Waiting(c)
        else if CRLF <= c.window then Run(boundary, c.(window := c.window[2..], state := NewEntry), strict)
        else if "--" <= c.window then Waiting(c.(window := "", valid := true))
        else Waiting(c)
  }

  /** The bytes of the next chunk, after what the buffer retains. */
  function Fed(c: Config, data: string): Config { c.(window := c.window + data) }

  // ---------------------------------------------------------------------------
  // The class
  // ---------------------------------------------------------------------------

  /** The two callbacks, with what they have been given. */
  class FormReceiver {
    var items: seq<Item>
    var budget: Option<nat>

    constructor (budget: Option<nat>)
      ensures items == [] && this.budget == budget
    {
      items, this.budget := [], budget;
    }

    method OnHeader(file: FileInfo) returns (ok: bool)
      modifies this
      ensures ok == !Refuses(old(budget)) && budget == Spend(old(budget))
      ensures items == if ok then old(items) + [Item(file, "")] else old(items)
    {
      if Refuses(budget) { return false; }
      items, budget := items + [Item(file, "")], Spend(budget);
      return true;
    }

    method OnContent(data: string) returns (ok: bool)
      modifies this
      ensures ok == !Refuses(old(budget)) && budget == Spend(old(budget))
      ensures items == if ok then Lengthened(old(items), data) else old(items)
    {
      if Refuses(budget) { return false; }
      items, budget := Lengthened(items, data), Spend(budget);
      return true;
    }
  }

  class MultipartFormDataParser {
    const boundary: string
    const dashBoundaryCrlf: string
    const crlfDashBoundary: string
    var state: State
    var isValid: bool
    var file: FileInfo
    var buf: array<char>
    var spos: nat
    var epos: nat

    ghost predicate Valid()
      reads this
    {
      dashBoundaryCrlf == FirstDelimiter(boundary) && crlfDashBoundary == Delimiter(boundary)
      && spos <= epos <= buf.Length
    }

    ghost function Window(): string
      reads this, buf
      requires Valid()
    {
      buf[spos..epos]
    }

    ghost function Now(receiver: FormReceiver): Config
      reads this, buf, receiver
      requires Valid()
    {
      Config(state, Window(), file, isValid, receiver.items, receiver.budget)
    }

    /** The default constructor, followed by `set_boundary`. */
    constructor (boundary: string)
      ensures Valid() && this.boundary == boundary && fresh(buf)
      ensures state == InitialBoundary && Window() == "" && file == NO_FILE && !isValid
    {
      this.boundary := boundary;
      dashBoundaryCrlf := "--" + boundary + CRLF;
      crlfDashBoundary := CRLF + "--" + boundary;
      state, isValid, file := InitialBoundary, false, NO_FILE;
      buf := new char[0];
      spos, epos := 0, 0;
    }

    function BufSize(): nat
      reads this
      requires spos <= epos
    {
      epos - spos
    }

    /** `start_with` on the buffer. */
    method StartWith(from: nat, s: string) returns (r: bool)
      requires Valid() && from <= epos
      ensures r <==> s <= buf[from..epos]
    {
      if epos - from < |s| { return false; }
      for i := 0 to |s|
        invariant forall k :: 0 <= k < i ==> buf[from + k] == s[k]
      {
        if buf[from + i] != s[i] { return false; }
      }
      return true;
    }

    /** `buf_find` */
    method BufFind(s: string) returns (n: nat)
      requires Valid() && s != ""
      ensures n == Find(Window(), s)
    {
      hide Find, OccursAt;
      var off := spos;
      ghost var w := Window();
      while off < epos
        invariant spos <= off <= epos
        invariant forall p :: 0 <= p < off - spos ==> !OccursAt(w, s, p)
      {
        var pos := off;
        while true
          invariant off <= pos <= epos
          invariant forall p :: 0 <= p < pos - spos ==> !OccursAt(w, s, p)
          decreases epos - pos
        {
          if pos == epos {
            NotFound(w, s, |w|);
            return BufSize();
          }
          if buf[pos] == s[0] { break; }
          OccursHead(w, s, pos - spos);
          pos := pos + 1;
        }
        var remaining := epos - pos;
        if |s| > remaining {
          NotFound(w, s, pos - spos);
          return BufSize();
        }
        var here := StartWith(pos, s);
        Here(w, s, pos - spos);
        assert w[pos - spos..] == buf[pos..epos];
        if here { return pos - spos; }
        off := pos + 1;
      }
      NotFound(w, s, |w|);
      return BufSize();
    }

    lemma NotFound(w: string, s: string, n: nat)
      requires s != "" && n <= |w| && (forall p :: 0 <= p < n ==> !OccursAt(w, s, p))
      requires n == |w| || |s| > |w| - n
      ensures Find(w, s) == |w|
    {
      FindIs(w, s, |w|);
    }

    lemma Here(w: string, s: string, n: nat)
      requires s != "" && n <= |w| && (forall p :: 0 <= p < n ==> !OccursAt(w, s, p))
      ensures s <= w[n..] ==> Find(w, s) == n
      ensures OccursAt(w, s, n) <==> s <= w[n..]
    {
      if s <= w[n..] {
        assert w[n..n + |s|] == w[n..][..|s|];
        FindIs(w, s, n);
      }
      if OccursAt(w, s, n) { assert w[n..][..|s|] == w[n..n + |s|]; }
    }

    /** The retained bytes move to the front, in place. */
    method Shift()
      requires Valid()
      modifies buf
      ensures buf[..epos - spos] == old(buf[spos..epos])
    {
      var remaining := BufSize();
      for i := 0 to remaining
        invariant buf[..i] == old(buf[spos..spos + i])
        invariant buf[spos + i..epos] == old(buf[spos + i..epos])
      {
        assert buf[spos + i] == buf[spos + i..epos][0];
        buf[i] := buf[spos + i];
      }
    }

    method CopyIn(data: string)
      requires epos + |data| <= buf.Length
      modifies buf
      ensures buf[..epos] == old(buf[..epos]) && buf[epos..epos + |data|] == data
    {
      for i := 0 to |data|
        invariant buf[..epos] == old(buf[..epos])
        invariant forall k :: epos <= k < epos + i ==> buf[k] == data[k - epos]
      {
        buf[epos + i] := data[i];
      }
    }

    method MakeRoom(extra: nat)
      requires Valid()
      modifies this`buf, this`spos, this`epos, buf
      ensures Valid() && Window() == old(Window()) && spos == 0 && epos + extra <= buf.Length
      ensures buf == old(buf) || fresh(buf)
    {
      var remaining := BufSize();
      if remaining > 0 && spos > 0 { Shift(); }
      spos := 0;
      epos := remaining;
      if remaining + extra > buf.Length { Resize(remaining + extra); }
    }

    /** `buf_append`: what is left moves to the front and the new bytes go behind it. */
    method BufAppend(data: string)
      requires Valid()
      modifies this`buf, this`spos, this`epos, buf
      ensures Valid() && Window() == old(Window()) + data
      ensures buf == old(buf) || fresh(buf)
    {
      MakeRoom(|data|);
      CopyIn(data);
      epos := epos + |data|;
    }

    /** `buf_.resize(n)` */
    method Resize(n: nat)
      requires buf.Length < n
      modifies this`buf
      ensures fresh(buf) && buf.Length == n && buf[..old(buf).Length] == old(buf[..])
    {
      var bigger := new char[n];
      forall i | 0 <= i < buf.Length { bigger[i] := buf[i]; }
      buf := bigger;
    }

    /** `buf_erase` */
    method BufErase(n: nat)
      requires Valid() && n <= BufSize()
      modifies this`spos
      ensures Valid() && Window() == old(Window())[n..]
    {
      spos := spos + n;
    }

    // -------------------------------------------------------------------------
    // The cases of the switch in `parse`
    // -------------------------------------------------------------------------

    method ParseInitialBoundary(ghost receiver: FormReceiver) returns (next: Next)
      requires Valid() && state == InitialBoundary && Window() != ""
      modifies this`state, this`spos
      ensures Valid() && Follows(next, boundary, old(Now(receiver)), Now(receiver))
    {
      hide Find, Run, FirstDelimiter;
      RunInitial(boundary, Now(receiver));
      var pos := BufFind(dashBoundaryCrlf);
      BufErase(pos);
      if |dashBoundaryCrlf| > BufSize() { return ReturnTrue; }
      var here := StartWith(spos, dashBoundaryCrlf);
      if !here { return ReturnFalse; }
      BufErase(|dashBoundaryCrlf|);
      state := NewEntry;
      return Again;
    }

    method ParseNewEntry(ghost receiver: FormReceiver) returns (next: Next)
      requires Valid() && state == NewEntry && Window() != ""
      modifies this`state, this`file
      ensures Valid() && Follows(next, boundary, old(Now(receiver)), Now(receiver))
    {
      file := NO_FILE;
      state := PartHeaders;
      return Again;
    }

    /** The blank line: the header callback, then on to the body. */
    method EndHeaders(receiver: FormReceiver) returns (ok: bool)
      requires Valid() && BufSize() >= 2
      modifies this`state, this`spos, this`isValid, receiver
      ensures Valid() && ok == !Refuses(old(receiver.budget))
      ensures ok ==>
                Now(receiver) == Opened(old(Now(receiver))).(window := old(Window())[2..], state := PartBody)
      ensures !ok ==> !isValid && receiver.items == old(receiver.items)
    {
      ok := receiver.OnHeader(file);
      if !ok {
        isValid := false;
        return;
      }
      BufErase(2);
      state := PartBody;
    }

    /** One non-empty header line, ending at `pos`. */
    method TakeLine(pos: nat) returns (ok: bool)
      requires Valid() && pos + 2 <= BufSize()
      modifies this`spos, this`file, this`isValid
      ensures Valid()
      ensures var r := WithLine(old(file), old(Window())[..pos]);
              ok == r.Some?
              && (ok ==> file == r.value && Window() == old(Window())[pos + 2..] && isValid == old(isValid))
              && (!ok ==> !isValid)
    {
      hide WithLine;
      assert buf[spos..spos + pos] == Window()[..pos];
      var r := ReadHeaderLine(file, buf[spos..spos + pos]);
      ok := r.Some?;
      if !ok {
        isValid := false;
        return;
      }
      file := r.value;
      BufErase(pos + 2);
    }

    /** The inner loop of the header case, from the point where the first line end has been looked for. */
    method ReadLines(receiver: FormReceiver, pos0: nat) returns (next: Next)
      requires Valid() && state == PartHeaders && pos0 == Find(Window(), CRLF)
      modifies this`state, this`spos, this`file, this`isValid, receiver
      ensures Valid()
      ensures var o := ReadPartHeaders(old(Now(receiver)), false);
              match next
              case Again => o == Waiting(Now(receiver)) && o.config.state == PartBody
              case ReturnTrue => o == Waiting(Now(receiver)) && o.config.state == PartHeaders
              case ReturnFalse => o == Rejected(isValid, receiver.items)
    {
      hide Find, WithLine, ReadPartHeaders, Refuses, Opened;
      ghost var target := ReadPartHeaders(Now(receiver), false);
      var pos := pos0;
      while pos < BufSize()
        invariant Valid() && state == PartHeaders && pos == Find(Window(), CRLF)
        invariant ReadPartHeaders(Now(receiver), false) == target
        decreases BufSize()
      {
        LineEndFits(Window());
        HeaderStep(Now(receiver));
        if pos == 0 {
          var accepted := EndHeaders(receiver);
          return if accepted then Again else ReturnFalse;
        }
        var taken := TakeLine(pos);
        if !taken { return ReturnFalse; }
        pos := BufFind(CRLF);
      }
      HeaderStep(Now(receiver));
      return ReturnTrue;
    }

    lemma LineEndFits(w: string)
      ensures Find(w, CRLF) < |w| ==> Find(w, CRLF) + 2 <= |w|
    {
    }

    method ParsePartHeaders(receiver: FormReceiver) returns (next: Next)
      requires Valid() && state == PartHeaders && Window() != ""
      modifies this`state, this`spos, this`file, this`isValid, receiver
      ensures Valid() && Follows(next, boundary, old(Now(receiver)), Now(receiver))
    {
      hide Find, ReadPartHeaders;
      var pos := BufFind(CRLF);
      if pos > HEADER_MAX_LENGTH { return ReturnFalse; }
      next := ReadLines(receiver, pos);
    }

    /** The content callback on the first `len` retained bytes, which are then erased. */
    method GiveContent(len: nat, receiver: FormReceiver) returns (ok: bool)
      requires Valid() && len <= BufSize()
      modifies this`spos, this`isValid, receiver
      ensures Valid() && ok == !Refuses(old(receiver.budget))
      ensures ok ==>
                Now(receiver) == Given(old(Now(receiver)), old(Window())[..len]).(window := old(Window())[len..])
      ensures !ok ==> !isValid && receiver.items == old(receiver.items)
    {
      assert buf[spos..spos + len] == Window()[..len];
      ok := receiver.OnContent(buf[spos..spos + len]);
      if !ok {
        isValid := false;
        return;
      }
      BufErase(len);
    }

    method ParsePartBody(receiver: FormReceiver) returns (next: Next)
      requires Valid() && state == PartBody && Window() != ""
      modifies this`state, this`spos, this`isValid, receiver
      ensures Valid() && Follows(next, boundary, old(Now(receiver)), Now(receiver))
    {
      hide Find, Run, Delimiter, Given, Refuses;
      RunBody(boundary, Now(receiver));
      if |crlfDashBoundary| > BufSize() { return ReturnTrue; }
      var pos := BufFind(crlfDashBoundary);
      if pos < BufSize() {
        var given := GiveContent(pos, receiver);
        if !given { return ReturnFalse; }
        BufErase(|crlfDashBoundary|);
        state := AfterBoundary;
        return Again;
      }
      var len := BufSize() - |crlfDashBoundary|;
      if len > 0 {
        var given := GiveContent(len, receiver);
        if !given { return ReturnFalse; }
      }
      return ReturnTrue;
    }

    method ParseAfterBoundary(ghost receiver: FormReceiver) returns (next: Next)
      requires Valid() && state == AfterBoundary && Window() != ""
      modifies this`state, this`spos, this`isValid
      ensures Valid() && Follows(next, boundary, old(Now(receiver)), Now(receiver))
    {
      if 2 > BufSize() { return ReturnTrue; }
      var crlf := StartWith(spos, CRLF);
      if crlf {
        BufErase(2);
        state := NewEntry;
        return Again;
      }
      var dash := StartWith(spos, "--");
      if !dash { return ReturnTrue; }
      BufErase(2);
      isValid := true;
      BufErase(BufSize());
      return Again;
    }

    /** `parse` does what the machine does with the retained bytes and the new ones. */
    method Parse(data: string, receiver: FormReceiver) returns (ok: bool)
      requires Valid()
      modifies this, buf, receiver
      ensures Valid() && (buf == old(buf) || fresh(buf))
      ensures match Run(boundary, Fed(old(Now(receiver)), data), false)
              case Waiting(c) => ok && Now(receiver) == c
              case Rejected(valid, items) => !ok && isValid == valid && receiver.items == items
    {
      hide Run, Rank;
      ghost var target := Run(boundary, Fed(Now(receiver), data), false);
      BufAppend(data);
      while BufSize() > 0
        invariant Valid() && (buf == old(buf) || fresh(buf))
        invariant Run(boundary, Now(receiver), false) == target
        decreases |Window()|, Rank(state)
      {
        var next;
        match state {
          case InitialBoundary => next := ParseInitialBoundary(receiver);
          case NewEntry => next := ParseNewEntry(receiver);
          case PartHeaders => next := ParsePartHeaders(receiver);
          case PartBody => next := ParsePartBody(receiver);
          case AfterBoundary => next := ParseAfterBoundary(receiver);
        }
        if next == ReturnTrue { return true; }
        if next == ReturnFalse { return false; }
      }
      Stops(boundary, Now(receiver));
      return true;
    }
  }

  lemma RunInitial(boundary: string, c: Config)
    requires c.state == InitialBoundary && c.window != ""
    ensures FirstDelimiter(boundary) != ""
    ensures var first := FirstDelimiter(boundary);
            var rest := c.window[Find(c.window, first)..];
            && (|rest| < |first| ==> Run(boundary, c, false) == Waiting(c.(window := rest)))
            && (|rest| >= |first| && !(first <= rest) ==> Run(boundary, c, false) == Rejected(c.valid, c.items))
            && (|rest| >= |first| && first <= rest ==>
                  Run(boundary, c, false) == Run(boundary, c.(window := rest[|first|..], state := NewEntry), false))
  {
    hide Find;
  }

  lemma HeaderStep(c: Config)
    requires c.state == PartHeaders
    ensures var pos := Find(c.window, CRLF);
            && (pos == |c.window| ==> ReadPartHeaders(c, false) == Waiting(c))
            && (pos < |c.window| && pos == 0 ==>
                  2 <= |c.window| && ReadPartHeaders(c, false) ==
                    if Refuses(c.budget) then Rejected(false, c.items)
                    else Waiting(Opened(c).(window := c.window[2..], state := PartBody)))
            && (0 < pos < |c.window| ==>
                  pos + 2 <= |c.window| &&
                  match WithLine(c.file, c.window[..pos])
                  case None => ReadPartHeaders(c, false) == Rejected(false, c.items)
                  case Some(file) =>
                    ReadPartHeaders(c, false)
                    == ReadPartHeaders(c.(file := file, window := c.window[pos + 2..]), false))
  {
    hide Find, WithLine, Refuses, Opened;
  }

  lemma RunBody(boundary: string, c: Config)
    requires c.state == PartBody && c.window != ""
    ensures Delimiter(boundary) != ""
    ensures var d := Delimiter(boundary);
            var pos, len := Find(c.window, d), |c.window| - |d|;
            && (pos < |c.window| ==> pos + |d| <= |c.window|)
            && (len < 0 ==> Run(boundary, c, false) == Waiting(c))
            && (len >= 0 && (pos < |c.window| || len > 0) && Refuses(c.budget) ==>
                  Run(boundary, c, false) == Rejected(false, c.items))
            && (pos < |c.window| && !Refuses(c.budget) ==>
                  c.window[pos + |d|..] == c.window[pos..][|d|..] &&
                  Run(boundary, c, false) == Run(boundary,
                    Given(c, c.window[..pos]).(window := c.window[pos..][|d|..], state := AfterBoundary), false))
            && (len >= 0 && pos == |c.window| && len == 0 ==> Run(boundary, c, false) == Waiting(c))
            && (len >= 0 && pos == |c.window| && len > 0 && !Refuses(c.budget) ==>
                  Run(boundary, c, false) == Waiting(Given(c, c.window[..len]).(window := c.window[len..])))
  {
    hide Find, Given, Refuses;
  }

  datatype Next = Again | ReturnTrue | ReturnFalse

  /** One turn of the loop, from configuration `c` to `d`. */
  ghost predicate Follows(next: Next, boundary: string, c: Config, d: Config) {
    match next
    case Again =>
      && Run(boundary, c, false) == Run(boundary, d, false)
      && (|d.window| < |c.window| || (|d.window| == |c.window| && Rank(d.state) < Rank(c.state)))
    case ReturnTrue => Run(boundary, c, false) == Waiting(d)
    case ReturnFalse => Run(boundary, c, false) == Rejected(d.valid, d.items)
  }

  lemma Stops(boundary: string, c: Config)
    requires c.window == ""
    ensures Run(boundary, c, false) == Waiting(c)
  {
  }
}
