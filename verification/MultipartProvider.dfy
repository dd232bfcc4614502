/** `get_multipart_content_provider`: the closure that streams a form, driven by the chunked writer. */
module MultipartProvider {
  import opened Bytes
  import opened Streams
  import opened HeaderBlock
  import opened Multipart
  import opened Chunked

  /** One call of an item's provider: what it writes, and whether it then calls `done`; or a refusal. */
  datatype ProviderCall = More(writes: seq<string>) | Last(writes: seq<string>) | Fails

  /** `MultipartFormDataProvider`, with the calls its provider will make. */
  datatype ProviderItem = ProviderItem(file: FileInfo, script: seq<ProviderCall>)

  predicate NonEmptyWrites(writes: seq<string>) { forall w :: w in writes ==> w != "" }

  /** Only non-empty data, and `done` in the end. */
  predicate Conforms(script: seq<ProviderCall>) {
    script != []
    && (forall i :: 0 <= i < |script| - 1 ==> script[i].More? && NonEmptyWrites(script[i].writes))
    && script[|script| - 1].Last? && NonEmptyWrites(script[|script| - 1].writes)
  }

  /** Everything written by the calls from the `k`-th to the one that calls `done`. */
  function WritesFrom(script: seq<ProviderCall>, k: nat): seq<string>
    requires k <= |script|
    decreases |script| - k
  {
    if k == |script| || script[k].Fails? then []
    else script[k].writes + if script[k].Last? then [] else WritesFrom(script, k + 1)
  }

  /** Everything written by the first `k` calls. */
  function WritesBefore(script: seq<ProviderCall>, k: nat): seq<string>
    requires k <= |script|
  {
    if k == 0 then []
    else WritesBefore(script, k - 1) + if script[k - 1].Fails? then [] else script[k - 1].writes
  }

  /** One more call. */
  lemma CallTaken(script: seq<ProviderCall>, k: nat)
    requires k < |script| && !script[k].Fails?
    ensures var writes := script[k].writes;
            && WritesFrom(script, k) == writes + (if script[k].More? then WritesFrom(script, k + 1) else [])
            && |Concat(WritesBefore(script, k + 1))| == |Concat(WritesBefore(script, k))| + |Concat(writes)|
  {
    ConcatAppend(WritesBefore(script, k), script[k].writes);
  }

  function Content(p: ProviderItem): string { Concat(WritesFrom(p.script, 0)) }

  /** The item a provider item stands for. */
  function AsItem(p: ProviderItem): Item { Item(p.file, Content(p)) }

  function AsItems(ps: seq<ProviderItem>): seq<Item> {
    if ps == [] then [] else [AsItem(ps[0])] + AsItems(ps[1..])
  }

  // ---------------------------------------------------------------------------
  // The writes still to come
  // ---------------------------------------------------------------------------

  function WritesOfItems(ps: seq<ProviderItem>, boundary: string): seq<string> {
    if ps == [] then [Finish(boundary)]
    else [ItemBegin(ps[0].file, boundary)] + (WritesFrom(ps[0].script, 0) + ([CRLF] + WritesOfItems(ps[1..], boundary)))
  }

  /** All writes of a run: the batch of `items`, then begin, content and end of each provider item, then the finish. */
  function AllWrites(items: seq<Item>, ps: seq<ProviderItem>, boundary: string): seq<string> {
    (if items == [] then [] else [Serialized(items, boundary, false)]) + WritesOfItems(ps, boundary)
  }

  lemma {:induction false} ItemsTextAppend(a: seq<Item>, b: seq<Item>, boundary: string)
    ensures ItemsText(a + b, boundary) == ItemsText(a, boundary) + ItemsText(b, boundary)
  {
    hide ItemText;
    if a == [] {
      assert a + b == b;
    } else {
      assert (a + b)[1..] == a[1..] + b;
      ItemsTextAppend(a[1..], b, boundary);
      Assoc(ItemText(a[0], boundary), ItemsText(a[1..], boundary), ItemsText(b, boundary));
    }
  }

  lemma {:induction false} WritesOfItemsText(ps: seq<ProviderItem>, boundary: string)
    ensures Concat(WritesOfItems(ps, boundary)) == ItemsText(AsItems(ps), boundary) + Finish(boundary)
  {
    hide Finish, ItemBegin;
    if ps == [] {
      assert Concat([Finish(boundary)]) == Finish(boundary) + Concat([]);
    } else {
      var begin, content := ItemBegin(ps[0].file, boundary), WritesFrom(ps[0].script, 0);
      var later := WritesOfItems(ps[1..], boundary);
      WritesOfItemsText(ps[1..], boundary);
      ConcatAppend([begin], content + ([CRLF] + later));
      ConcatAppend(content, [CRLF] + later);
      ConcatAppend([CRLF], later);
      assert Concat([begin]) == begin + "" == begin && Concat([CRLF]) == CRLF + "" == CRLF;
      var rest := ItemsText(AsItems(ps[1..]), boundary) + Finish(boundary);
      assert AsItems(ps)[1..] == AsItems(ps[1..]);
      assert begin + (Concat(content) + (CRLF + rest)) == (begin + (Concat(content) + CRLF)) + rest;
      Assoc(ItemText(AsItem(ps[0]), boundary), ItemsText(AsItems(ps[1..]), boundary), Finish(boundary));
    }
  }

  /** The streamed body is the batch serialisation of all the items, provided ones included. */
  lemma StreamedIsBatch(items: seq<Item>, ps: seq<ProviderItem>, boundary: string)
    ensures Concat(AllWrites(items, ps, boundary)) == Serialized(items + AsItems(ps), boundary, true)
  {
    hide WritesOfItems, Finish, ItemsText;
    WritesOfItemsText(ps, boundary);
    ItemsTextAppend(items, AsItems(ps), boundary);
    Assoc(ItemsText(items, boundary), ItemsText(AsItems(ps), boundary), Finish(boundary));
    if items == [] {
      NoItems(items, boundary);
      assert AllWrites(items, ps, boundary) == WritesOfItems(ps, boundary);
      assert items + AsItems(ps) == AsItems(ps);
    } else {
      var batch := Serialized(items, boundary, false);
      assert batch == ItemsText(items, boundary) + "" == ItemsText(items, boundary);
      ConcatAppend([batch], WritesOfItems(ps, boundary));
      assert Concat([batch]) == batch + "" == batch;
    }
  }

  lemma NoItems(items: seq<Item>, boundary: string)
    requires items == []
    ensures ItemsText(items, boundary) == ""
  {
  }

  // ---------------------------------------------------------------------------
  // The providers and the closure
  // ---------------------------------------------------------------------------

  /** From writer state `a` to `b` by `written`. */
  predicate Progress(a: WriterState, b: WriterState, written: seq<string>) {
    b.sent == a.sent + EncodedChunks(written) && b.offset == a.offset + |Concat(written)|
  }

  lemma NoProgress(a: WriterState)
    ensures Progress(a, a, [])
  {
    assert a.sent + "" == a.sent;
  }

  lemma OneWrite(a: WriterState, data: string)
    ensures Progress(a, Apply(a, SinkOp.Write(data)), [data])
    ensures Apply(a, SinkOp.Write(data)).available <==> data != ""
  {
    assert EncodedChunks([data]) == EncodedChunk(data) + "" == EncodedChunk(data);
    assert Concat([data]) == data + "" == data;
  }

  lemma AfterWritesIs(a: WriterState, writes: seq<string>)
    ensures Progress(a, AfterWrites(a, writes), writes)
    ensures NonEmptyWrites(writes) && a.available ==> AfterWrites(a, writes).available
  {
    hide EncodedChunks;
    if writes != [] { assert writes[|writes| - 1] in writes; }
  }

  lemma ProgressJoin(a: WriterState, b: WriterState, c: WriterState, first: seq<string>, second: seq<string>)
    requires Progress(a, b, first) && Progress(b, c, second)
    ensures Progress(a, c, first + second)
  {
    hide EncodedChunks;
    EncodedChunksAppend(first, second);
    ConcatAppend(first, second);
    Assoc(a.sent, EncodedChunks(first), EncodedChunks(second));
  }

  /** The user's providers: how many calls each has had. */
  class Providers {
    const list: seq<ProviderItem>
    var made: seq<nat>

    ghost predicate Valid()
      reads this
    {
      |made| == |list| && forall i :: 0 <= i < |list| ==> made[i] <= |list[i].script|
    }

    constructor (list: seq<ProviderItem>)
      ensures Valid() && this.list == list && forall i :: 0 <= i < |list| ==> made[i] == 0
    {
      this.list := list;
      made := seq(|list|, _ => 0);
    }

    /** Writes the `i`-th provider has not made yet. */
    ghost function ToCome(i: nat): seq<string>
      reads this
      requires Valid() && i < |list|
    {
      WritesFrom(list[i].script, made[i])
    }

    /** Bytes the `i`-th provider has produced so far. */
    ghost function Produced(i: nat): nat
      reads this
      requires Valid() && i < |list|
    {
      |Concat(WritesBefore(list[i].script, made[i]))|
    }

    /** The next call of the `i`-th provider; `offset` must be what it has produced. */
    method Provide(i: nat, offset: int, w: ChunkedWriter) returns (ok: bool, hasData: bool)
      requires Valid() && w.Valid() && i < |list| && offset == Produced(i)
      modifies this, w, w.strm
      ensures Valid() && w.Valid()
      ensures forall k :: 0 <= k < |list| && k != i ==> made[k] == old(made[k])
      ensures ok == (old(made[i]) < |list[i].script| && !list[i].script[old(made[i])].Fails?)
      ensures ok ==>
                && made[i] == old(made[i]) + 1
                && var call := list[i].script[old(made[i])];
                && hasData == call.More?
                && old(ToCome(i)) == call.writes + (if hasData then ToCome(i) else [])
                && Produced(i) == offset + |Concat(call.writes)|
                && (w.ok ==> old(w.ok) && w.State() == AfterWrites(old(w.State()), call.writes))
      ensures !ok ==> w.ok == old(w.ok) && w.State() == old(w.State())
    {
      hide AfterWrites, WritesFrom, WritesBefore, Concat, ApplyAll, AsWrites, ChunkedWriter.Valid, OutStream.Valid;
      var k := made[i];
      if k == |list[i].script| || list[i].script[k].Fails? { return false, true; }
      var call := list[i].script[k];
      ApplyWrites(w.State(), call.writes);
      CallTaken(list[i].script, k);
      w.Call(AsWrites(call.writes));
      made := made[i := k + 1];
      return true, call.More?;
    }
  }

  /** The closure, with the two variables it keeps between calls. */
  class MultipartClosure {
    const boundary: string
    const items: seq<Item>
    const providers: Providers
    var curItem: nat
    var curStart: nat

    ghost predicate Valid()
      reads this, providers
    {
      providers.Valid() && curItem <= |providers.list|
      && (forall k :: curItem < k < |providers.list| ==> providers.made[k] == 0)
      && (curItem < |providers.list| && curStart == 0 ==> providers.made[curItem] == 0)
    }

    constructor (boundary: string, items: seq<Item>, list: seq<ProviderItem>)
      ensures Valid() && fresh(providers)
      ensures this.boundary == boundary && this.items == items && providers.list == list
      ensures curItem == 0 && curStart == 0
    {
      this.boundary, this.items := boundary, items;
      providers := new Providers(list);
      curItem, curStart := 0, 0;
    }

    function Total(): nat { |providers.list| }

    /** Nothing sent yet, with a batch to begin with. */
    predicate Untouched(offset: nat) { offset == 0 && items != [] }

    predicate AllConform() { forall i :: 0 <= i < Total() ==> Conforms(providers.list[i].script) }

    /** The writes still to come, when `offset` bytes have been sent. */
    ghost function Remaining(offset: nat): seq<string>
      reads this, providers
      requires Valid()
    {
      if Untouched(offset) then AllWrites(items, providers.list, boundary)
      else if curItem < Total() then
        (if curStart == 0 then [ItemBegin(providers.list[curItem].file, boundary)] else [])
        + (providers.ToCome(curItem) + ([CRLF] + WritesOfItems(providers.list[curItem + 1..], boundary)))
      else [Finish(boundary)]
    }

    /** Between two calls: the provider in progress has produced the bytes sent since its content began. */
    ghost predicate InStep(offset: nat)
      reads this, providers
      requires Valid()
    {
      && (Untouched(offset) ==> curItem == 0 && curStart == 0)
      && (curItem < Total() && curStart > 0 ==> offset - curStart == providers.Produced(curItem))
      && (AllConform() && curItem < Total() ==> providers.made[curItem] < |providers.list[curItem].script|)
    }

    /** The batch of `items`, on the first call. */
    method SendBatch(w: ChunkedWriter)
      requires Valid() && w.Valid() && InStep(w.offset) && Untouched(w.offset)
      modifies w, w.strm
      ensures Valid() && w.Valid()
      ensures w.ok ==>
                && old(w.ok) && InStep(w.offset) && !Untouched(w.offset) && w.dataAvailable
                && var written := [Serialized(items, boundary, false)];
                Progress(old(w.State()), w.State(), written)
                && old(Remaining(w.offset)) == written + Remaining(w.offset)
    {
      hide Serialized, Progress, ItemBegin, Finish;
      var batch := SerializeMultipartFormdata(items, boundary, false);
      BatchNotEmpty(items, boundary);
      OneWrite(w.State(), batch);
      ProgressBytes(w.State(), Apply(w.State(), SinkOp.Write(batch)), batch);
      var _ := w.Write(batch);
      if w.ok { RemainingAtStart(w.offset); }
    }

    lemma RemainingAtStart(offset: nat)
      requires Valid() && curItem == 0 && curStart == 0 && !Untouched(offset)
      ensures Remaining(offset) == WritesOfItems(providers.list, boundary)
    {
      hide ItemBegin, Finish;
      if Total() > 0 { assert providers.list[0 + 1..] == providers.list[1..]; }
    }

    /** The item's begin, when its content has not begun; `offset` is what the provider's count is taken from. */
    method BeginItem(w: ChunkedWriter) returns (offset: nat, ghost written: seq<string>)
      requires Valid() && w.Valid() && curItem < Total() && InStep(w.offset)
      modifies this`curStart, w, w.strm
      ensures Valid() && w.Valid() && curStart > 0 && offset - curStart == providers.Produced(curItem)
      ensures written == if old(curStart) == 0 then [ItemBegin(providers.list[curItem].file, boundary)] else []
      ensures w.ok ==> old(w.ok) && Progress(old(w.State()), w.State(), written) && offset == w.offset
      ensures w.ok && old(w.dataAvailable) ==> w.dataAvailable
    {
      hide ItemBegin, Progress;
      offset := w.offset;
      written := [];
      NoProgress(w.State());
      if curStart == 0 {
        var begin := ItemBegin(providers.list[curItem].file, boundary);
        BeginNotEmpty(providers.list[curItem].file, boundary);
        OneWrite(w.State(), begin);
        offset := offset + |begin|;
        curStart := offset;
        var _ := w.Write(begin);
        written := [begin];
      }
    }

    /** The provider's turn, and the item's end when it is done. */
    method ContinueItem(offset: nat, w: ChunkedWriter) returns (r: bool, ghost written: seq<string>)
      requires Valid() && w.Valid() && curItem < Total() && curStart > 0
      requires offset - curStart == providers.Produced(curItem)
      modifies this`curItem, this`curStart, providers, w, w.strm
      ensures Valid() && w.Valid()
      ensures r ==> (curItem == old(curItem) && curStart == old(curStart)
                     && old(providers.made[curItem]) < providers.made[curItem])
                    || (curItem == old(curItem) + 1 && curStart == 0)
      ensures r && w.ok ==>
                && old(w.ok) && Progress(old(w.State()), w.State(), written)
                && (curItem == old(curItem) ==>
                      old(providers.ToCome(curItem)) == written + providers.ToCome(curItem)
                      && (offset == old(w.offset) ==> w.offset - curStart == providers.Produced(curItem)))
                && (curItem != old(curItem) ==> old(providers.ToCome(curItem)) + [CRLF] == written)
      ensures Conforms(providers.list[old(curItem)].script)
              && old(providers.made[curItem]) < |providers.list[old(curItem)].script| ==>
                r && (curItem == old(curItem) ==> providers.made[curItem] < |providers.list[curItem].script|)
                && (w.ok && old(w.dataAvailable) ==> w.dataAvailable)
    {
      hide AfterWrites, EncodedChunks, WritesFrom, WritesBefore, Concat, ChunkedWriter.Valid, OutStream.Valid;
      ghost var st := w.State();
      ghost var script := providers.list[curItem].script;
      ghost var k := providers.made[curItem];
      var ok, hasData := providers.Provide(curItem, offset - curStart, w);
      if !ok { return false, []; }
      written := script[k].writes;
      AfterWritesIs(st, written);
      if !hasData {
        ghost var mid := w.State();
        EndItem(w);
        if w.ok { ProgressJoin(st, mid, w.State(), written, [CRLF]); }
        written := written + [CRLF];
      }
      return true, written;
    }

    /** The item's end, and on to the next item. */
    method EndItem(w: ChunkedWriter)
      requires Valid() && w.Valid() && curItem < Total()
      modifies this`curItem, this`curStart, w, w.strm
      ensures Valid() && w.Valid() && curItem == old(curItem) + 1 && curStart == 0
      ensures w.ok ==> old(w.ok) && w.dataAvailable && Progress(old(w.State()), w.State(), [CRLF])
    {
      hide Progress, OutStream.Valid, ChunkedWriter.Valid;
      OneWrite(w.State(), CRLF);
      var _ := w.Write(CRLF);
      curItem := curItem + 1;
      curStart := 0;
    }

    /** A call while there is an item to go on with. */
    method SendFromItem(w: ChunkedWriter) returns (r: bool, ghost written: seq<string>)
      requires Valid() && w.Valid() && curItem < Total() && InStep(w.offset) && !Untouched(w.offset)
      modifies this`curItem, this`curStart, providers, w, w.strm
      ensures Valid() && w.Valid()
      ensures r ==> (curItem == old(curItem) && old(providers.made[curItem]) < providers.made[curItem])
                    || curItem == old(curItem) + 1
      ensures r && w.ok ==>
                && old(w.ok) && InStep(w.offset) && !Untouched(w.offset)
                && Progress(old(w.State()), w.State(), written)
                && old(Remaining(w.offset)) == written + Remaining(w.offset)
      ensures AllConform() ==> r && (w.ok && old(w.dataAvailable) ==> w.dataAvailable)
    {
      hide ItemBegin, Finish, Progress, WritesOfItems, Conforms, Remaining, ChunkedWriter.Valid, OutStream.Valid;
      RemainingInItem(w.offset);
      ghost var st := w.State();
      var offset, begun := BeginItem(w);
      ghost var mid := w.State();
      ghost var i, toCome := curItem, providers.ToCome(curItem);
      ghost var continued: seq<string>;
      r, continued := ContinueItem(offset, w);
      written := begun + continued;
      if r && w.ok {
        ProgressJoin(st, mid, w.State(), begun, continued);
        OffsetGrows(st, w.State(), written);
        CallsToMake();
        StepTaken(old(Remaining(w.offset)), i, begun, toCome, continued, w.offset);
      }
    }

    lemma CallsToMake()
      ensures AllConform() ==> forall i :: 0 <= i < Total() ==> |providers.list[i].script| > 0
    {
    }

    lemma RemainingInItem(offset: nat)
      requires Valid() && curItem < Total() && !Untouched(offset)
      ensures Remaining(offset)
              == (if curStart == 0 then [ItemBegin(providers.list[curItem].file, boundary)] else [])
                 + (providers.ToCome(curItem) + ([CRLF] + WritesOfItems(providers.list[curItem + 1..], boundary)))
    {
    }

    lemma StepTaken(was: seq<string>, i: nat, begun: seq<string>, toCome: seq<string>, continued: seq<string>,
                    offset: nat)
      requires Valid() && i < Total() && !Untouched(offset)
      requires was == begun + (toCome + ([CRLF] + WritesOfItems(providers.list[i + 1..], boundary)))
      requires if curItem == i then curStart > 0 && toCome == continued + providers.ToCome(i)
               else curItem == i + 1 && curStart == 0 && toCome + [CRLF] == continued
      ensures was == (begun + continued) + Remaining(offset)
    {
      hide ItemBegin, Finish;
      var later := WritesOfItems(providers.list[i + 1..], boundary);
      if curItem == i {
        Assoc(continued, providers.ToCome(i), [CRLF] + later);
        Assoc(begun, continued, providers.ToCome(i) + ([CRLF] + later));
        assert [] + (providers.ToCome(i) + ([CRLF] + later)) == providers.ToCome(i) + ([CRLF] + later);
      } else {
        Assoc(toCome, [CRLF], later);
        Assoc(begun, continued, later);
        if curItem < Total() {
          assert providers.list[i + 1..][1..] == providers.list[curItem + 1..];
        }
      }
    }

    /** The finish line and `done`. */
    method SendFinish(w: ChunkedWriter)
      requires Valid() && w.Valid() && curItem == Total()
      modifies w, w.strm
      ensures Valid() && w.Valid()
      ensures w.ok ==>
                old(w.ok) && !w.dataAvailable
                && w.strm.sent == old(w.strm.sent) + EncodedChunks([Finish(boundary)]) + Terminator([])
    {
      hide Finish;
      var _ := w.Write(Finish(boundary));
      OneWrite(old(w.State()), Finish(boundary));
      w.Done([]);
    }

    /** One call of the closure by the chunked writer. */
    method Call(w: ChunkedWriter) returns (r: bool, ghost written: seq<string>)
      requires Valid() && w.Valid() && InStep(w.offset)
      modifies this`curItem, this`curStart, providers, w, w.strm
      ensures Valid() && w.Valid()
      ensures AllConform() ==> r
      ensures AllConform() && w.ok && old(w.dataAvailable) && (old(curItem) < Total() || old(Untouched(w.offset))) ==>
                w.dataAvailable
      ensures r && w.ok ==> old(w.ok)
      ensures r && w.ok && w.dataAvailable ==>
                && InStep(w.offset) && !Untouched(w.offset)
                && Progress(old(w.State()), w.State(), written)
                && old(Remaining(w.offset)) == written + Remaining(w.offset)
                && (old(Untouched(w.offset)) || old(curItem) < curItem
                    || (curItem == old(curItem) < Total() && old(providers.made[curItem]) < providers.made[curItem]))
      ensures r && w.ok && old(curItem) == Total() && !old(Untouched(w.offset)) ==>
                !w.dataAvailable
                && w.strm.sent == old(w.strm.sent) + EncodedChunks(old(Remaining(w.offset))) + Terminator([])
    {
      hide ItemBegin, Finish, Progress, WritesOfItems, Conforms, Serialized;
      if w.offset == 0 && items != [] {
        SendBatch(w);
        return true, [Serialized(items, boundary, false)];
      } else if curItem < |providers.list| {
        r, written := SendFromItem(w);
      } else {
        SendFinish(w);
        return true, [];
      }
    }
  }

  lemma BatchNotEmpty(items: seq<Item>, boundary: string)
    requires items != []
    ensures Serialized(items, boundary, false) != ""
  {
  }

  lemma BeginNotEmpty(file: FileInfo, boundary: string)
    ensures ItemBegin(file, boundary) != ""
  {
  }

  lemma ProgressBytes(a: WriterState, b: WriterState, data: string)
    requires Progress(a, b, [data])
    ensures b.offset == a.offset + |data|
  {
    assert Concat([data]) == data + "";
  }

  lemma OffsetGrows(a: WriterState, b: WriterState, written: seq<string>)
    requires Progress(a, b, written)
    ensures a.offset <= b.offset
  {
  }

  // ---------------------------------------------------------------------------
  // The run
  // ---------------------------------------------------------------------------

  /** What the connection holds once the writes of `remaining` and the terminator have been sent. */
  function Target(sent: string, remaining: seq<string>): string { sent + EncodedChunks(remaining) + Terminator([]) }

  lemma TargetMoves(a: WriterState, b: WriterState, written: seq<string>, rest: seq<string>)
    requires Progress(a, b, written)
    ensures Target(a.sent, written + rest) == Target(b.sent, rest)
  {
    hide EncodedChunks;
    EncodedChunksAppend(written, rest);
    Assoc(a.sent, EncodedChunks(written), EncodedChunks(rest));
  }

  /** `write_content_chunked` on the closure: with conforming providers and a reliable connection, the chunks sent
      are those of `AllWrites`, and the terminator follows. */
  method SendForm(strm: OutStream, boundary: string, items: seq<Item>, list: seq<ProviderItem>) returns (r: bool)
    requires strm.Valid()
    modifies strm
    ensures (forall p :: p in list ==> Conforms(p.script)) ==>
              (strm.Reliable() ==> r)
              && (r ==> strm.sent == Target(old(strm.sent), AllWrites(items, list, boundary)))
  {
    hide Target, Progress, Conforms, Terminator, AllWrites, EncodedChunks, WritesOfItems;
    var w := new ChunkedWriter(strm);
    var closure := new MultipartClosure(boundary, items, list);
    ghost var target := Target(strm.sent, AllWrites(items, list, boundary));
    StartRun(closure);
    r := RunClosure(w, closure, target);
  }

  lemma StartRun(closure: MultipartClosure)
    requires closure.Valid() && closure.curItem == 0 && closure.curStart == 0
    requires forall i :: 0 <= i < closure.Total() ==> closure.providers.made[i] == 0
    ensures closure.InStep(0)
    ensures closure.Remaining(0) == AllWrites(closure.items, closure.providers.list, closure.boundary)
    ensures (forall p :: p in closure.providers.list ==> Conforms(p.script)) ==> closure.AllConform()
  {
    hide WritesOfItems, ItemBegin, Finish;
    var all := AllWrites(closure.items, closure.providers.list, closure.boundary);
    if closure.items == [] {
      closure.RemainingAtStart(0);
      assert [] + WritesOfItems(closure.providers.list, closure.boundary)
          == WritesOfItems(closure.providers.list, closure.boundary);
    }
  }

  method RunClosure(w: ChunkedWriter, closure: MultipartClosure, ghost target: string) returns (r: bool)
    requires w.Valid() && w.ok && w.dataAvailable && closure.Valid() && closure.InStep(w.offset)
    requires target == Target(w.strm.sent, closure.Remaining(w.offset))
    modifies w, w.strm, closure`curItem, closure`curStart, closure.providers
    ensures w.Valid() && closure.Valid()
    ensures closure.AllConform() ==> (w.strm.Reliable() ==> r) && (r ==> w.strm.sent == target)
  {
    hide Target, Progress, Conforms, Terminator, AllWrites, EncodedChunks, WritesOfItems;
    while w.dataAvailable
      invariant w.Valid() && w.ok && closure.Valid()
      invariant w.dataAvailable ==> closure.InStep(w.offset)
      invariant w.dataAvailable ==> target == Target(w.strm.sent, closure.Remaining(w.offset))
      invariant closure.AllConform() && !w.dataAvailable ==> w.strm.sent == target
      decreases w.dataAvailable, closure.Untouched(w.offset), closure.Total() - closure.curItem,
                if closure.curItem < closure.Total()
                then |closure.providers.list[closure.curItem].script| - closure.providers.made[closure.curItem] else 0
    {
      if w.strm.broken { return false; }
      ghost var st, remaining := w.State(), closure.Remaining(w.offset);
      ghost var last := closure.curItem == closure.Total() && !closure.Untouched(w.offset);
      var ok, written := closure.Call(w);
      if !ok { return false; }
      if !w.ok { return false; }
      if w.dataAvailable {
        TargetMoves(st, w.State(), written, closure.Remaining(w.offset));
      } else if last {
        TargetReached(st.sent, remaining);
      }
    }
    return true;
  }

  lemma TargetReached(sent: string, remaining: seq<string>)
    ensures sent + EncodedChunks(remaining) + Terminator([]) == Target(sent, remaining)
  {
  }

  /** From end to end: the receiver of the chunked body gets the batch serialisation of all the items. */
  lemma ReceivedIsBatch(items: seq<Item>, ps: seq<ProviderItem>, boundary: string, rest: string, end: End)
    requires Sendable(AllWrites(items, ps, boundary))
    ensures ReadMessage(Target("", AllWrites(items, ps, boundary)) + rest, end)
            == Message(true, Serialized(items + AsItems(ps), boundary, true), [], rest)
  {
    hide AllWrites, ReadMessage, EncodedChunks, Terminator, Serialized;
    var writes := AllWrites(items, ps, boundary);
    assert "" + EncodedChunks(writes) == EncodedChunks(writes);
    ReadWritten(writes, [], rest, end);
    StreamedIsBatch(items, ps, boundary);
  }
}
