/** The multipart/form-data text: its printer, and the reading of one part-header line. */
module Multipart {
  import opened Bytes
  import opened PercentCoding
  import opened QueryText
  import opened HeaderBlock

  /** What the part headers say. */
  datatype FileInfo = FileInfo(name: string, filename: string, contentType: string)

  const NO_FILE := FileInfo("", "", "")

  /** `MultipartFormData` */
  datatype Item = Item(file: FileInfo, content: string)

  // ---------------------------------------------------------------------------
  // serialize_multipart_formdata
  // ---------------------------------------------------------------------------

  function DispositionValue(file: FileInfo): string {
    "form-data; name=\"" + file.name + "\""
    + if file.filename == "" then "" else "; filename=\"" + file.filename + "\""
  }

  function DispositionLine(file: FileInfo): string { "Content-Disposition: " + DispositionValue(file) }

  function TypeLine(file: FileInfo): string { "Content-Type: " + file.contentType }

  function ItemHeaders(file: FileInfo): string {
    DispositionLine(file) + CRLF + (if file.contentType == "" then "" else TypeLine(file) + CRLF) + CRLF
  }

  function ItemBegin(file: FileInfo, boundary: string): string {
    "--" + boundary + CRLF + ItemHeaders(file)
  }

  function Finish(boundary: string): string { "--" + boundary + "--" + CRLF }

  function ItemText(item: Item, boundary: string): string {
    ItemBegin(item.file, boundary) + (item.content + CRLF)
  }

  function ItemsText(items: seq<Item>, boundary: string): string {
    if items == [] then "" else ItemText(items[0], boundary) + ItemsText(items[1..], boundary)
  }

  function Serialized(items: seq<Item>, boundary: string, finish: bool): string {
    ItemsText(items, boundary) + if finish then Finish(boundary) else ""
  }

  method SerializeMultipartFormdata(items: seq<Item>, boundary: string, finish: bool) returns (body: string)
    ensures body == Serialized(items, boundary, finish)
  {
    hide ItemText;
    body := "";
    assert items[0..] == items;
    for i := 0 to |items|
      invariant body + ItemsText(items[i..], boundary) == ItemsText(items, boundary)
    {
      Advance(items, i);
      Assoc(body, ItemText(items[i], boundary), ItemsText(items[i + 1..], boundary));
      OneItem(body, items[i], boundary);
      body := body + ItemBegin(items[i].file, boundary);
      body := body + (items[i].content + CRLF);
    }
    if finish { body := body + Finish(boundary); }
  }

  lemma OneItem(body: string, item: Item, boundary: string)
    ensures (body + ItemBegin(item.file, boundary)) + (item.content + CRLF) == body + ItemText(item, boundary)
  {
    hide ItemBegin;
    Assoc(body, ItemBegin(item.file, boundary), item.content + CRLF);
  }

  // ---------------------------------------------------------------------------
  // One header line of a part
  // ---------------------------------------------------------------------------

  /** `trim_double_quotes_copy` */
  function Unquoted(s: string): string {
    if |s| >= 2 && s[0] == '"' && s[|s| - 1] == '"' then s[1..|s| - 1] else s
  }

  predicate OneLine(s: string) { forall i :: 0 <= i < |s| ==> s[i] != '\r' && s[i] != '\n' }

  /** The capture of `^Content-Disposition:\s*form-data;\s*(.*)$`, ignoring case. */
  function DispositionText(line: string): Option<string> {
    if !StartsWithIgnoreCase(line, "Content-Disposition:") then None
    else
      var value := SkipSpaces(line[20..]);
      if !StartsWithIgnoreCase(value, "form-data;") then None
      else
        var text := SkipSpaces(value[10..]);
        if OneLine(text) then Some(text) else None
  }

  /** The capture of `^UTF-8''(.+?)$`, ignoring case. */
  function ExtendedName(value: string): Option<string> {
    if StartsWithIgnoreCase(value, "UTF-8''") && |value| > 7 && OneLine(value[7..]) then Some(value[7..]) else None
  }

  /** The key and value of one disposition parameter: the first and last pieces around '='. */
  function DispositionPair(kv: string): seq<Pair> {
    var pieces := Split(kv, '=');
    if pieces == [] then []
    else [(Unquoted(pieces[0]), Unquoted(if |pieces| > 1 then pieces[|pieces| - 1] else ""))]
  }

  function DispositionPairs(pieces: seq<string>, cache: set<string>): seq<Pair> {
    if pieces == [] then []
    else if pieces[0] in cache then DispositionPairs(pieces[1..], cache)
    else DispositionPair(pieces[0]) + DispositionPairs(pieces[1..], cache + {pieces[0]})
  }

  /** `parse_disposition_params`, with what it emplaces in order. */
  method ParseDispositionParams(s: string) returns (params: seq<Pair>)
    ensures params == DispositionPairs(Split(s, ';'), {})
  {
    hide Split, DispositionPair;
    var cache: set<string> := {};
    params := [];
    var pieces := SplitPieces(s, ';');
    assert pieces[0..] == pieces;
    for i := 0 to |pieces|
      invariant params + DispositionPairs(pieces[i..], cache) == DispositionPairs(pieces, {})
    {
      var kv := pieces[i];
      Advance(pieces, i);
      if kv in cache { continue; }
      cache := cache + {kv};
      var fields := SplitPieces(kv, '=');
      var key, val := "", "";
      for j := 0 to |fields|
        invariant j == 0 ==> key == "" && val == ""
        invariant j > 0 ==> key == fields[0] != "" && val == if j > 1 then fields[j - 1] else ""
      {
        SplitNonEmpty(kv, '=');
        if key == "" { key := fields[j]; } else { val := fields[j]; }
      }
      PairOfFields(kv);
      Assoc(params, DispositionPair(kv), DispositionPairs(pieces[i + 1..], cache));
      if key != "" { params := params + [(Unquoted(key), Unquoted(val))]; } else { assert params + [] == params; }
    }
    NoPieces(pieces, cache);
    assert params + [] == params;
  }

  lemma NoPieces(pieces: seq<string>, cache: set<string>)
    ensures DispositionPairs(pieces[|pieces|..], cache) == []
  {
  }

  lemma PairOfFields(kv: string)
    ensures var f := Split(kv, '=');
            DispositionPair(kv) ==
            if f == [] then [] else [(Unquoted(f[0]), Unquoted(if |f| > 1 then f[|f| - 1] else ""))]
  {
  }

  lemma SplitNonEmpty(s: string, d: char)
    ensures forall i :: 0 <= i < |Split(s, d)| ==> Split(s, d)[i] != ""
    decreases |s|
  {
    hide Trim;
    var k := IndexOf(s, d);
    if k < |s| { SplitNonEmpty(s[k + 1..], d); }
  }

  /** `params.find(key)`: the first value under the key. */
  function FirstValue(params: seq<Pair>, key: string): Option<string> {
    if params == [] then None else if params[0].0 == key then Some(params[0].1) else FirstValue(params[1..], key)
  }

  /** What the disposition parameters make of `file`; `None` when they are rejected. */
  function WithParams(file: FileInfo, params: seq<Pair>): Option<FileInfo> {
    match FirstValue(params, "name")
    case None => None
    case Some(name) =>
      var plain := FirstValue(params, "filename");
      var named := FileInfo(name, if plain.Some? then plain.value else file.filename, file.contentType);
      match FirstValue(params, "filename*")
      case None => Some(named)
      case Some(extended) =>
        match ExtendedName(extended)
        case None => None
        case Some(text) => Some(named.(filename := Decoded(text, false)))
  }

  /** The effect of one non-empty header line on `file`; `None` when the line is rejected. */
  function WithLine(file: FileInfo, line: string): Option<FileInfo> {
    if ParsedHeader(line).None? then None
    else if StartsWithIgnoreCase(line, "Content-Type:") then Some(file.(contentType := Trim(line[13..])))
    else
      match DispositionText(line)
      case None => Some(file)
      case Some(text) => WithParams(file, DispositionPairs(Split(text, ';'), {}))
  }

  method ReadHeaderLine(file: FileInfo, line: string) returns (r: Option<FileInfo>)
    ensures r == WithLine(file, line)
  {
    hide ParsedHeader, DispositionText, DispositionPairs, Split, Trim;
    var h := ParseHeader(line);
    if h.None? { return None; }
    if StartsWithIgnoreCase(line, "Content-Type:") { return Some(file.(contentType := Trim(line[13..]))); }
    match DispositionText(line) {
      case None => return Some(file);
      case Some(text) =>
        var params := ParseDispositionParams(text);
        return WithParams(file, params);
    }
  }
}
