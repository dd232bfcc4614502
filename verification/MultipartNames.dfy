/** Names and file names in part headers: what the parser reads back from what the printer writes. */
module MultipartNames {
  import opened Bytes
  import opened PercentCoding
  import opened QueryText
  import opened HeaderBlock
  import opened Multipart

  /** The characters of a field value that delimit no parameters. */
  predicate NameChar(c: char) { (IsSpaceOrTab(c) || IsFieldVchar(c)) && c != ';' && c != '=' }

  predicate FieldText(s: string) { forall i :: 0 <= i < |s| ==> IsSpaceOrTab(s[i]) || IsFieldVchar(s[i]) }

  predicate NameText(s: string) { forall i :: 0 <= i < |s| ==> NameChar(s[i]) }

  // ---------------------------------------------------------------------------
  // The part headers
  // ---------------------------------------------------------------------------

  /** The disposition parameters as they are written. */
  function Param(key: string, value: string): string { key + "=\"" + value + "\"" }

  function NameParam(file: FileInfo): string { Param("name", file.name) }

  function FilenameParam(file: FileInfo): string { Param("filename", file.filename) }

  function ParamsText(file: FileInfo): string {
    NameParam(file) + if file.filename == "" then "" else "; " + FilenameParam(file)
  }

  lemma DispositionIs(file: FileInfo)
    ensures DispositionValue(file) == "form-data; " + ParamsText(file)
    ensures DispositionLine(file) == "Content-Disposition" + ": " + DispositionValue(file)
  {
  }

  /** Text around a name or file name: no line end gets in. */
  lemma ParamChars(key: string, name: string)
    requires FieldText(name) && IsFieldName(key)
    ensures OneLine(Param(key, name)) && FieldText(Param(key, name))
  {
    var s := Param(key, name);
    forall i | 0 <= i < |s| ensures s[i] != '\r' && s[i] != '\n' && (IsSpaceOrTab(s[i]) || IsFieldVchar(s[i])) {
      if i < |key| {
        assert s[i] == key[i];
        TokenHasNoColon(key, i);
        assert IsTokenChar(key[i]);
      } else if |key| + 2 <= i < |s| - 1 {
        assert s[i] == name[i - |key| - 2];
      }
    }
  }

  lemma QuotedStays(name: string)
    ensures var q := "\"" + name + "\""; Trim(q) == q && Unquoted(q) == name && NonEmpty(q) == [q]
  {
    hide TrimLeft, TrimRight;
    var q := "\"" + name + "\"";
    TrimRightIs(q, |q|);
    TrimLeftIs(q, 0);
  }

  lemma PlainStays(key: string)
    requires key != "" && forall i :: 0 <= i < |key| ==> !IsSpaceOrTab(key[i]) && key[i] != '"'
    ensures Trim(key) == key && Unquoted(key) == key && NonEmpty(key) == [key]
  {
    hide TrimLeft, TrimRight;
    TrimRightIs(key, |key|);
    TrimLeftIs(key, 0);
  }

  predicate PlainParamKey(key: string) {
    key != "" && forall i :: 0 <= i < |key| ==> !IsSpaceOrTab(key[i]) && key[i] !in "\"=;"
  }

  lemma ParamPair(key: string, name: string)
    requires PlainParamKey(key) && NameText(name)
    ensures DispositionPair(Param(key, name)) == [(key, name)]
  {
    hide Split, Trim;
    var q := "\"" + name + "\"";
    assert Param(key, name) == key + ['='] + q;
    SplitAt(key, '=', q);
    forall i | 0 <= i < |q| ensures q[i] != '=' {
      if 0 < i < |q| - 1 { assert NameChar(name[i - 1]); }
    }
    SplitAt(q, '=', "");
    QuotedStays(name);
    PlainStays(key);
  }

  lemma NoSemicolon(key: string, name: string)
    requires PlainParamKey(key) && NameText(name)
    ensures var s := Param(key, name); forall i :: 0 <= i < |s| ==> s[i] != ';'
  {
    var s := Param(key, name);
    forall i | 0 <= i < |s| ensures s[i] != ';' {
      if |key| + 2 <= i < |s| - 1 { assert NameChar(name[i - |key| - 2]); }
    }
  }

  lemma TrimOfFramed(s: string)
    requires s != "" && !IsSpaceOrTab(s[0]) && !IsSpaceOrTab(s[|s| - 1])
    ensures Trim(s) == s && Trim(" " + s) == s
  {
    hide TrimLeft, TrimRight;
    TrimRightIs(s, |s|);
    TrimLeftIs(s, 0);
    var t := " " + s;
    TrimRightIs(t, |t|);
    TrimLeftIs(t, 1);
    assert t[..|t|] == t && t[1..] == s && s[..|s|] == s;
  }

  /** A parameter as written, with or without the blank before it, is one trimmed piece. */
  lemma ParamTrimmed(key: string, name: string)
    requires PlainParamKey(key)
    ensures var s := Param(key, name); Trim(s) == s == Trim(" " + s) && NonEmpty(s) == [s]
  {
    hide Trim;
    var s := Param(key, name);
    assert s[0] == key[0] && s[|s| - 1] == '"';
    TrimOfFramed(s);
  }

  lemma ParamsSplit(file: FileInfo)
    requires NameText(file.name) && NameText(file.filename)
    ensures Split(ParamsText(file), ';')
            == if file.filename == "" then [NameParam(file)] else [NameParam(file), FilenameParam(file)]
  {
    hide Split, Trim, Param;
    NoSemicolon("name", file.name);
    ParamTrimmed("name", file.name);
    if file.filename == "" {
      assert ParamsText(file) == NameParam(file);
      SplitAt(NameParam(file), ';', "");
    } else {
      NoSemicolon("filename", file.filename);
      ParamTrimmed("filename", file.filename);
      var later := " " + FilenameParam(file);
      assert ParamsText(file) == NameParam(file) + [';'] + later;
      SplitAt(NameParam(file), ';', later);
      SplitAt(later, ';', "");
    }
  }

  lemma PairsOfPieces(pieces: seq<string>)
    requires |pieces| == 1 || (|pieces| == 2 && pieces[0] != pieces[1])
    ensures DispositionPairs(pieces, {})
            == DispositionPair(pieces[0]) + if |pieces| == 1 then [] else DispositionPair(pieces[1])
  {
    hide DispositionPair;
    if |pieces| == 2 {
      assert pieces[1..] == [pieces[1]];
      assert DispositionPairs([pieces[1]], {pieces[0]}) == DispositionPair(pieces[1]) + [];
      assert {} + {pieces[0]} == {pieces[0]};
    }
  }

  lemma ParamsRead(file: FileInfo)
    requires NameText(file.name) && NameText(file.filename)
    ensures DispositionPairs(Split(ParamsText(file), ';'), {})
            == if file.filename == "" then [("name", file.name)]
               else [("name", file.name), ("filename", file.filename)]
  {
    hide Split, DispositionPair;
    ParamsSplit(file);
    ParamPair("name", file.name);
    ParamPair("filename", file.filename);
    assert NameParam(file)[0] == 'n' && FilenameParam(file)[0] == 'f';
    var pieces := Split(ParamsText(file), ';');
    PairsOfPieces(pieces);
  }

  lemma OneParam(p: Pair)
    ensures forall key :: FirstValue([p], key) == if p.0 == key then Some(p.1) else None
  {
    assert [p][1..] == [];
  }

  lemma TwoParams(p: Pair, q: Pair)
    ensures forall key ::
              FirstValue([p, q], key) == if p.0 == key then Some(p.1) else if q.0 == key then Some(q.1) else None
  {
    OneParam(q);
    assert [p, q][1..] == [q];
  }

  lemma ParamsApplied(file: FileInfo)
    requires NameText(file.name) && NameText(file.filename)
    ensures WithParams(NO_FILE, DispositionPairs(Split(ParamsText(file), ';'), {}))
            == Some(FileInfo(file.name, file.filename, ""))
  {
    hide Split, DispositionPairs, FirstValue;
    ParamsRead(file);
    assert |"name"| == 4 && |"filename"| == 8 && |"filename*"| == 9;
    if file.filename == "" {
      OneParam(("name", file.name));
    } else {
      TwoParams(("name", file.name), ("filename", file.filename));
    }
  }

  lemma ParamsOneLine(file: FileInfo)
    requires FieldText(file.name) && FieldText(file.filename)
    ensures OneLine(ParamsText(file)) && FieldText(ParamsText(file))
  {
    hide Param;
    ParamChars("name", file.name);
    ParamChars("filename", file.filename);
    var a, b := NameParam(file), FilenameParam(file);
    var s := ParamsText(file);
    forall i | 0 <= i < |s|
      ensures s[i] != '\r' && s[i] != '\n' && (IsSpaceOrTab(s[i]) || IsFieldVchar(s[i]))
    {
      if i < |a| { assert s[i] == a[i]; } else if i >= |a| + 2 { assert s[i] == b[i - |a| - 2]; }
    }
  }

  lemma SamePrefix(s: string, prefix: string, rest: string)
    requires s == prefix + rest
    ensures StartsWithIgnoreCase(s, prefix) && s[|prefix|..] == rest
  {
    assert s[..|prefix|] == prefix;
  }

  lemma SkipBlank(t: string)
    requires t != "" && !IsSpace(t[0])
    ensures SkipSpaces(" " + t) == t
  {
    assert (" " + t)[1..] == t;
  }

  lemma FieldTextIsOneLine(s: string)
    requires FieldText(s)
    ensures OneLine(s)
  {
  }

  /** A disposition line with `text` behind "form-data; ". */
  lemma DispositionOf(text: string, line: string)
    requires text != "" && FieldText(text) && !IsSpace(text[0])
    requires line == "Content-Disposition: form-data; " + text
    ensures DispositionText(line) == Some(text) && !StartsWithIgnoreCase(line, "Content-Type:")
  {
    hide OneLine, EqualIgnoreCase, StartsWithIgnoreCase, SkipSpaces, FieldText;
    FieldTextIsOneLine(text);
    var value := "form-data; " + text;
    assert line == "Content-Disposition:" + (" " + value);
    SamePrefix(line, "Content-Disposition:", " " + value);
    SkipBlank(value);
    assert value == "form-data;" + (" " + text);
    SamePrefix(value, "form-data;", " " + text);
    SkipBlank(text);
    NotContentType(line);
  }

  lemma DispositionRead(file: FileInfo)
    requires FieldText(file.name) && FieldText(file.filename)
    ensures DispositionText(DispositionLine(file)) == Some(ParamsText(file))
    ensures !StartsWithIgnoreCase(DispositionLine(file), "Content-Type:")
  {
    hide ParamsText, OneLine, StartsWithIgnoreCase, DispositionValue, DispositionLine, FieldText, DispositionText;
    ParamsOneLine(file);
    DispositionIs(file);
    ParamsHead(file);
    assert DispositionLine(file) == "Content-Disposition: form-data; " + ParamsText(file);
    DispositionOf(ParamsText(file), DispositionLine(file));
  }

  lemma ParamsHead(file: FileInfo)
    ensures ParamsText(file) != "" && ParamsText(file)[0] == 'n'
  {
  }

  lemma NotContentType(line: string)
    requires |line| > 13 && line[8] == 'D'
    ensures !StartsWithIgnoreCase(line, "Content-Type:")
  {
    assert ToLower(line[..13][8]) != ToLower("Content-Type:"[8]);
  }

  lemma DispositionSettable(file: FileInfo)
    requires FieldText(file.name) && FieldText(file.filename)
    ensures Settable(("Content-Disposition", DispositionValue(file)))
  {
    ParamsOneLine(file);
    DispositionIs(file);
    var head, text := "form-data; ", ParamsText(file);
    var v := head + text;
    ParamsHead(file);
    assert v[|v| - 1] == text[|text| - 1] == '"';
    forall i | 0 <= i < |v| ensures IsSpaceOrTab(v[i]) || IsFieldVchar(v[i]) {
      if i >= |head| { assert v[i] == text[i - |head|]; }
    }
  }

  lemma NameTextIsFieldText(name: string)
    ensures NameText(name) <==> FieldText(name) && ';' !in name && '=' !in name
  {
    if FieldText(name) && ';' !in name && '=' !in name {
      forall i | 0 <= i < |name| ensures NameChar(name[i]) { assert name[i] in name; }
    }
  }

  lemma DispositionLineRead(file: FileInfo)
    requires NameText(file.name) && NameText(file.filename)
    ensures WithLine(NO_FILE, DispositionLine(file)) == Some(FileInfo(file.name, file.filename, ""))
  {
    hide ParsedHeader, DispositionText, DispositionPairs, Split, WithParams, StartsWithIgnoreCase, DispositionValue,
         Settable;
    NameTextIsFieldText(file.name);
    NameTextIsFieldText(file.filename);
    DispositionIs(file);
    DispositionSettable(file);
    ParsedField(("Content-Disposition", DispositionValue(file)));
    DispositionRead(file);
    ParamsApplied(file);
  }

  lemma TypeSettable(file: FileInfo)
    requires IsFieldValue(file.contentType)
    ensures Settable(("Content-Type", file.contentType))
  {
  }

  lemma TypeLineRead(file: FileInfo, before: FileInfo)
    requires IsFieldValue(file.contentType) && file.contentType != ""
    ensures WithLine(before, TypeLine(file)) == Some(before.(contentType := file.contentType))
  {
    hide ParsedHeader, Trim, StartsWithIgnoreCase, Settable, DispositionText, WithParams;
    var t := file.contentType;
    TypeSettable(file);
    ParsedField(("Content-Type", t));
    assert TypeLine(file) == "Content-Type" + ": " + t;
    assert TypeLine(file) == "Content-Type:" + (" " + t);
    SamePrefix(TypeLine(file), "Content-Type:", " " + t);
    TrimOfFramed(t);
  }

  // ---------------------------------------------------------------------------
  // What is read back
  // ---------------------------------------------------------------------------

  lemma TrimInside(s: string)
    ensures |Trim(s)| <= |s| && forall c :: c in Trim(s) ==> c in s
    ensures Trim(s) != "" ==> !IsSpaceOrTab(Trim(s)[0]) && !IsSpaceOrTab(Trim(s)[|Trim(s)| - 1])
  {
    hide TrimLeft, TrimRight;
    var t := TrimRight(s);
    var r := TrimLeft(t);
    TailInside(t, |t| - |r|);
    if r != "" { assert r[|r| - 1] == t[|t| - 1]; }
  }

  lemma TailInside(t: string, n: nat)
    requires n <= |t|
    ensures forall c :: c in t[n..] ==> c in t
  {
  }

  /** The pieces hold no delimiter, and nothing that is not in the text. */
  lemma {:induction false} SplitInside(s: string, d: char, p: string)
    requires p in Split(s, d)
    ensures d !in p && |p| <= |s| && forall c :: c in p ==> c in s
    decreases |s|
  {
    hide Trim;
    var k := IndexOf(s, d);
    TrimInside(s[..k]);
    assert s[..|s|] == s;
    if k < |s| && p in Split(s[k + 1..], d) { SplitInside(s[k + 1..], d, p); }
  }

  lemma UnquotedInside(s: string)
    ensures |Unquoted(s)| <= |s| && forall c :: c in Unquoted(s) ==> c in s
  {
  }

  /** A value between two '=' or '"' of its piece. */
  lemma PairInside(kv: string, p: Pair)
    requires p in DispositionPair(kv)
    ensures DispositionPair(kv) == [p]
    ensures '=' !in p.1 && |p.1| <= |kv| && forall c :: c in p.1 ==> c in kv
  {
    hide Split, Unquoted;
    var pieces := Split(kv, '=');
    var last := if |pieces| > 1 then pieces[|pieces| - 1] else "";
    if |pieces| > 1 { SplitInside(kv, '=', last); }
    UnquotedInside(last);
  }

  /** Every pair comes from one of the pieces. */
  lemma {:induction false} PairsInside(pieces: seq<string>, cache: set<string>, p: Pair) returns (kv: string)
    requires p in DispositionPairs(pieces, cache)
    ensures kv in pieces && DispositionPair(kv) == [p]
  {
    hide DispositionPair;
    if pieces[0] !in cache && p in DispositionPair(pieces[0]) {
      kv := pieces[0];
      PairInside(kv, p);
    } else {
      kv := PairsInside(pieces[1..], if pieces[0] in cache then cache else cache + {pieces[0]}, p);
    }
  }

  lemma {:induction false} FirstValueInside(params: seq<Pair>, key: string)
    ensures match FirstValue(params, key)
            case None => true
            case Some(v) => (key, v) in params
  {
    if params != [] {
      assert params[0] == (params[0].0, params[0].1);
      FirstValueInside(params[1..], key);
    }
  }

  /** No value read from a disposition holds a ';' or a '='. */
  lemma ValuesArePlain(text: string, key: string)
    ensures match FirstValue(DispositionPairs(Split(text, ';'), {}), key)
            case None => true
            case Some(v) => ';' !in v && '=' !in v
  {
    hide Split, DispositionPairs, DispositionPair;
    var params := DispositionPairs(Split(text, ';'), {});
    FirstValueInside(params, key);
    match FirstValue(params, key)
    case None =>
    case Some(v) =>
      var kv := PairsInside(Split(text, ';'), {}, (key, v));
      PairInside(kv, (key, v));
      SplitInside(text, ';', kv);
  }

  /** The file name that a disposition with this text gives does not come from a `filename*`, unless that is shorter
      than the whole file name. */
  lemma ExtendedIsShorter(file: FileInfo)
    requires NameText(file.name) && file.filename != ""
    ensures match FirstValue(DispositionPairs(Split(ParamsText(file), ';'), {}), "filename*")
            case None => true
            case Some(v) => |v| <= |file.filename|
  {
    hide Split, DispositionPairs, DispositionPair, Param;
    var pieces := Split(ParamsText(file), ';');
    var params := DispositionPairs(pieces, {});
    FirstValueInside(params, "filename*");
    match FirstValue(params, "filename*")
    case None =>
    case Some(v) =>
      var p := ("filename*", v);
      var kv := PairsInside(pieces, {}, p);
      PairInside(kv, p);
      PieceOfFilename(file, kv);
      assert |"name"| == 4 && |"filename"| == 8 && |"filename*"| == 9;
  }

  predicate HasKey(kv: string, key: string) { |DispositionPair(kv)| == 1 && DispositionPair(kv)[0].0 == key }

  /** The first piece is the name; the second, the beginning of the file name, has the key "filename". */
  lemma PieceOfFilename(file: FileInfo, kv: string)
    requires NameText(file.name) && file.filename != "" && kv in Split(ParamsText(file), ';')
    ensures |kv| <= |file.filename| || HasKey(kv, "name") || HasKey(kv, "filename")
  {
    hide Split, Param, HasKey, ParamsText;
    var later := " " + FilenameParam(file);
    NoSemicolon("name", file.name);
    ParamTrimmed("name", file.name);
    NameHasKey(file.name);
    ParamsTextIs(file);
    SplitAt(NameParam(file), ';', later);
    if kv in Split(later, ';') { PieceOfLater(file.filename, kv); }
  }

  lemma NameHasKey(name: string)
    requires NameText(name)
    ensures HasKey(Param("name", name), "name")
  {
    hide DispositionPair, Param;
    ParamPair("name", name);
  }

  lemma PieceOfLater(f: string, kv: string)
    requires f != "" && kv in Split(" " + Param("filename", f), ';')
    ensures |kv| <= |f| || HasKey(kv, "filename")
  {
    hide Split, Param, HasKey, Trim, FilenameHead;
    var j := IndexOf(f, ';');
    var cut := if j < |f| then f[..j] else f + "\"";
    var first := FilenameHead() + cut;
    FilenameCut(f, j, cut);
    FirstFilenamePiece(cut);
    if j < |f| {
      var rest := f[j + 1..] + "\"";
      SplitAt(first, ';', rest);
      if kv in Split(rest, ';') { SplitInside(rest, ';', kv); }
    } else {
      SplitAt(first, ';', "");
    }
  }

  lemma ParamsTextIs(file: FileInfo)
    requires file.filename != ""
    ensures ParamsText(file) == NameParam(file) + [';'] + (" " + FilenameParam(file))
  {
    hide Param;
  }

  /** How the second parameter begins, with the blank before it. */
  function FilenameHead(): string { " filename=\"" }

  lemma FilenameHeadIs()
    ensures |FilenameHead()| == 11 && ';' !in FilenameHead()
    ensures FilenameHead()[..10] == " " + ("filename" + ['=']) && !IsSpaceOrTab(FilenameHead()[1])
    ensures !IsSpaceOrTab(FilenameHead()[10]) && FilenameHead()[0] == ' '
  {
  }

  lemma LaterIs(f: string)
    ensures " " + Param("filename", f) == FilenameHead() + (f + "\"")
  {
    Assoc("filename" + "=\"", f, "\"");
    Assoc(" ", "filename" + "=\"", f + "\"");
    assert " " + ("filename" + "=\"") == FilenameHead();
  }

  lemma NowhereIn(a: string, b: string, c: char)
    requires c !in a && c !in b
    ensures forall i :: 0 <= i < |a + b| ==> (a + b)[i] != c
  {
  }

  lemma CutAt(f: string, j: nat, tail: string)
    requires j < |f|
    ensures f + tail == f[..j] + ([f[j]] + (f[j + 1..] + tail))
  {
    Assoc([f[j]], f[j + 1..], tail);
    Assoc(f[..j], [f[j]] + f[j + 1..], tail);
    assert f == f[..j] + ([f[j]] + f[j + 1..]);
  }

  lemma CutText(head: string, f: string, j: nat)
    requires j < |f| && f[j] == ';'
    ensures head + (f + "\"") == (head + f[..j]) + [';'] + (f[j + 1..] + "\"")
  {
    var cut, tail := f[..j], f[j + 1..] + "\"";
    CutAt(f, j, "\"");
    Assoc(head, cut, [';'] + tail);
    Assoc(head + cut, [';'], tail);
  }

  lemma CutPlain(f: string, j: nat)
    requires j == IndexOf(f, ';')
    ensures ';' !in f[..j] && (j == |f| ==> ';' !in f + "\"")
  {
    hide IndexOf;
    assert f[..|f|] == f;
  }

  lemma CutBehind(head: string, f: string, j: nat, cut: string)
    requires j == IndexOf(f, ';') && cut == (if j < |f| then f[..j] else f + "\"") && ';' !in head
    ensures head + (f + "\"") == if j < |f| then (head + cut) + [';'] + (f[j + 1..] + "\"") else head + cut
    ensures forall i :: 0 <= i < |head + cut| ==> (head + cut)[i] != ';'
  {
    hide IndexOf;
    CutPlain(f, j);
    NowhereIn(head, cut, ';');
    if j < |f| { CutText(head, f, j); }
  }

  lemma FilenameCut(f: string, j: nat, cut: string)
    requires j == IndexOf(f, ';') && cut == if j < |f| then f[..j] else f + "\""
    ensures var first := FilenameHead() + cut;
            && " " + Param("filename", f) == (if j < |f| then first + [';'] + (f[j + 1..] + "\"") else first)
            && forall i :: 0 <= i < |first| ==> first[i] != ';'
  {
    hide IndexOf, Param, FilenameHead;
    LaterIs(f);
    FilenameHeadIs();
    CutBehind(FilenameHead(), f, j, cut);
  }

  /** A piece that begins like the file name's parameter has its key, wherever it was cut. */
  lemma FirstFilenamePiece(cut: string)
    ensures var p := Trim(FilenameHead() + cut); NonEmpty(p) == [p] && HasKey(p, "filename")
  {
    hide Split, Trim, Unquoted, FilenameHead;
    var rest := TrimmedTail(cut);
    SplitAt("filename", '=', rest);
    PlainStays("filename");
  }

  lemma TrimmedTail(cut: string) returns (rest: string)
    ensures Trim(FilenameHead() + cut) == "filename" + ['='] + rest
  {
    hide TrimLeft, TrimRight, FilenameHead;
    FilenameHeadIs();
    var s := FilenameHead() + cut;
    var t := TrimRight(s);
    assert !IsSpaceOrTab(s[10]) && !IsSpaceOrTab(s[1]) && s[..10] == FilenameHead()[..10];
    TrimLeftIs(t, 1);
    rest := t[10..];
    DropOne(t, "filename" + ['=']);
  }

  lemma DropOne(t: string, head: string)
    requires |t| > |head| && t[..|head| + 1] == " " + head
    ensures t[1..] == head + t[|head| + 1..]
  {
    assert t[1..|head| + 1] == t[..|head| + 1][1..] == head;
  }

  // ---------------------------------------------------------------------------
  // Which names come back
  // ---------------------------------------------------------------------------

  lemma FieldTextParts(a: string, b: string)
    ensures FieldText(a + b) ==> FieldText(a) && FieldText(b)
  {
    if FieldText(a + b) {
      forall i | 0 <= i < |a| ensures IsSpaceOrTab(a[i]) || IsFieldVchar(a[i]) { assert (a + b)[i] == a[i]; }
      forall i | 0 <= i < |b| ensures IsSpaceOrTab(b[i]) || IsFieldVchar(b[i]) { assert (a + b)[|a| + i] == b[i]; }
    }
  }

  lemma FieldCharsOf(file: FileInfo)
    ensures IsFieldValue(DispositionValue(file)) ==> FieldText(file.name) && FieldText(file.filename)
  {
    hide FieldText;
    if IsFieldValue(DispositionValue(file)) {
      ValueIsFieldText(DispositionValue(file));
      var head := "form-data; name=\"" + file.name + "\"";
      if file.filename == "" {
        EmptyFieldText();
      } else {
        FieldTextParts(head, "; filename=\"" + file.filename + "\"");
        FieldTextParts("; filename=\"" + file.filename, "\"");
        FieldTextParts("; filename=\"", file.filename);
      }
      FieldTextParts(head, "");
      assert head + "" == head;
      FieldTextParts("form-data; name=\"" + file.name, "\"");
      FieldTextParts("form-data; name=\"", file.name);
    }
  }

  lemma ValueIsFieldText(v: string)
    requires IsFieldValue(v)
    ensures FieldText(v)
  {
  }

  lemma EmptyFieldText()
    ensures FieldText("")
  {
  }

  /** A line is taken exactly when all its characters may stand in a field. */
  lemma DispositionParsedIff(file: FileInfo)
    ensures ParsedHeader(DispositionLine(file)).Some? <==> FieldText(file.name) && FieldText(file.filename)
  {
    hide ParsedHeader, IsFieldValue, Received, FieldText, DispositionLine;
    var v := DispositionValue(file);
    FieldCharsOf(file);
    if FieldText(file.name) && FieldText(file.filename) { DispositionSettable(file); }
    assert v[0] == 'f' && v[|v| - 1] == '"';
    ParsedFieldIff(("Content-Disposition", v));
    DispositionIs(file);
  }

  lemma ExtendedIsNot(v: string, f: string)
    requires |v| <= |f|
    ensures ExtendedName(v).Some? ==> Decoded(ExtendedName(v).value, false) != f
  {
    hide Decoded;
    if ExtendedName(v).Some? { DecodedShrinks(v[7..], false); }
  }

  /** Names and file names come back exactly when they are made of field characters other than ';' and '='. A quote is
      kept, a control character makes the parser reject the line, and the rest of the names is misread. */
  lemma NamesReadBackIff(file: FileInfo)
    ensures WithLine(NO_FILE, DispositionLine(file)) == Some(FileInfo(file.name, file.filename, ""))
            <==> NameText(file.name) && NameText(file.filename)
  {
    hide ParsedHeader, DispositionText, DispositionPairs, Split, FirstValue, StartsWithIgnoreCase, ExtendedName,
         Decoded, NameText, FieldText, DispositionLine, ParamsText;
    NameTextIsFieldText(file.name);
    NameTextIsFieldText(file.filename);
    DispositionParsedIff(file);
    if NameText(file.name) && NameText(file.filename) {
      DispositionLineRead(file);
    } else if FieldText(file.name) && FieldText(file.filename) {
      DispositionRead(file);
      MisreadParams(file);
    }
  }

  lemma MisreadParams(file: FileInfo)
    requires FieldText(file.name) && FieldText(file.filename) && !(NameText(file.name) && NameText(file.filename))
    ensures WithParams(NO_FILE, DispositionPairs(Split(ParamsText(file), ';'), {}))
            != Some(FileInfo(file.name, file.filename, ""))
  {
    hide DispositionPairs, Split, FirstValue, ExtendedName, Decoded, NameText, FieldText, ParamsText;
    NameTextIsFieldText(file.name);
    NameTextIsFieldText(file.filename);
    ValuesArePlain(ParamsText(file), "name");
    ValuesArePlain(ParamsText(file), "filename");
    if NameText(file.name) {
      EmptyNameText();
      ExtendedIsShorter(file);
      match FirstValue(DispositionPairs(Split(ParamsText(file), ';'), {}), "filename*")
      case None =>
      case Some(v) => ExtendedIsNot(v, file.filename);
    }
  }

  lemma EmptyNameText()
    ensures NameText("")
  {
  }

  /** A content type comes back exactly when it is a field value. */
  lemma TypeReadBackIff(file: FileInfo, before: FileInfo)
    requires file.contentType != ""
    ensures WithLine(before, TypeLine(file)) == Some(before.(contentType := file.contentType))
            <==> IsFieldValue(file.contentType)
  {
    hide ParsedHeader, Trim, StartsWithIgnoreCase, DispositionText, WithParams, IsFieldValue, Received;
    var t := file.contentType;
    if IsFieldValue(t) {
      TypeLineRead(file, before);
    } else {
      assert TypeLine(file) == "Content-Type" + ": " + t;
      assert TypeLine(file) == "Content-Type:" + (" " + t);
      SamePrefix(TypeLine(file), "Content-Type:", " " + t);
      TrimInside(" " + t);
      if Trim(" " + t) == t { ParsedFieldIff(("Content-Type", t)); }
    }
  }

  /** What the header lines of an item are read back as, if they are not rejected. */
  function Reread(file: FileInfo): Option<FileInfo> {
    match WithLine(NO_FILE, DispositionLine(file))
    case None => None
    case Some(named) => if file.contentType == "" then Some(named) else WithLine(named, TypeLine(file))
  }

  predicate Clean(file: FileInfo) {
    NameText(file.name) && NameText(file.filename) && IsFieldValue(file.contentType)
  }

  lemma RereadIff(file: FileInfo)
    ensures Reread(file) == Some(file) <==> Clean(file)
  {
    hide DispositionLine, TypeLine, NameText, IsFieldValue;
    NamesReadBackIff(file);
    EmptyValue();
    var first := WithLine(NO_FILE, DispositionLine(file));
    FirstLineType(file);
    if file.contentType != "" && first.Some? {
      TypeReadBackIff(file, first.value);
      SecondLineNames(file, first.value);
    }
  }

  lemma EmptyValue()
    ensures IsFieldValue("")
  {
  }

  lemma FirstLineType(file: FileInfo)
    ensures match WithLine(NO_FILE, DispositionLine(file))
            case None => true
            case Some(named) => named.contentType == ""
  {
    hide ParsedHeader, DispositionText, DispositionPairs, Split, FirstValue, ExtendedName, Decoded;
    DispositionIs(file);
    NotContentType(DispositionLine(file));
  }

  lemma SecondLineNames(file: FileInfo, before: FileInfo)
    ensures match WithLine(before, TypeLine(file))
            case None => true
            case Some(typed) => typed == before.(contentType := typed.contentType)
  {
    hide ParsedHeader, DispositionText, WithParams, Trim;
    assert TypeLine(file) == "Content-Type:" + (" " + file.contentType);
    SamePrefix(TypeLine(file), "Content-Type:", " " + file.contentType);
  }

  // ---------------------------------------------------------------------------
  // What any line can give
  // ---------------------------------------------------------------------------

  /** The name and content type of whatever a part header describes. */
  predicate CleanNames(file: FileInfo) { NameText(file.name) && IsFieldValue(file.contentType) }

  lemma PrefixColon(line: string, prefix: string)
    requires StartsWithIgnoreCase(line, prefix) && |prefix| > 0 && IndexOf(prefix, ':') == |prefix| - 1
    ensures IndexOf(line, ':') == |prefix| - 1
  {
    hide IndexOf;
    var n := |prefix| - 1;
    forall i | 0 <= i <= n ensures line[i] == ':' <==> i == n {
      assert line[..|prefix|][i] == line[i];
      assert ToLower(line[i]) == ToLower(prefix[i]);
      LowerColon(line[i]);
      LowerColon(prefix[i]);
    }
    IndexOfIs(line, ':', n);
  }

  lemma LowerColon(c: char)
    ensures ToLower(c) == ':' <==> c == ':'
  {
  }

  lemma IndexInPrefix(s: string, n: nat, c: char)
    requires IndexOf(s, c) < n <= |s|
    ensures IndexOf(s[..n], c) == IndexOf(s, c)
  {
    hide IndexOf;
    IndexOfIs(s[..n], c, IndexOf(s, c));
  }

  lemma FieldTextBetween(s: string, beg: nat, end: nat)
    requires beg <= end <= |s| && IsFieldValue(s[beg..end])
    requires forall i :: 0 <= i < |s| && !(beg <= i < end) ==> IsSpaceOrTab(s[i])
    ensures FieldText(s)
  {
    var v := s[beg..end];
    forall i | 0 <= i < |s| ensures IsSpaceOrTab(s[i]) || IsFieldVchar(s[i]) {
      if beg <= i < end { assert s[i] == v[i - beg]; }
    }
  }

  /** Behind its colon, a line that is taken holds only what may stand in a field. */
  lemma ParsedTail(line: string, prefix: string)
    requires ParsedHeader(line).Some? && StartsWithIgnoreCase(line, prefix)
    requires |prefix| > 0 && IndexOf(prefix, ':') == |prefix| - 1
    ensures FieldText(line[|prefix|..])
  {
    hide TrimLeft, TrimRight, IndexOf, IsFieldValue, Received, FieldText, StartsWithIgnoreCase;
    var n := |prefix|;
    PrefixColon(line, prefix);
    assert line[n - 1] == ':' && |TrimRight(line)| >= n;
    var text := TrimRight(line);
    IndexInPrefix(line, |text|, ':');
    ValueInside(line, |text|, n);
  }

  lemma ValueInside(line: string, end: nat, n: nat)
    requires n <= end <= |line| && IsFieldValue(TrimLeft(line[..end][n..]))
    requires forall i :: end <= i < |line| ==> IsSpaceOrTab(line[i])
    ensures FieldText(line[n..])
  {
    hide TrimLeft, IsFieldValue, FieldText;
    var s, tail := line[n..], line[..end][n..];
    var beg := |tail| - |TrimLeft(tail)|;
    assert tail == s[..end - n];
    assert s[beg..end - n] == tail[beg..];
    FieldTextBetween(s, beg, end - n);
  }

  lemma FieldTextInside(s: string, t: string)
    requires FieldText(s) && forall c :: c in t ==> c in s
    ensures FieldText(t)
  {
    forall i | 0 <= i < |t| ensures IsSpaceOrTab(t[i]) || IsFieldVchar(t[i]) {
      assert t[i] in s;
    }
  }

  lemma TrimmedIsValue(s: string)
    requires FieldText(s)
    ensures IsFieldValue(Trim(s))
  {
    hide Trim;
    TrimInside(s);
    FieldTextInside(s, Trim(s));
  }

  lemma {:induction false} SkipSpacesInside(s: string)
    ensures forall c :: c in SkipSpaces(s) ==> c in s
  {
    if s != "" { SkipSpacesInside(s[1..]); }
  }

  lemma DispositionTextInside(line: string)
    ensures match DispositionText(line)
            case None => true
            case Some(text) => |line| >= 20 && forall c :: c in text ==> c in line[20..]
  {
    hide SkipSpaces, StartsWithIgnoreCase, OneLine;
    PrefixFits(line, "Content-Disposition:");
    if StartsWithIgnoreCase(line, "Content-Disposition:") {
      var value := SkipSpaces(line[20..]);
      SkipSpacesInside(line[20..]);
      PrefixFits(value, "form-data;");
      if StartsWithIgnoreCase(value, "form-data;") {
        TailInside(value, 10);
        SkipSpacesInside(value[10..]);
      }
    }
  }

  lemma PrefixFits(line: string, prefix: string)
    ensures StartsWithIgnoreCase(line, prefix) ==> |line| >= |prefix|
  {
  }

  /** A value of a disposition parameter, from field text. */
  lemma ValuesAreNames(text: string, key: string)
    requires FieldText(text)
    ensures match FirstValue(DispositionPairs(Split(text, ';'), {}), key)
            case None => true
            case Some(v) => NameText(v)
  {
    hide Split, DispositionPairs, DispositionPair, NameText, FieldText;
    ValuesArePlain(text, key);
    var params := DispositionPairs(Split(text, ';'), {});
    FirstValueInside(params, key);
    match FirstValue(params, key)
    case None =>
    case Some(v) =>
      var kv := PairsInside(Split(text, ';'), {}, (key, v));
      PairInside(kv, (key, v));
      SplitInside(text, ';', kv);
      FieldTextInside(text, v);
      NameTextIsFieldText(v);
  }

  lemma TypePrefix()
    ensures |"Content-Type:"| == 13 && IndexOf("Content-Type:", ':') == 12
  {
    IndexOfIs("Content-Type:", ':', 12);
  }

  lemma DispositionPrefix()
    ensures |"Content-Disposition:"| == 20 && IndexOf("Content-Disposition:", ':') == 19
  {
    IndexOfIs("Content-Disposition:", ':', 19);
  }

  /** No header line that is taken, whatever it holds, leaves a name or content type with other characters. */
  lemma LineKeepsClean(file: FileInfo, line: string)
    requires CleanNames(file)
    ensures match WithLine(file, line)
            case None => true
            case Some(f) => CleanNames(f)
  {
    hide ParsedHeader, Split, DispositionPairs, FirstValue, Trim, NameText, IsFieldValue, StartsWithIgnoreCase,
         ExtendedName, Decoded, IndexOf, FieldText, SkipSpaces, OneLine;
    if ParsedHeader(line).Some? {
      if StartsWithIgnoreCase(line, "Content-Type:") {
        TypePrefix();
        PrefixFits(line, "Content-Type:");
        ParsedTail(line, "Content-Type:");
        TrimmedIsValue(line[13..]);
      } else if DispositionText(line).Some? {
        DispositionPrefix();
        ParsedTail(line, "Content-Disposition:");
        DispositionTextInside(line);
        var text := DispositionText(line).value;
        FieldTextInside(line[20..], text);
        ValuesAreNames(text, "name");
      }
    }
  }

  // ---------------------------------------------------------------------------
  // What other clients send
  // ---------------------------------------------------------------------------

  /** A parameter of a disposition, quoted or not. */
  datatype Parameter = Parameter(key: string, value: string, quoted: bool)

  function ParameterText(p: Parameter): string {
    p.key + ['='] + if p.quoted then "\"" + p.value + "\"" else p.value
  }

  /** An unquoted value is not empty, and has no blank at either end and no quote at both. */
  predicate IsParameter(p: Parameter) {
    && PlainParamKey(p.key) && NameText(p.value)
    && (!p.quoted ==> p.value != "" && !IsSpaceOrTab(p.value[0]) && p.value[0] != '"'
                      && !IsSpaceOrTab(p.value[|p.value| - 1]))
  }

  lemma NameHasNot(name: string)
    requires NameText(name)
    ensures '=' !in name && ';' !in name
  {
    NameTextIsFieldText(name);
  }

  lemma ValueStays(p: Parameter)
    requires IsParameter(p)
    ensures var v := if p.quoted then "\"" + p.value + "\"" else p.value;
            && NonEmpty(Trim(v)) == [v] && Unquoted(v) == p.value && '=' !in v
  {
    hide Trim, NameText;
    NameHasNot(p.value);
    if p.quoted { QuotedStays(p.value); } else { TrimOfFramed(p.value); }
  }

  lemma ParameterRead(p: Parameter)
    requires IsParameter(p)
    ensures DispositionPair(ParameterText(p)) == [(p.key, p.value)]
  {
    hide Split, Trim, Unquoted, NameText;
    var v := if p.quoted then "\"" + p.value + "\"" else p.value;
    ValueStays(p);
    SplitAt(p.key, '=', v);
    SplitAt(v, '=', "");
    PlainStays(p.key);
  }

  /** Of a parameter that is cut at more than one '=' the last piece counts. */
  lemma LastPieceCounts(key: string, middle: string, last: string)
    requires PlainParamKey(key) && '=' !in middle && '=' !in last
    requires last != "" && !IsSpaceOrTab(last[0]) && !IsSpaceOrTab(last[|last| - 1])
    ensures DispositionPair(key + ['='] + (middle + ['='] + last)) == [(key, Unquoted(last))]
  {
    hide Split, Trim, Unquoted;
    SplitAt(key, '=', middle + ['='] + last);
    SplitAt(middle, '=', last);
    SplitAt(last, '=', "");
    TrimOfFramed(last);
    PlainStays(key);
  }

  function PairsOf(ps: seq<Parameter>): seq<Pair> {
    if ps == [] then [] else [(ps[0].key, ps[0].value)] + PairsOf(ps[1..])
  }

  /** Each segment is a parameter, perhaps with blanks around it. */
  predicate AreSegments(segments: seq<string>, ps: seq<Parameter>) {
    && |segments| == |ps|
    && forall i :: 0 <= i < |ps| ==>
         IsParameter(ps[i]) && Trim(segments[i]) == ParameterText(ps[i]) && ';' !in segments[i]
  }

  /** The parameters without those whose text is in `seen` or went before. */
  function FirstParameters(ps: seq<Parameter>, seen: set<string>): seq<Parameter> {
    if ps == [] then []
    else if ParameterText(ps[0]) in seen then FirstParameters(ps[1..], seen)
    else [ps[0]] + FirstParameters(ps[1..], seen + {ParameterText(ps[0])})
  }

  lemma {:induction false} SegmentsRead(segments: seq<string>, ps: seq<Parameter>, cache: set<string>)
    requires AreSegments(segments, ps)
    ensures DispositionPairs(TrimmedNonEmpty(segments), cache) == PairsOf(FirstParameters(ps, cache))
  {
    hide Trim, DispositionPair, ParameterText, IsParameter;
    if ps != [] {
      var text := ParameterText(ps[0]);
      assert Trim(segments[0]) == text;
      ParameterRead(ps[0]);
      assert NonEmpty(text) == [text] by { ParameterNotEmpty(ps[0]); }
      var pieces := TrimmedNonEmpty(segments);
      assert pieces[0] == text && pieces[1..] == TrimmedNonEmpty(segments[1..]);
      var next := if text in cache then cache else cache + {text};
      SegmentsRead(segments[1..], ps[1..], next);
      var more := FirstParameters(ps[1..], next);
      assert ([ps[0]] + more)[1..] == more;
    }
  }

  lemma ParameterNotEmpty(p: Parameter)
    ensures ParameterText(p) != ""
  {
  }

  /** Any list of parameters, with blanks around them, is read as their keys and values, repetitions dropped. */
  lemma ParametersRead(segments: seq<string>, ps: seq<Parameter>)
    requires AreSegments(segments, ps)
    ensures DispositionPairs(Split(Join(segments, ';'), ';'), {}) == PairsOf(FirstParameters(ps, {}))
  {
    hide Split, Trim, DispositionPairs, ParameterText, IsParameter;
    forall s | s in segments ensures ';' !in s {
      var i :| 0 <= i < |segments| && segments[i] == s;
    }
    SplitJoined(segments, ';');
    SegmentsRead(segments, ps, {});
  }

  lemma SpacesSkipped(blanks: string, t: string)
    requires IsBlank(blanks) && (t != "" ==> !IsSpace(t[0]))
    ensures SkipSpaces(blanks + t) == t
  {
    if blanks == "" {
      assert blanks + t == t;
    } else {
      assert (blanks + t)[1..] == blanks[1..] + t;
      SpacesSkipped(blanks[1..], t);
    }
  }

  lemma AnyCasePrefix(head: string, prefix: string, rest: string)
    requires EqualIgnoreCase(head, prefix)
    ensures StartsWithIgnoreCase(head + rest, prefix) && (head + rest)[|prefix|..] == rest
    ensures IndexOf(prefix, ':') == |prefix| - 1 && |prefix| > 0 ==> IndexOf(head, ':') == |prefix| - 1
  {
    hide IndexOf;
    assert (head + rest)[..|prefix|] == head;
    if IndexOf(prefix, ':') == |prefix| - 1 && |prefix| > 0 {
      assert head[..|prefix|] == head;
      PrefixColon(head, prefix);
    }
  }

  lemma HeadIsKey(head: string)
    requires head != "" && IndexOf(head, ':') == |head| - 1
    ensures head == head[..|head| - 1] + ":" && ':' !in head[..|head| - 1]
  {
    hide IndexOf;
    ColonSplits(head, |head| - 1);
  }

  /** A content type, however its header name is written and with blanks around it. */
  lemma ForeignType(file: FileInfo, head: string, before: string, value: string, after: string)
    requires EqualIgnoreCase(head, "Content-Type:") && IsBlank(before) && IsBlank(after) && IsFieldValue(value)
    ensures WithLine(file, head + before + value + after) == Some(file.(contentType := value))
  {
    hide ParsedHeader, StartsWithIgnoreCase, EqualIgnoreCase, IndexOf, Trim, IsFieldValue, IsBlank;
    TypePrefix();
    CaseLength(head, "Content-Type:");
    var rest := before + value + after;
    AnyCasePrefix(head, "Content-Type:", rest);
    HeadIsKey(head);
    var key := head[..|head| - 1];
    var line := head + before + value + after;
    assert line == key + ":" + before + value + after;
    assert line == head + rest;
    FieldLineIsTaken(line, key, before, value, after);
    TrimmedValue(before, value, after);
  }

  lemma CaseLength(a: string, b: string)
    ensures EqualIgnoreCase(a, b) ==> |a| == |b|
  {
  }

  lemma TrimmedValue(before: string, value: string, after: string)
    requires IsBlank(before) && IsBlank(after) && IsFieldValue(value)
    ensures Trim(before + value + after) == value
  {
    hide TrimLeft, TrimRight;
    var s := before + value + after;
    if value == "" {
      TrimOfSpaces(s);
    } else {
      FieldValueIff(value);
      var n := |before + value|;
      assert s[n - 1] == value[|value| - 1];
      TrimRightIs(s, n);
      assert s[..n] == before + value;
      TrimLeftIs(before + value, |before|);
    }
  }

  /** A disposition, however its two fixed parts are written and with blanks between them: its parameters count. */
  lemma ForeignDisposition(file: FileInfo, head: string, before: string, kind: string, between: string, text: string)
    requires EqualIgnoreCase(head, "Content-Disposition:") && EqualIgnoreCase(kind, "form-data;")
    requires IsBlank(before) && IsBlank(between)
    requires FieldText(kind + between + text)
    requires text != "" && !IsSpace(text[0]) && !IsSpaceOrTab(text[|text| - 1])
    ensures WithLine(file, head + (before + (kind + (between + text))))
            == WithParams(file, DispositionPairs(Split(text, ';'), {}))
  {
    hide ParsedHeader, StartsWithIgnoreCase, EqualIgnoreCase, IndexOf, DispositionPairs, Split, WithParams, SkipSpaces,
         IsFieldValue, FieldText, IsBlank, OneLine;
    DispositionPrefix();
    CaseLength(head, "Content-Disposition:");
    CaseLength(kind, "form-data;");
    var value := kind + (between + text);
    var rest := before + value;
    var line := head + rest;
    AnyCasePrefix(head, "Content-Disposition:", rest);
    AnyCasePrefix(kind, "form-data;", between + text);
    KindStarts(kind);
    SpacesSkipped(before, value);
    SpacesSkipped(between, text);
    HeadIsKey(head);
    Assoc(kind, between, text);
    ValueOfText(value);
    var key := head[..|head| - 1];
    assert line == key + ":" + before + value + "" by { HeadJoins(head, key, before, value); }
    assert IsBlank("") by { NothingIsBlank(); }
    FieldLineIsTaken(line, key, before, value, "");
    FieldTextTail(kind + between, text);
    FieldTextIsOneLine(text);
    assert !StartsWithIgnoreCase(line, "Content-Type:") by { HeadIsNotType(head, rest); }
  }

  lemma NothingIsBlank()
    ensures IsBlank("")
  {
  }

  lemma FieldTextTail(a: string, b: string)
    requires FieldText(a + b)
    ensures FieldText(b)
  {
    FieldTextParts(a, b);
  }

  lemma HeadJoins(head: string, key: string, before: string, value: string)
    requires head == key + ":"
    ensures head + (before + value) == key + ":" + before + value + ""
  {
    Assoc(head, before, value);
  }

  lemma KindStarts(kind: string)
    requires EqualIgnoreCase(kind, "form-data;")
    ensures kind != "" && !IsSpace(kind[0]) && !IsSpaceOrTab(kind[0])
  {
    assert ToLower(kind[0]) == 'f';
  }

  lemma ValueOfText(value: string)
    requires FieldText(value) && value != "" && !IsSpaceOrTab(value[0]) && !IsSpaceOrTab(value[|value| - 1])
    ensures IsFieldValue(value)
  {
  }

  lemma HeadIsNotType(head: string, rest: string)
    requires EqualIgnoreCase(head, "Content-Disposition:")
    ensures !StartsWithIgnoreCase(head + rest, "Content-Type:")
  {
    var line := head + rest;
    assert ToLower(head[8]) == 'd' && line[..13][8] == head[8];
    assert "Content-Type:"[8] == 'T';
  }

  /** Without a name the line is rejected. */
  lemma NoName(file: FileInfo, params: seq<Pair>)
    requires forall i :: 0 <= i < |params| ==> params[i].0 != "name"
    ensures WithParams(file, params) == None
  {
    FirstValueInside(params, "name");
  }

  /** Any other line that is a header field changes nothing, a disposition of another kind included. */
  lemma OtherLine(file: FileInfo, line: string)
    requires ParsedHeader(line).Some? && !StartsWithIgnoreCase(line, "Content-Type:")
    requires DispositionText(line).None?
    ensures WithLine(file, line) == Some(file)
  {
  }

  /** `filename*` names the file, whatever `filename` says: a UTF-8 tag in any case, and the name percent-encoded. */
  lemma ExtendedNameWins(file: FileInfo, name: string, plain: Option<string>, tag: string, f: seq<byte>)
    requires f != [] && EqualIgnoreCase(tag, "UTF-8''")
    ensures var params := [("name", name)] + (if plain.Some? then [("filename", plain.value)] else [])
                          + [("filename*", tag + Encoded(f))];
            WithParams(file, params) == Some(FileInfo(name, f, file.contentType))
  {
    hide Encoded, Decoded, EqualIgnoreCase, ExtendedName, FirstValue;
    DecodeEncode(f, false);
    ExtendedText(tag, f);
    assert |"name"| == 4 && |"filename"| == 8 && |"filename*"| == 9;
    var value := tag + Encoded(f);
    if plain.Some? {
      ThreeParams(("name", name), ("filename", plain.value), ("filename*", value));
      assert [("name", name)] + [("filename", plain.value)] + [("filename*", value)]
          == [("name", name), ("filename", plain.value), ("filename*", value)];
    } else {
      TwoParams(("name", name), ("filename*", value));
      assert [("name", name)] + [] + [("filename*", value)] == [("name", name), ("filename*", value)];
    }
  }

  lemma ThreeParams(p: Pair, q: Pair, r: Pair)
    ensures forall key ::
              FirstValue([p, q, r], key) == if p.0 == key then Some(p.1) else FirstValue([q, r], key)
    ensures forall key ::
              FirstValue([q, r], key) == if q.0 == key then Some(q.1) else if r.0 == key then Some(r.1) else None
  {
    TwoParams(q, r);
    assert [p, q, r][1..] == [q, r];
  }

  lemma ExtendedText(tag: string, f: seq<byte>)
    requires f != [] && EqualIgnoreCase(tag, "UTF-8''")
    ensures ExtendedName(tag + Encoded(f)) == Some(Encoded(f))
  {
    hide Encoded, EqualIgnoreCase;
    CaseLength(tag, "UTF-8''");
    var value := tag + Encoded(f);
    assert value[..7] == tag && value[7..] == Encoded(f);
    EncodedIsOneLine(f);
  }

  lemma EncodedIsOneLine(f: seq<byte>)
    ensures OneLine(Encoded(f)) && (f != [] ==> Encoded(f) != "")
  {
    var _ := Encoded(f);
    forall i | 0 <= i < |Encoded(f)| ensures Encoded(f)[i] != '\r' && Encoded(f)[i] != '\n' {
      assert Encoded(f)[i] in Encoded(f);
    }
    if f != [] { assert |EncodedByte(f[0])| > 0; }
  }

  /** A `filename*` without the tag, or without text behind it, makes the line rejected. */
  lemma OtherCharset(file: FileInfo, params: seq<Pair>, value: string)
    requires FirstValue(params, "filename*") == Some(value)
    requires !StartsWithIgnoreCase(value, "UTF-8''") || |value| <= 7
    ensures WithParams(file, params) == None
  {
  }

  // ---------------------------------------------------------------------------
  // A name with a line end
  // ---------------------------------------------------------------------------

  /** The name "a", CRLF, "X: y". */
  const BROKEN_NAME := FileInfo("a\r\nX: y", "", "")

  lemma BrokenLines()
    ensures DispositionLine(BROKEN_NAME) == FirstHalf() + CRLF + SecondHalf()
  {
  }

  function FirstHalf(): string { "Content-Disposition: form-data; name=\"a" }

  function SecondHalf(): string { "X" + ": " + "y\"" }

  /** A name parameter whose closing quote is on another line. */
  function HalfParam(): string { "name" + ['='] + "\"a" }

  lemma HalfParamIs()
    ensures |HalfParam()| == 7 && HalfParam()[0] == 'n' && HalfParam()[6] == 'a' && FieldText(HalfParam())
    ensures forall i :: 0 <= i < |HalfParam()| ==> HalfParam()[i] != ';'
  {
  }

  lemma FirstHalfRead()
    ensures WithLine(NO_FILE, FirstHalf()) == Some(FileInfo("\"a", "", ""))
  {
    hide ParsedHeader, DispositionText, DispositionPairs, Split, WithParams, StartsWithIgnoreCase, HalfParam;
    HalfParamIs();
    FirstHalfParsed();
    DispositionOf(HalfParam(), FirstHalf());
    HalfParams();
  }

  lemma FirstHalfIs()
    ensures FirstHalf() == "Content-Disposition: form-data; " + HalfParam()
    ensures FirstHalf() == "Content-Disposition" + ": " + ("form-data; " + HalfParam())
    ensures IsFieldValue("form-data; " + HalfParam())
  {
    assert "name=\"a" == HalfParam();
  }

  lemma DispositionIsName()
    ensures IsFieldName("Content-Disposition")
  {
  }

  lemma FirstHalfParsed()
    ensures FirstHalf() == "Content-Disposition: form-data; " + HalfParam() && ParsedHeader(FirstHalf()).Some?
  {
    hide ParsedHeader, Received, FirstHalf, IsFieldName;
    var value := "form-data; " + HalfParam();
    DispositionIsName();
    FirstHalfIs();
    ParsedField(("Content-Disposition", value));
  }

  lemma HalfParams()
    ensures WithParams(NO_FILE, DispositionPairs(Split(HalfParam(), ';'), {})) == Some(FileInfo("\"a", "", ""))
  {
    hide Split, DispositionPairs, FirstValue, HalfParam, DispositionPair, Trim;
    HalfParamIs();
    TrimOfFramed(HalfParam());
    SplitAt(HalfParam(), ';', "");
    assert Split(HalfParam(), ';') == [HalfParam()];
    HalfPair();
    PairsOfPieces([HalfParam()]);
    assert DispositionPairs([HalfParam()], {}) == [("name", "\"a")];
    OneParam(("name", "\"a"));
    assert |"name"| == 4 && |"filename"| == 8 && |"filename*"| == 9;
  }

  lemma HalfPair()
    ensures DispositionPair(HalfParam()) == [("name", "\"a")]
  {
    hide Split, Trim;
    SplitAt("name", '=', "\"a");
    SplitAt("\"a", '=', "");
    TrimOfFramed("\"a");
    PlainStays("name");
  }

  lemma SecondHalfRead(file: FileInfo)
    ensures WithLine(file, SecondHalf()) == Some(file)
  {
    hide ParsedHeader, DispositionPairs, Split, WithParams;
    ParsedField(("X", "y\""));
    assert |SecondHalf()| == 5;
  }
}
