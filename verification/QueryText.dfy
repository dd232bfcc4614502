/** Splitting, query strings and their parser. */
module QueryText {
  import opened Bytes
  import opened PercentCoding

  // ---------------------------------------------------------------------------
  // split
  // ---------------------------------------------------------------------------

  function NonEmpty(s: string): seq<string> { if s == "" then [] else [s] }

  /** The trimmed, non-empty pieces of `s` between delimiters. */
  function Split(s: string, d: char): seq<string>
    decreases |s|
  {
    var k := IndexOf(s, d);
    if k == |s| then NonEmpty(Trim(s)) else NonEmpty(Trim(s[..k])) + Split(s[k + 1..], d)
  }

  lemma TrimOfSpaces(s: string)
    requires forall i :: 0 <= i < |s| ==> IsSpaceOrTab(s[i])
    ensures Trim(s) == ""
  {
    TrimRightIs(s, 0);
  }

  lemma TrimBetween(s: string, beg: nat, end: nat, left: nat, right: nat)
    requires beg <= end <= |s| && beg <= left <= |s| && right <= end
    requires forall i :: beg <= i < left ==> IsSpaceOrTab(s[i])
    requires forall i :: right <= i < end ==> IsSpaceOrTab(s[i])
    requires left < |s| ==> !IsSpaceOrTab(s[left])
    requires right > 0 ==> !IsSpaceOrTab(s[right - 1])
    ensures left < right ==> s[left..right] == Trim(s[beg..end])
    ensures left >= right ==> Trim(s[beg..end]) == ""
  {
    hide TrimLeft, TrimRight;
    var part := s[beg..end];
    if left < right {
      TrimRightIs(part, right - beg);
      assert part[..right - beg] == s[beg..right];
      TrimLeftIs(s[beg..right], left - beg);
      assert s[beg..right][left - beg..] == s[left..right];
    } else {
      TrimOfSpaces(part);
    }
  }

  /** `trim`: the bounds may cross, or leave `[beg, end)`, when there is nothing but blanks between them. */
  method TrimRange(s: string, beg: nat, end: nat) returns (left: nat, right: nat)
    requires beg <= end <= |s|
    ensures left < right ==> right <= |s| && s[left..right] == Trim(s[beg..end])
    ensures left >= right ==> Trim(s[beg..end]) == ""
  {
    left, right := beg, end;
    while left < |s| && IsSpaceOrTab(s[left])
      invariant beg <= left <= |s|
      invariant forall i :: beg <= i < left ==> IsSpaceOrTab(s[i])
    {
      left := left + 1;
    }
    while right > 0 && IsSpaceOrTab(s[right - 1])
      invariant right <= end
      invariant forall i :: right <= i < end ==> IsSpaceOrTab(s[i])
    {
      right := right - 1;
    }
    TrimBetween(s, beg, end, left, right);
  }

  lemma SplitFrom(s: string, d: char, beg: nat, i: nat)
    requires beg <= i <= |s| && (forall k :: beg <= k < i ==> s[k] != d)
    ensures i < |s| && s[i] == d ==> Split(s[beg..], d) == NonEmpty(Trim(s[beg..i])) + Split(s[i + 1..], d)
    ensures i == |s| ==> Split(s[beg..], d) == NonEmpty(Trim(s[beg..i]))
  {
    var part := s[beg..];
    if i == |s| || s[i] == d {
      IndexOfIs(part, d, i - beg);
      assert part[..i - beg] == s[beg..i];
      if i < |s| { assert part[i - beg + 1..] == s[i + 1..]; } else { assert part == s[beg..i]; }
    }
  }

  /** The callback of `split` on `s[beg..end]`: called on the trimmed piece unless that is empty. */
  method TrimmedPiece(s: string, beg: nat, end: nat) returns (piece: seq<string>)
    requires beg <= end <= |s|
    ensures piece == NonEmpty(Trim(s[beg..end]))
  {
    var left, right := TrimRange(s, beg, end);
    piece := if left < right then [s[left..right]] else [];
  }

  /** `split`, with the callback's arguments collected in order. */
  method SplitPieces(s: string, d: char) returns (pieces: seq<string>)
    ensures pieces == Split(s, d)
  {
    hide Split, Trim, IndexOf;
    pieces := [];
    var i, beg := 0, 0;
    assert s[0..] == s;
    while i < |s|
      invariant beg <= i <= |s|
      invariant forall k :: beg <= k < i ==> s[k] != d
      invariant pieces + Split(s[beg..], d) == Split(s, d)
    {
      if s[i] == d {
        SplitFrom(s, d, beg, i);
        var piece := TrimmedPiece(s, beg, i);
        Assoc(pieces, piece, Split(s[i + 1..], d));
        pieces := pieces + piece;
        beg := i + 1;
      }
      i := i + 1;
    }
    SplitFrom(s, d, beg, i);
    if i > 0 {
      var piece := TrimmedPiece(s, beg, i);
      pieces := pieces + piece;
    } else {
      TrimOfSpaces("");
      assert s[beg..i] == "";
    }
  }

  /** A text that splitting leaves in one piece. */
  predicate Solid(s: string, d: char) {
    s != "" && d !in s && !IsSpaceOrTab(s[0]) && !IsSpaceOrTab(s[|s| - 1])
  }

  lemma TrimOfSolid(s: string, d: char)
    requires Solid(s, d)
    ensures Trim(s) == s
  {
    TrimRightIs(s, |s|);
    TrimLeftIs(s, 0);
  }

  lemma SplitAt(s: string, d: char, rest: string)
    requires forall i :: 0 <= i < |s| ==> s[i] != d
    ensures Split(s + [d] + rest, d) == NonEmpty(Trim(s)) + Split(rest, d)
    ensures Split(s, d) == NonEmpty(Trim(s))
  {
    hide Trim;
    var text := s + [d] + rest;
    IndexOfIs(text, d, |s|);
    assert text[..|s|] == s && text[|s| + 1..] == rest;
    IndexOfIs(s, d, |s|);
  }

  lemma SplitHead(s: string, d: char, rest: string)
    requires Solid(s, d)
    ensures Split(s + [d] + rest, d) == [s] + Split(rest, d)
    ensures Split(s, d) == [s]
  {
    hide Split, Trim;
    SplitAt(s, d, rest);
    TrimOfSolid(s, d);
  }

  function Join(segments: seq<string>, d: char): string {
    if segments == [] then "" else if |segments| == 1 then segments[0] else segments[0] + [d] + Join(segments[1..], d)
  }

  function TrimmedNonEmpty(segments: seq<string>): seq<string> {
    if segments == [] then [] else NonEmpty(Trim(segments[0])) + TrimmedNonEmpty(segments[1..])
  }

  /** Splitting undoes joining, but for blanks around the segments and empty segments. */
  lemma {:induction false} SplitJoined(segments: seq<string>, d: char)
    requires forall s :: s in segments ==> d !in s
    ensures Split(Join(segments, d), d) == TrimmedNonEmpty(segments)
  {
    if segments == [] {
      TrimOfSpaces("");
    } else {
      hide Split, Trim;
      var s, later := segments[0], segments[1..];
      assert s in segments;
      SplitAt(s, d, Join(later, d));
      if later != [] { SplitJoined(later, d); } else { assert TrimmedNonEmpty(later) == []; }
    }
  }

  // ---------------------------------------------------------------------------
  // Params and the two query functions
  // ---------------------------------------------------------------------------

  type Pair = (string, string)

  /** A multimap: under each key, its values in insertion order. */
  type Params = map<string, seq<string>>

  function Values(params: Params, key: string): seq<string> {
    if key in params then params[key] else []
  }

  function Emplace(params: Params, p: Pair): Params { params[p.0 := Values(params, p.0) + [p.1]] }

  function EmplaceAll(params: Params, pairs: seq<Pair>): Params
    decreases |pairs|
  {
    if pairs == [] then params else EmplaceAll(Emplace(params, pairs[0]), pairs[1..])
  }

  /** `divide` at the first '=', decoded. */
  function DecodedPair(kv: string): Pair {
    var k := IndexOf(kv, '=');
    (Decoded(kv[..k], true), Decoded(if k < |kv| then kv[k + 1..] else "", true))
  }

  function ParsedPieces(pieces: seq<string>, cache: set<string>): seq<Pair> {
    if pieces == [] then []
    else if pieces[0] in cache then ParsedPieces(pieces[1..], cache)
    else
      (if IndexOf(pieces[0], '=') == 0 then [] else [DecodedPair(pieces[0])])
      + ParsedPieces(pieces[1..], cache + {pieces[0]})
  }

  function ParsedQuery(query: string): seq<Pair> { ParsedPieces(Split(query, '&'), {}) }

  lemma ParsedPiecesStep(pieces: seq<string>, i: nat, cache: set<string>)
    requires i < |pieces|
    ensures var later := ParsedPieces(pieces[i + 1..], cache + {pieces[i]});
            ParsedPieces(pieces[i..], cache) ==
            if pieces[i] in cache || IndexOf(pieces[i], '=') == 0 then later
            else [DecodedPair(pieces[i])] + later
  {
    if pieces[i] in cache { assert cache + {pieces[i]} == cache; }
    assert pieces[i..][1..] == pieces[i + 1..];
  }

  lemma ParsedPiecesEnd(params: Params, pieces: seq<string>, cache: set<string>)
    ensures EmplaceAll(params, ParsedPieces(pieces[|pieces|..], cache)) == params
  {
  }

  lemma EmplaceAllStep(params: Params, p: Pair, rest: seq<Pair>)
    ensures EmplaceAll(params, [p] + rest) == EmplaceAll(Emplace(params, p), rest)
  {
    assert ([p] + rest)[1..] == rest;
  }

  method DecodePair(kv: string) returns (p: Pair)
    ensures p == DecodedPair(kv)
  {
    var k := IndexOf(kv, '=');
    var key := DecodeUrl(kv[..k], true);
    var val := DecodeUrl(if k < |kv| then kv[k + 1..] else "", true);
    p := (key, val);
  }

  method ParseQueryText(query: string, params0: Params) returns (params: Params)
    ensures params == EmplaceAll(params0, ParsedQuery(query))
  {
    hide Split, ParsedPieces, EmplaceAll, DecodedPair, IndexOf;
    var cache: set<string> := {};
    params := params0;
    var pieces := SplitPieces(query, '&');
    assert pieces[0..] == pieces;
    for i := 0 to |pieces|
      invariant EmplaceAll(params, ParsedPieces(pieces[i..], cache)) == EmplaceAll(params0, ParsedQuery(query))
    {
      var kv := pieces[i];
      ParsedPiecesStep(pieces, i, cache);
      if kv in cache { assert cache + {kv} == cache; continue; }
      cache := cache + {kv};
      if IndexOf(kv, '=') > 0 {
        var p := DecodePair(kv);
        EmplaceAllStep(params, p, ParsedPieces(pieces[i + 1..], cache));
        params := Emplace(params, p);
      }
    }
    ParsedPiecesEnd(params, pieces, cache);
  }

  function Printed1(p: Pair): string { p.0 + "=" + Encoded(p.1) }

  function PrintedTail(p: seq<Pair>): string {
    if p == [] then "" else "&" + Printed1(p[0]) + PrintedTail(p[1..])
  }

  /** `p` in the multimap's iteration order. */
  function Printed(p: seq<Pair>): string {
    if p == [] then "" else Printed1(p[0]) + PrintedTail(p[1..])
  }

  lemma PrintedStep(query: string, sep: string, key: string, encoded: string, rest: string)
    ensures (query + sep + key + "=" + encoded) + rest == query + (sep + (key + "=" + encoded) + rest)
  {
  }

  method ParamsToQueryStr(p: seq<Pair>) returns (query: string)
    ensures query == Printed(p)
  {
    query := "";
    for i := 0 to |p|
      invariant i == 0 ==> query == ""
      invariant i > 0 ==> query + PrintedTail(p[i..]) == Printed(p)
    {
      assert p[i..][1..] == p[i + 1..];
      ghost var before := query;
      if i != 0 { query := query + "&"; } else { assert query == query + ""; }
      query := query + p[i].0;
      query := query + "=";
      var encoded := EncodeQueryParam(p[i].1);
      query := query + encoded;
      PrintedStep(before, if i != 0 then "&" else "", p[i].0, encoded, PrintedTail(p[i + 1..]));
    }
  }

  // ---------------------------------------------------------------------------
  // Round trip
  // ---------------------------------------------------------------------------

  /** The keys that survive: `params_to_query_str` writes them without encoding. */
  predicate KeySurvives(key: string) {
    key != "" && !IsSpaceOrTab(key[0]) && '&' !in key && '=' !in key && '+' !in key && EscapeFree(key)
  }

  predicate Plain(p: Pair) { KeySurvives(p.0) && AllBytes(p.1) }

  predicate PlainPairs(p: seq<Pair>) { forall x :: x in p ==> Plain(x) }

  /** `s` without later repetitions of an element, or elements of `seen`. */
  function FirstOccurrences<T(==)>(s: seq<T>, seen: set<T>): seq<T> {
    if s == [] then []
    else if s[0] in seen then FirstOccurrences(s[1..], seen)
    else [s[0]] + FirstOccurrences(s[1..], seen + {s[0]})
  }

  function ValuesUnder(p: seq<Pair>, key: string): seq<string> {
    if p == [] then [] else (if p[0].0 == key then [p[0].1] else []) + ValuesUnder(p[1..], key)
  }

  lemma EncodedIsPlain(s: string)
    ensures '&' !in Encoded(s) && '=' !in Encoded(s)
    ensures forall c :: c in Encoded(s) ==> !IsSpaceOrTab(c)
  {
    var _ := Encoded(s);
  }

  lemma PrintedKeyAt(key: string, encoded: string)
    ensures var kv := key + "=" + encoded;
            && kv[..|key|] == key && kv[|key|] == '=' && kv[|key| + 1..] == encoded
            && kv[|kv| - 1] == (if encoded == "" then '=' else encoded[|encoded| - 1])
            && (key != "" ==> kv[0] == key[0])
            && ('&' !in key && '&' !in encoded ==> '&' !in kv)
            && ('=' !in key ==> IndexOf(kv, '=') == |key|)
  {
    hide IndexOf;
    var kv := key + "=" + encoded;
    if '=' !in key {
      forall i | 0 <= i < |key| ensures kv[i] != '=' { assert kv[i] in key; }
      IndexOfIs(kv, '=', |key|);
    }
  }

  lemma PrintedPiece(p: Pair)
    requires Plain(p)
    ensures Solid(Printed1(p), '&')
    ensures IndexOf(Printed1(p), '=') == |p.0| > 0
    ensures DecodedPair(Printed1(p)) == p
  {
    hide Decoded, Encoded, IndexOf, EscapeFree;
    PrintedKeyAt(p.0, Encoded(p.1));
    EncodedIsPlain(p.1);
    DecodedIsIdentityIff(p.0, true);
    assert forall i :: 0 <= i < |p.1| ==> p.1[i] in p.1;
    DecodeEncode(p.1, true);
  }

  function Pieces(p: seq<Pair>): seq<string> {
    if p == [] then [] else [Printed1(p[0])] + Pieces(p[1..])
  }

  lemma PrintedSplit(p: seq<Pair>)
    requires p != []
    ensures |p| == 1 ==> Printed(p) == Printed1(p[0])
    ensures |p| > 1 ==> Printed(p) == Printed1(p[0]) + ['&'] + Printed(p[1..])
  {
    hide Printed1;
    var rest := p[1..];
    if rest != [] {
      Assoc(Printed1(p[0]), ['&'], Printed(rest));
      Assoc(['&'], Printed1(rest[0]), PrintedTail(rest[1..]));
    }
  }

  lemma {:induction false} SplitPrinted(p: seq<Pair>)
    requires PlainPairs(p)
    ensures Split(Printed(p), '&') == Pieces(p)
  {
    if p == [] {
      TrimOfSpaces("");
    } else {
      hide Split, Trim, Printed, Printed1;
      PrintedPiece(p[0]);
      PrintedSplit(p);
      SplitHead(Printed1(p[0]), '&', Printed(p[1..]));
      SplitPrinted(p[1..]);
    }
  }

  lemma {:induction false} ParsedPrintedPieces(p: seq<Pair>, seen: set<Pair>, cache: set<string>)
    requires PlainPairs(p)
    requires forall x: Pair :: Plain(x) ==> (Printed1(x) in cache <==> x in seen)
    ensures ParsedPieces(Pieces(p), cache) == FirstOccurrences(p, seen)
  {
    hide IndexOf, Printed1, DecodedPair;
    var pieces := Pieces(p);
    if p != [] {
      assert pieces[1..] == Pieces(p[1..]);
      PrintedPiece(p[0]);
      if p[0] in seen {
        ParsedPrintedPieces(p[1..], seen, cache);
      } else {
        forall x: Pair | Plain(x)
          ensures Printed1(x) in cache + {pieces[0]} <==> x in seen + {p[0]}
        {
          PrintedPiece(x);
        }
        ParsedPrintedPieces(p[1..], seen + {p[0]}, cache + {pieces[0]});
      }
    }
  }

  /** Printing and parsing keeps the pairs, in order, without the later repetitions. */
  lemma ParsePrinted(p: seq<Pair>)
    requires PlainPairs(p)
    ensures ParsedQuery(Printed(p)) == FirstOccurrences(p, {})
  {
    hide Split, Printed, ParsedPieces;
    SplitPrinted(p);
    ParsedPrintedPieces(p, {}, {});
  }

  lemma {:induction false} EmplaceAllValues(params: Params, pairs: seq<Pair>, key: string)
    ensures Values(EmplaceAll(params, pairs), key) == Values(params, key) + ValuesUnder(pairs, key)
    decreases pairs
  {
    if pairs != [] {
      EmplaceAllValues(Emplace(params, pairs[0]), pairs[1..], key);
    }
  }

  lemma {:induction false} FirstOccurrencesUnder(p: seq<Pair>, seen: set<Pair>, key: string, values: set<string>)
    requires forall v :: v in values <==> (key, v) in seen
    ensures ValuesUnder(FirstOccurrences(p, seen), key) == FirstOccurrences(ValuesUnder(p, key), values)
  {
    if p != [] {
      var mine := p[0].0 == key;
      assert mine ==> p[0] == (key, p[0].1);
      var later := ValuesUnder(p[1..], key);
      assert mine ==> ValuesUnder(p, key) == [p[0].1] + later && ([p[0].1] + later)[1..] == later;
      assert !mine ==> ValuesUnder(p, key) == later;
      if p[0] in seen {
        FirstOccurrencesUnder(p[1..], seen, key, values);
      } else {
        var values' := if mine then values + {p[0].1} else values;
        FirstOccurrencesUnder(p[1..], seen + {p[0]}, key, values');
        var rest := FirstOccurrences(p[1..], seen + {p[0]});
        assert FirstOccurrences(p, seen)[1..] == rest;
        assert ValuesUnder(FirstOccurrences(p, seen), key) == (if mine then [p[0].1] else []) + ValuesUnder(rest, key);
      }
    }
  }

  /** The multimap read back holds, under every key, the values that were under that key, in their order and
      without repetitions. */
  lemma QueryRoundTrip(p: seq<Pair>, key: string)
    requires PlainPairs(p)
    ensures Values(EmplaceAll(map[], ParsedQuery(Printed(p))), key) == FirstOccurrences(ValuesUnder(p, key), {})
  {
    hide EmplaceAll, ParsedQuery, Printed, FirstOccurrences, ValuesUnder;
    ParsePrinted(p);
    var kept := FirstOccurrences(p, {});
    EmplaceAllValues(map[], kept, key);
    FirstOccurrencesUnder(p, {}, key, {});
  }

  // Which keys survive.

  /** Trimming may only cut the key short. */
  lemma TrimKeyBound(key: string, encoded: string)
    ensures var t := Trim(key + "=" + encoded);
            IndexOf(t, '=') <= |key|
            && (IndexOf(t, '=') == |key| ==>
                  key <= t && '=' !in key && (key != "" ==> !IsSpaceOrTab(key[0])))
  {
    hide TrimLeft, TrimRight, IndexOf;
    var s := key + "=" + encoded;
    var n := |key|;
    assert s[n] == '=';
    var u := TrimRight(s);
    var t := TrimLeft(u);
    assert u[n] == '=';
    var m := |u| - |t|;
    assert t[n - m] == '=';
    if IndexOf(t, '=') == n {
      assert t == u;
      assert s[..n] == key && u[..n] == s[..n];
      forall i | 0 <= i < n ensures key[i] != '=' { assert t[i] == key[i]; }
    }
  }

  /** No piece of a printed pair has a longer key, and only a key that is left in one piece has the same. */
  lemma {:induction false} PieceKeyBound(key: string, encoded: string, piece: string)
    requires '&' !in encoded && piece in Split(key + "=" + encoded, '&')
    ensures IndexOf(piece, '=') <= |key|
    ensures IndexOf(piece, '=') == |key| ==>
              key <= piece && '&' !in key && '=' !in key && (key != "" ==> !IsSpaceOrTab(key[0]))
    decreases |key|
  {
    hide Trim, IndexOf;
    var s, j := key + "=" + encoded, IndexOf(key, '&');
    if j < |key| {
      assert s == key[..j] + ['&'] + (key[j + 1..] + "=" + encoded);
      SplitAt(key[..j], '&', key[j + 1..] + "=" + encoded);
      TrimShorter(key[..j]);
      if piece in Split(key[j + 1..] + "=" + encoded, '&') { PieceKeyBound(key[j + 1..], encoded, piece); }
    } else {
      forall i | 0 <= i < |s| ensures s[i] != '&' {
        if i > |key| { assert s[i] in encoded; }
      }
      SplitAt(s, '&', "");
      TrimKeyBound(key, encoded);
      assert '&' !in key;
    }
  }

  lemma TrimShorter(s: string)
    ensures |Trim(s)| <= |s|
  {
  }

  lemma {:induction false} ParsedFrom(pieces: seq<string>, cache: set<string>, p: Pair) returns (piece: string)
    requires p in ParsedPieces(pieces, cache)
    ensures piece in pieces && IndexOf(piece, '=') != 0 && DecodedPair(piece) == p
  {
    hide DecodedPair, IndexOf;
    var here := pieces[0] !in cache && IndexOf(pieces[0], '=') != 0 && DecodedPair(pieces[0]) == p;
    if here {
      piece := pieces[0];
    } else {
      piece := ParsedFrom(pieces[1..], if pieces[0] in cache then cache else cache + {pieces[0]}, p);
    }
  }

  /** A pair comes back exactly when its key is one that survives. */
  lemma PairReturnsIff(p: Pair)
    requires AllBytes(p.1)
    ensures ParsedQuery(Printed([p])) == [p] <==> KeySurvives(p.0)
  {
    hide Split, ParsedPieces, IndexOf, Decoded, Encoded, EscapeFree;
    if KeySurvives(p.0) {
      ParsePrinted([p]);
    }
    if ParsedQuery(Printed([p])) == [p] {
      assert p in ParsedQuery(Printed([p]));
      PrintedSplit([p]);
      var piece := ParsedFrom(Split(Printed1(p), '&'), {}, p);
      EncodedIsPlain(p.1);
      PieceKeyBound(p.0, Encoded(p.1), piece);
      var raw := piece[..IndexOf(piece, '=')];
      DecodedShrinks(raw, true);
      DecodedIsIdentityIff(raw, true);
      assert raw == p.0;
    }
  }

  // What other clients send.

  /** Form encoding of a value: a blank is a '+', everything else as `encode_query_param` has it. */
  function Form(value: seq<byte>): string {
    if value == [] then "" else (if value[0] == ' ' then "+" else EncodedByte(value[0])) + Form(value[1..])
  }

  lemma {:induction false} FormIsPlain(value: seq<byte>)
    ensures forall c :: c in Form(value) ==> c != '&' && c != '=' && !IsSpaceOrTab(c)
  {
    if value != [] {
      FormIsPlain(value[1..]);
      assert EncodedChars(EncodedByte(value[0]));
    }
  }

  lemma {:induction false} FormDecodes(value: seq<byte>)
    ensures Decoded(Form(value), true) == value
  {
    hide EncodedByte;
    if value != [] {
      FormDecodes(value[1..]);
      if value[0] == ' ' {
        PlusHead(Form(value[1..]));
      } else {
        DecodedHead(value[0], Form(value[1..]), true);
      }
      assert value == [value[0]] + value[1..];
    }
  }

  lemma PlusHead(rest: string)
    ensures Decoded("+" + rest, true) == " " + Decoded(rest, true)
  {
    assert ("+" + rest)[1..] == rest;
  }

  /** A pair is cut at its first '=': whatever follows, other '=' included, is the value, decoded. */
  lemma PairIsParsed(key: string, text: string)
    requires KeySurvives(key) && '&' !in text && (text != "" ==> !IsSpaceOrTab(text[|text| - 1]))
    ensures ParsedQuery(key + "=" + text) == [(key, Decoded(text, true))]
  {
    hide Split, IndexOf, Decoded, EscapeFree;
    var kv := key + "=" + text;
    PrintedKeyAt(key, text);
    SplitHead(kv, '&', "");
    DecodedIsIdentityIff(key, true);
    OnePiece(kv);
  }

  /** A pair whose value is form-encoded comes in as that pair, for every value. */
  lemma FormIsParsed(key: string, value: seq<byte>)
    requires KeySurvives(key)
    ensures ParsedQuery(key + "=" + Form(value)) == [(key, value)]
  {
    hide ParsedQuery, Form, Decoded, KeySurvives;
    FormIsPlain(value);
    FormDecodes(value);
    PairIsParsed(key, Form(value));
  }

  lemma OnePiece(kv: string)
    ensures ParsedPieces([kv], {}) == if IndexOf(kv, '=') == 0 then [] else [DecodedPair(kv)]
  {
    assert [kv][1..] == [];
  }

  /** A key alone comes in with an empty value. */
  lemma FlagIsParsed(key: string)
    requires KeySurvives(key) && !IsSpaceOrTab(key[|key| - 1])
    ensures ParsedQuery(key) == [(key, "")]
  {
    hide Split, IndexOf, EscapeFree;
    SplitHead(key, '&', "");
    DecodedIsIdentityIff(key, true);
    IndexOfIs(key, '=', |key|);
    OnePiece(key);
    assert key[..|key|] == key;
  }

  /** The key "+" is read back as a blank. */
  lemma PlusKeyChanges()
    ensures ParsedQuery(Printed([("+", "1")])) == [(" ", "1")]
  {
    hide Split, IndexOf, Encoded, Decoded;
    var p := ("+", "1");
    PrintedSplit([p]);
    EncodedIsPlain(p.1);
    PrintedKeyAt(p.0, Encoded(p.1));
    SplitHead(Printed1(p), '&', "");
    PlusDecodes();
    DecodeEncode(p.1, true);
    assert [Printed1(p)][1..] == [];
  }

  lemma PlusDecodes()
    ensures Decoded("+", true) == " "
  {
    assert "+"[1..] == "" && Decoded("", true) == "";
  }
}
