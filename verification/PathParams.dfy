/** Route patterns with named parameters: the compiled matcher accepts exactly the substituted patterns. */
module PathParams {
  import opened Bytes

  const MARKER := "/:"
  const SEPARATOR := '/'

  // ---------------------------------------------------------------------------
  // What a pattern means
  // ---------------------------------------------------------------------------

  predicate HasParam(p: string) { Find(p, MARKER) < |p| }

  function NameStart(p: string): (n: nat)
    requires HasParam(p)
    ensures n <= |p|
  {
    Find(p, MARKER) + 2
  }

  function NameEnd(p: string): (n: nat)
    requires HasParam(p)
    ensures NameStart(p) <= n <= |p| && (n < |p| ==> p[n] == SEPARATOR)
  {
    NameStart(p) + IndexOf(p[NameStart(p)..], SEPARATOR)
  }

  /** The parameter names, from left to right. */
  function Names(p: string): seq<string>
    decreases |p|
  {
    if !HasParam(p) then [] else [p[NameStart(p)..NameEnd(p)]] + Names(p[NameEnd(p)..])
  }

  /** The pattern with its parameters, colon and name, replaced by `values` from left to right. */
  function Subst(p: string, values: seq<string>): string
    requires |values| == |Names(p)|
    decreases |p|
  {
    if !HasParam(p) then p
    else p[..Find(p, MARKER) + 1] + values[0] + Subst(p[NameEnd(p)..], values[1..])
  }

  /** Nothing but an optional separator follows the last parameter; `after` says one went before. */
  predicate EndsWithParam(p: string, after: bool)
    decreases |p|
  {
    if !HasParam(p) then after && (p == "" || p == "/") else EndsWithParam(p[NameEnd(p)..], true)
  }

  predicate EndsInSlash(p: string) { p != "" && p[|p| - 1] == SEPARATOR }

  predicate SlashFree(values: seq<string>) { forall v :: v in values ==> SEPARATOR !in v }

  /** `path` is `s`, or differs in one trailing separator where the pattern ends with a parameter. */
  predicate UpToSlash(p: string, after: bool, s: string, path: string) {
    path == s || (EndsWithParam(p, after) && if EndsInSlash(p) then path + "/" == s else path == s + "/")
  }

  predicate Accepts(p: string, after: bool, values: seq<string>, path: string) {
    |values| == |Names(p)| && SlashFree(values) && UpToSlash(p, after, Subst(p, values), path)
  }

  /** A pattern put together from texts and parameter names, with a text at the end. */
  function Pattern(parts: seq<(string, string)>, last: string): string {
    if parts == [] then last else parts[0].0 + MARKER + parts[0].1 + Pattern(parts[1..], last)
  }

  /** The path that has values in place of the names. */
  function PathOf(parts: seq<(string, string)>, values: seq<string>, last: string): string
    requires |values| == |parts|
  {
    if parts == [] then last else parts[0].0 + "/" + values[0] + PathOf(parts[1..], values[1..], last)
  }

  function NamesOf(parts: seq<(string, string)>): seq<string> {
    if parts == [] then [] else [parts[0].1] + NamesOf(parts[1..])
  }

  /** A text between parameters: it holds no marker and begins with a separator, if it is not at the beginning. */
  predicate IsText(text: string, first: bool) {
    Find(text, MARKER) == |text| && (first || text == "" || text[0] == SEPARATOR)
  }

  predicate AreParts(parts: seq<(string, string)>, last: string, first: bool) {
    && IsText(last, first && parts == [])
    && forall i :: 0 <= i < |parts| ==> IsText(parts[i].0, first && i == 0) && SEPARATOR !in parts[i].1
  }

  lemma PatternStarts(parts: seq<(string, string)>, last: string)
    requires AreParts(parts, last, false)
    ensures var p := Pattern(parts, last); p == "" || p[0] == SEPARATOR
  {
    hide Find;
    if parts != [] { assert IsText(parts[0].0, false); }
  }

  lemma MarkerSecond(w: string, p: nat)
    ensures OccursAt(w, MARKER, p) ==> p + 1 < |w| && w[p + 1] == ':'
  {
    if OccursAt(w, MARKER, p) { assert w[p..p + 2][1] == w[p + 1]; }
  }

  lemma MarkerFound(text: string, tail: string)
    requires Find(text, MARKER) == |text|
    ensures Find(text + (MARKER + tail), MARKER) == |text|
  {
    hide Find;
    var w := text + (MARKER + tail);
    forall i | 0 <= i < |text| ensures !OccursAt(w, MARKER, i) {
      OccursInPrefix(text, MARKER + tail, MARKER, i);
      MarkerSecond(w, i);
    }
    assert w[|text|..|text| + 2] == MARKER;
    FindIs(w, MARKER, |text|);
  }

  lemma MarkerSlices(text: string, name: string, rest: string)
    ensures var p := text + MARKER + name + rest;
            var n := |text| + 2;
            && p == text + (MARKER + (name + rest)) && p[n..] == name + rest && p[n..n + |name|] == name
            && p[n + |name|..] == rest && p[..|text| + 1] == text + "/"
  {
    Assoc(text + MARKER, name, rest);
    Assoc(text, MARKER, name + rest);
  }

  lemma NameAt(name: string, rest: string)
    requires SEPARATOR !in name && (rest == "" || rest[0] == SEPARATOR)
    ensures IndexOf(name + rest, SEPARATOR) == |name|
  {
    forall i | 0 <= i < |name| ensures (name + rest)[i] != SEPARATOR { assert (name + rest)[i] in name; }
    IndexOfIs(name + rest, SEPARATOR, |name|);
  }

  lemma MarkerAt(text: string, name: string, rest: string)
    requires Find(text, MARKER) == |text| && SEPARATOR !in name && (rest == "" || rest[0] == SEPARATOR)
    ensures var p := text + MARKER + name + rest;
            && HasParam(p) && Find(p, MARKER) == |text| && NameEnd(p) == |text| + 2 + |name|
            && p[NameStart(p)..NameEnd(p)] == name && p[NameEnd(p)..] == rest && p[..|text| + 1] == text + "/"
  {
    hide Find, IndexOf;
    MarkerSlices(text, name, rest);
    MarkerFound(text, name + rest);
    NameAt(name, rest);
  }

  /** The names of a pattern are those it was put together from, and substituting puts the values in their places. */
  lemma {:induction false} PartsOfPattern(parts: seq<(string, string)>, values: seq<string>, last: string, first: bool)
    requires AreParts(parts, last, first) && |values| == |parts|
    ensures Names(Pattern(parts, last)) == NamesOf(parts) && |NamesOf(parts)| == |parts|
    ensures Subst(Pattern(parts, last), values) == PathOf(parts, values, last)
    decreases |parts|
  {
    hide Find;
    if parts != [] {
      var (text, name) := parts[0];
      var later := parts[1..];
      assert IsText(text, first);
      assert AreParts(later, last, false) by {
        forall i | 0 <= i < |later| ensures IsText(later[i].0, false) && SEPARATOR !in later[i].1 {
          assert later[i] == parts[i + 1];
        }
      }
      PatternStarts(later, last);
      MarkerAt(text, name, Pattern(later, last));
      PartsOfPattern(later, values[1..], last, false);
    }
  }

  /** `std::string::find` from a position on; the length stands for `npos`. */
  function FindFrom(s: string, pat: string, from: nat): (n: nat)
    requires pat != "" && from <= |s|
    ensures from <= n <= |s| && (n < |s| ==> n + |pat| <= |s|)
  {
    from + Find(s[from..], pat)
  }

  function FindCharFrom(s: string, c: char, from: nat): (n: nat)
    requires from <= |s|
    ensures from <= n <= |s| && (n < |s| ==> s[n] == c)
  {
    from + IndexOf(s[from..], c)
  }

  // ---------------------------------------------------------------------------
  // The compiled form
  // ---------------------------------------------------------------------------

  /** The fragments of what is left of a pattern; after a parameter its separator belongs to no fragment. */
  function Fragments(p: string, skip: nat): (fs: seq<string>)
    requires skip <= 1 && (skip == 1 ==> p == "" || p[0] == SEPARATOR)
    ensures |Names(p)| <= |fs| <= |Names(p)| + 1
    decreases |p|
  {
    if HasParam(p) then [p[skip..Find(p, MARKER) + 1]] + Fragments(p[NameEnd(p)..], 1)
    else if skip < |p| then [p[skip..]] else []
  }

  /** The walk along what is left of a path, with the values captured. */
  function Walk(fs: seq<string>, names: nat, q: string, skip: nat): (r: Option<seq<string>>)
    ensures r.Some? && names <= |fs| ==> |r.value| == names
    decreases |fs|
  {
    if fs == [] then if skip >= |q| then Some([]) else None
    else
      var start := skip + |fs[0]|;
      if start > |q| || q[skip..start] != fs[0] then None
      else if names == 0 then Walk(fs[1..], 0, q, start)
      else
        var sep := start + IndexOf(q[start..], SEPARATOR);
        match Walk(fs[1..], names - 1, q[sep..], 1)
        case None => None
        case Some(values) => Some([q[start..sep]] + values)
  }

  predicate Aligned(p: string, q: string, skip: nat) {
    skip == 0 || (skip == 1 && (p == "" || p[0] == SEPARATOR) && (q == "" || q[0] == SEPARATOR))
  }

  lemma NoParam(p: string, skip: nat, q: string)
    requires Aligned(p, q, skip) && !HasParam(p)
    ensures Walk(Fragments(p, skip), |Names(p)|, q, skip) == if UpToSlash(p, skip == 1, p, q) then Some([]) else None
  {
    if skip < |p| {
      assert Fragments(p, skip) == [p[skip..]];
      var n := skip + |p[skip..]|;
      assert [p[skip..]][1..] == [];
      if |q| == |p| && q[skip..] == p[skip..] {
        assert q == q[..skip] + q[skip..] && p == p[..skip] + p[skip..];
      }
      if n <= |q| {
        assert q == p ==> q[skip..n] == p[skip..];
        assert |q| == n ==> q[skip..n] == q[skip..];
      }
    }
  }

  /** Splitting off the first parameter's value. */
  lemma SubstStep(p: string, skip: nat, values: seq<string>, q: string, v: string, rest: string)
    requires HasParam(p) && |values| == |Names(p)| && v == values[0]
    requires q == p[..Find(p, MARKER) + 1] + v + rest
    ensures UpToSlash(p, skip == 1, Subst(p, values), q)
            <==> UpToSlash(p[NameEnd(p)..], true, Subst(p[NameEnd(p)..], values[1..]), rest)
  {
    hide EndsWithParam, Names, EndsInSlash, Find;
    NamesTail(p);
    SubstUnfolds(p, values);
    var prefix := p[..Find(p, MARKER) + 1] + v;
    var tail := p[NameEnd(p)..];
    TailEnds(p, skip == 1);
    CancelPrefix(prefix, rest, Subst(tail, values[1..]));
    CancelPrefix(prefix, rest + "/", Subst(tail, values[1..]));
    CancelPrefix(prefix, rest, Subst(tail, values[1..]) + "/");
    Assoc(prefix, rest, "/");
    Assoc(prefix, Subst(tail, values[1..]), "/");
  }

  lemma TailEnds(p: string, after: bool)
    requires HasParam(p)
    ensures EndsInSlash(p) <==> EndsInSlash(p[NameEnd(p)..])
    ensures EndsWithParam(p, after) <==> EndsWithParam(p[NameEnd(p)..], true)
  {
    if NameEnd(p) == |p| {
      var n := NameStart(p);
      if n < |p| {
        assert p[n..][|p| - 1 - n] == p[|p| - 1];
      } else {
        assert p[|p| - 2..|p|] == MARKER;
      }
    }
  }

  lemma {:induction false} TailShape(p: string, values: seq<string>)
    requires |values| == |Names(p)| && p != "" && p[0] == SEPARATOR
    ensures Subst(p, values) != "" && Subst(p, values)[0] == SEPARATOR
  {
  }

  /** An accepted path is the text before the first parameter, its value, and a rest that starts with a separator. */
  lemma AcceptedParts(p: string, skip: nat, values: seq<string>, q: string) returns (rest: string)
    requires HasParam(p) && Accepts(p, skip == 1, values, q)
    ensures q == p[..Find(p, MARKER) + 1] + values[0] + rest
    ensures rest == "" || rest[0] == SEPARATOR
  {
    hide EndsWithParam, Accepts, Names, Subst, Find, HasParam;
    AcceptsIs(p, skip == 1, values, q);
    NamesTail(p);
    SubstUnfolds(p, values);
    var prefix := p[..Find(p, MARKER) + 1] + values[0];
    var tail := p[NameEnd(p)..];
    var s := Subst(tail, values[1..]);
    TailEnds(p, skip == 1);
    if tail != "" { TailShape(tail, values[1..]); }
    if q == Subst(p, values) {
      rest := s;
    } else if EndsInSlash(p) {
      rest := s[..|s| - 1];
      assert (q + "/")[..|q|] == q && (prefix + s)[..|q|] == prefix + rest;
    } else {
      rest := s + "/";
      Assoc(prefix, s, "/");
      if tail == "" { SubstNothing(tail, values[1..]); }
    }
    if tail == "" { SubstNothing(tail, values[1..]); }
  }

  lemma SubstNothing(p: string, values: seq<string>)
    requires p == "" && |values| == |Names(p)|
    ensures Subst(p, values) == ""
  {
  }

  lemma SubstUnfolds(p: string, values: seq<string>)
    requires HasParam(p) && |values| == |Names(p)|
    ensures |values| == 1 + |Names(p[NameEnd(p)..])|
    ensures Subst(p, values) == p[..Find(p, MARKER) + 1] + values[0] + Subst(p[NameEnd(p)..], values[1..])
  {
  }

  lemma NamesTail(p: string)
    requires HasParam(p)
    ensures |Names(p)| == 1 + |Names(p[NameEnd(p)..])|
  {
  }

  lemma AcceptsIs(p: string, after: bool, values: seq<string>, path: string)
    ensures Accepts(p, after, values, path) <==>
              |values| == |Names(p)| && SlashFree(values) && UpToSlash(p, after, Subst(p, values), path)
  {
  }

  lemma ValueTaken(prefix: string, v: string, rest: string)
    requires SEPARATOR !in v && (rest == "" || rest[0] == SEPARATOR)
    ensures IndexOf((prefix + v + rest)[|prefix|..], SEPARATOR) == |v|
    ensures (prefix + v + rest)[|prefix| + |v|..] == rest
    ensures (prefix + v + rest)[|prefix|..|prefix| + |v|] == v
    ensures (prefix + v + rest)[..|prefix|] == prefix
  {
    assert (prefix + v + rest)[|prefix|..] == v + rest;
    IndexOfIs(v + rest, SEPARATOR, |v|);
  }

  /** The first fragment and its capture, read off a path of the right form. */
  lemma FirstCapture(p: string, skip: nat, q: string)
    requires HasParam(p) && Aligned(p, q, skip)
    ensures var m := Find(p, MARKER) + 1;
            var fits := m <= |q| && q[skip..m] == p[skip..m];
            (fits <==> m <= |q| && q[..m] == p[..m])
  {
    var m := Find(p, MARKER) + 1;
    if m <= |q| {
      assert q[..m][skip..] == q[skip..m] && p[..m][skip..] == p[skip..m];
      assert q[..m] == q[..skip] + q[skip..m] && p[..m] == p[..skip] + p[skip..m];
    }
  }

  lemma FragmentsStep(p: string, skip: nat)
    requires HasParam(p) && Aligned(p, "", skip)
    ensures var fs := Fragments(p, skip);
            fs != [] && fs[0] == p[skip..Find(p, MARKER) + 1] && fs[1..] == Fragments(p[NameEnd(p)..], 1)
  {
  }

  lemma WalkHead(fs: seq<string>, names: nat, q: string, skip: nat)
    requires fs != [] && names > 0
    ensures var start := skip + |fs[0]|;
            if start > |q| || q[skip..start] != fs[0] then Walk(fs, names, q, skip) == None
            else
              var sep := start + IndexOf(q[start..], SEPARATOR);
              var more := Walk(fs[1..], names - 1, q[sep..], 1);
              Walk(fs, names, q, skip) == if more.None? then None else Some([q[start..sep]] + more.value)
  {
    hide IndexOf;
  }

  lemma WalkUnfolds(p: string, skip: nat, q: string)
    requires HasParam(p) && Aligned(p, q, skip)
    ensures var m := Find(p, MARKER) + 1;
            var w := Walk(Fragments(p, skip), |Names(p)|, q, skip);
            if m > |q| || q[skip..m] != p[skip..m] then w == None
            else
              var sep := m + IndexOf(q[m..], SEPARATOR);
              var tail := p[NameEnd(p)..];
              var more := Walk(Fragments(tail, 1), |Names(tail)|, q[sep..], 1);
              w == if more.None? then None else Some([q[m..sep]] + more.value)
  {
    hide IndexOf, Find, Names, Fragments, HasParam, NameEnd, Walk;
    FragmentsStep(p, skip);
    NamesTail(p);
    WalkHead(Fragments(p, skip), |Names(p)|, q, skip);
  }

  lemma SlashFreeParts(values: seq<string>)
    requires values != []
    ensures SlashFree(values) <==> SEPARATOR !in values[0] && SlashFree(values[1..])
  {
    if SEPARATOR !in values[0] && SlashFree(values[1..]) {
      forall v | v in values ensures SEPARATOR !in v {
        assert v == values[0] || v in values[1..];
      }
    }
  }

  lemma UpToSeparator(q: string, m: nat)
    requires m <= |q|
    ensures var sep := m + IndexOf(q[m..], SEPARATOR);
            && sep <= |q| && (q[sep..] == "" || q[sep..][0] == SEPARATOR) && SEPARATOR !in q[m..sep]
            && q == q[..m] + q[m..sep] + q[sep..]
  {
    var sep := m + IndexOf(q[m..], SEPARATOR);
    assert sep < |q| ==> q[sep] == q[m..][sep - m];
    forall c | c in q[m..sep] ensures c != SEPARATOR {
      var i :| 0 <= i < sep - m && q[m..sep][i] == c;
      assert q[m..][i] == c;
    }
  }

  /** Sound: what the walk captures, substituted, gives the path. */
  lemma {:induction false} WalkSound(p: string, skip: nat, q: string)
    requires Aligned(p, q, skip)
    ensures var w := Walk(Fragments(p, skip), |Names(p)|, q, skip);
            w.Some? ==> Accepts(p, skip == 1, w.value, q)
    decreases |p|
  {
    hide Walk, Fragments, UpToSlash, IndexOf, Find, SlashFree, Subst;
    if !HasParam(p) {
      NoParam(p, skip, q);
      NoValues(p);
    } else {
      WalkUnfolds(p, skip, q);
      FirstCapture(p, skip, q);
      var m := Find(p, MARKER) + 1;
      var w := Walk(Fragments(p, skip), |Names(p)|, q, skip);
      if w.Some? {
        var sep := m + IndexOf(q[m..], SEPARATOR);
        var tail := p[NameEnd(p)..];
        UpToSeparator(q, m);
        WalkSound(tail, 1, q[sep..]);
        NamesTail(p);
        SlashFreeParts(w.value);
        assert w.value[1..] == Walk(Fragments(tail, 1), |Names(tail)|, q[sep..], 1).value;
        SubstStep(p, skip, w.value, q, q[m..sep], q[sep..]);
      }
    }
  }

  lemma NoValues(p: string)
    requires !HasParam(p)
    ensures Names(p) == [] && SlashFree([]) && Subst(p, []) == p
  {
  }

  /** Complete: a path that is the pattern with `values` substituted is walked, and captures just `values`. */
  lemma {:induction false} WalkComplete(p: string, skip: nat, values: seq<string>, q: string)
    requires Aligned(p, q, skip) && Accepts(p, skip == 1, values, q)
    ensures Walk(Fragments(p, skip), |Names(p)|, q, skip) == Some(values)
    decreases |p|
  {
    hide Walk, Fragments, UpToSlash, IndexOf, Find, SlashFree, Subst;
    if !HasParam(p) {
      NoParam(p, skip, q);
      NoValues(p);
      assert values == [];
    } else {
      WalkUnfolds(p, skip, q);
      FirstCapture(p, skip, q);
      NamesTail(p);
      SlashFreeParts(values);
      var rest := AcceptedParts(p, skip, values, q);
      ValueTaken(p[..Find(p, MARKER) + 1], values[0], rest);
      SubstStep(p, skip, values, q, values[0], rest);
      WalkComplete(p[NameEnd(p)..], 1, values[1..], rest);
      assert [values[0]] + values[1..] == values;
    }
  }

  /** The walk from the start of a path, in terms of the pattern alone: at most one list of values fits, and it is
      the one captured. */
  lemma MatchIff(p: string, path: string, values: seq<string>)
    ensures Walk(Fragments(p, 0), |Names(p)|, path, 0) == Some(values) <==> Accepts(p, false, values, path)
  {
    hide Walk, Fragments, Accepts;
    var skip := 0;
    WalkSound(p, skip, path);
    if Accepts(p, skip == 1, values, path) { WalkComplete(p, skip, values, path); }
  }

  // ---------------------------------------------------------------------------
  // strncmp
  // ---------------------------------------------------------------------------

  function CharAt(s: string, i: nat): char { if i < |s| then s[i] else '\0' }

  /** `strncmp` finds no difference in the first `n` characters of two terminated strings. */
  predicate StrNCmpEqual(a: string, b: string, i: nat, n: nat)
    decreases n - i
  {
    i >= n || (CharAt(a, i) == CharAt(b, i) && (CharAt(a, i) == '\0' || StrNCmpEqual(a, b, i + 1, n)))
  }

  predicate NulFree(s: string) { '\0' !in s }

  lemma {:induction false} StrNCmpIsEquality(a: string, b: string, i: nat)
    requires NulFree(b) && i <= |b| <= |a|
    ensures StrNCmpEqual(a, b, i, |b|) <==> a[i..|b|] == b[i..]
    decreases |b| - i
  {
    if i < |b| {
      StrNCmpIsEquality(a, b, i + 1);
      assert a[i..|b|] == [a[i]] + a[i + 1..|b|] && b[i..] == [b[i]] + b[i + 1..];
      assert b[i] in b;
    }
  }

  lemma {:induction false} FragmentsNulFree(p: string, skip: nat)
    requires NulFree(p) && Aligned(p, "", skip)
    ensures forall f :: f in Fragments(p, skip) ==> NulFree(f)
    decreases |p|
  {
    if HasParam(p) {
      FragmentsStep(p, skip);
      FragmentsNulFree(p[NameEnd(p)..], 1);
    }
  }

  // ---------------------------------------------------------------------------
  // The matcher
  // ---------------------------------------------------------------------------

  /** Each name with its value; `emplace` keeps the first of a name. */
  function Captures(names: seq<string>, values: seq<string>): (m: map<string, string>)
    requires |names| == |values|
    ensures m.Keys == set n | n in names
  {
    if names == [] then map[]
    else
      var k := |names| - 1;
      var before := Captures(names[..k], values[..k]);
      assert names == names[..k] + [names[k]];
      if names[k] in before then before else before[names[k] := values[k]]
  }

  lemma {:induction false} CapturedAt(names: seq<string>, values: seq<string>, i: nat)
    requires i < |names| == |values| && Distinct(names)
    ensures Captures(names, values)[names[i]] == values[i]
  {
    var k := |names| - 1;
    if i < k {
      CapturedAt(names[..k], values[..k], i);
      assert names[..k][i] == names[i];
    } else {
      assert names[k] !in names[..k];
    }
  }

  lemma CapturesMore(names: seq<string>, values: seq<string>, name: string, value: string)
    requires |names| == |values|
    ensures Captures(names + [name], values + [value])
            == if name in names then Captures(names, values) else Captures(names, values)[name := value]
  {
    var ns, vs := names + [name], values + [value];
    assert ns[..|names|] == names && vs[..|names|] == values;
  }

  class Request {
    const path: string
    var pathParams: map<string, string>

    constructor (path: string)
      ensures this.path == path && pathParams == map[]
    {
      this.path, pathParams := path, map[];
    }
  }

  datatype Built = Built(matcher: PathParamsMatcher) | Duplicate(name: string)

  class PathParamsMatcher {
    const staticFragments: seq<string>
    const paramNames: seq<string>

    /** Compiled from `pattern`. */
    ghost predicate Valid(pattern: string) {
      staticFragments == Fragments(pattern, 0) && paramNames == Names(pattern) && Distinct(paramNames)
    }

    constructor (fragments: seq<string>, names: seq<string>)
      ensures staticFragments == fragments && paramNames == names
    {
      this.staticFragments, this.paramNames := fragments, names;
    }

    /** What is left of the pattern when the last parameter ended just before `lastParamEnd`. */
    static function Left(pattern: string, lastParamEnd: nat): string
      requires lastParamEnd <= |pattern| + 1
    {
      if lastParamEnd == 0 then pattern else pattern[lastParamEnd - 1..]
    }

    static function Skip(lastParamEnd: nat): nat { if lastParamEnd == 0 then 0 else 1 }

    static ghost predicate Compiling(pattern: string, lastParamEnd: nat, fragments: seq<string>, names: seq<string>) {
      lastParamEnd <= |pattern| + 1
      && var left := Left(pattern, lastParamEnd);
      Aligned(left, "", Skip(lastParamEnd))
      && fragments + Fragments(left, Skip(lastParamEnd)) == Fragments(pattern, 0)
      && names + Names(left) == Names(pattern)
    }

    static function From(lastParamEnd: nat): nat { if lastParamEnd == 0 then 0 else lastParamEnd - 1 }

    static lemma CompilingStep(pattern: string, lastParamEnd: nat, fragments: seq<string>, names: seq<string>,
                               markerPos: nat, sepPos: nat)
      requires Compiling(pattern, lastParamEnd, fragments, names)
      requires markerPos == FindFrom(pattern, MARKER, From(lastParamEnd)) < |pattern|
      requires sepPos == FindCharFrom(pattern, SEPARATOR, markerPos + 2)
      ensures lastParamEnd <= markerPos + 1
      ensures |names| < |Names(pattern)| && names + [pattern[markerPos + 2..sepPos]] == Names(pattern)[..|names| + 1]
      ensures Compiling(pattern, sepPos + 1, fragments + [pattern[lastParamEnd..markerPos + 1]],
                        names + [pattern[markerPos + 2..sepPos]])
    {
      hide Find, IndexOf, Fragments, Names;
      var from, left := From(lastParamEnd), Left(pattern, lastParamEnd);
      FragmentsStep(left, Skip(lastParamEnd));
      NamesStep(left);
      LeftStep(pattern, lastParamEnd, markerPos, sepPos);
      var fs := Fragments(left, Skip(lastParamEnd));
      assert fs == [fs[0]] + fs[1..];
      Assoc(fragments, [fs[0]], fs[1..]);
      Assoc(names, [Names(left)[0]], Names(left)[1..]);
    }

    static lemma LeftStep(pattern: string, lastParamEnd: nat, markerPos: nat, sepPos: nat)
      requires lastParamEnd <= |pattern| + 1
      requires markerPos == FindFrom(pattern, MARKER, From(lastParamEnd)) < |pattern|
      requires sepPos == FindCharFrom(pattern, SEPARATOR, markerPos + 2)
      ensures var left := Left(pattern, lastParamEnd);
              && HasParam(left) && lastParamEnd <= markerPos + 1
              && left[NameStart(left)..NameEnd(left)] == pattern[markerPos + 2..sepPos]
              && left[NameEnd(left)..] == pattern[sepPos..] == Left(pattern, sepPos + 1)
              && left[Skip(lastParamEnd)..Find(left, MARKER) + 1] == pattern[lastParamEnd..markerPos + 1]
              && Aligned(pattern[sepPos..], "", 1)
    {
      hide Find, IndexOf;
      var from, left := From(lastParamEnd), Left(pattern, lastParamEnd);
      assert left == pattern[from..];
      assert left[NameStart(left)..] == pattern[markerPos + 2..];
    }

    static lemma NamesStep(p: string)
      requires HasParam(p)
      ensures Names(p) == [p[NameStart(p)..NameEnd(p)]] + Names(p[NameEnd(p)..])
    {
    }

    static lemma CompilingEnds(pattern: string, lastParamEnd: nat, fragments: seq<string>, names: seq<string>)
      requires Compiling(pattern, lastParamEnd, fragments, names)
      requires FindFrom(pattern, MARKER, From(lastParamEnd)) == |pattern|
      ensures names == Names(pattern)
      ensures fragments + (if lastParamEnd < |pattern| then [pattern[lastParamEnd..]] else []) == Fragments(pattern, 0)
    {
      var left := Left(pattern, lastParamEnd);
      assert left == pattern[From(lastParamEnd)..];
      assert names + [] == names;
      if lastParamEnd < |pattern| {
        assert left[Skip(lastParamEnd)..] == pattern[lastParamEnd..];
      }
    }

    /** The constructor, which throws on a repeated name. */
    static method Construct(pattern: string) returns (r: Built)
      ensures r.Built? <==> Distinct(Names(pattern))
      ensures r.Built? ==> fresh(r.matcher) && r.matcher.Valid(pattern)
      ensures r.Duplicate? ==>
                exists k :: 0 <= k < |Names(pattern)| && Distinct(Names(pattern)[..k])
                            && r.name == Names(pattern)[k] && r.name in Names(pattern)[..k]
    {
      hide Compiling, FindFrom, FindCharFrom, Fragments, Names;
      var fragments, names := [], [];
      var lastParamEnd := 0;
      CompilingStarts(pattern);
      while true
        invariant lastParamEnd <= |pattern| + 1
        invariant Compiling(pattern, lastParamEnd, fragments, names)
        invariant Distinct(names)
        decreases |pattern| + 1 - lastParamEnd
      {
        var markerPos := FindFrom(pattern, MARKER, if lastParamEnd == 0 then lastParamEnd else lastParamEnd - 1);
        if markerPos == |pattern| { break; }
        var paramNameStart := markerPos + 2;
        var sepPos := FindCharFrom(pattern, SEPARATOR, paramNameStart);
        CompilingStep(pattern, lastParamEnd, fragments, names, markerPos, sepPos);
        fragments := fragments + [pattern[lastParamEnd..markerPos + 1]];
        var paramName := pattern[paramNameStart..sepPos];
        if paramName in names {
          Repeated(Names(pattern), names, paramName);
          return Duplicate(paramName);
        }
        names := names + [paramName];
        lastParamEnd := sepPos + 1;
      }
      CompilingEnds(pattern, lastParamEnd, fragments, names);
      if lastParamEnd < |pattern| {
        fragments := fragments + [pattern[lastParamEnd..]];
      }
      assert fragments + [] == fragments;
      var matcher := new PathParamsMatcher(fragments, names);
      return Built(matcher);
    }

    static lemma CompilingStarts(pattern: string)
      ensures Compiling(pattern, 0, [], [])
    {
    }

    static lemma Repeated(all: seq<string>, names: seq<string>, name: string)
      requires |names| < |all| && names + [name] == all[..|names| + 1] && name in names && Distinct(names)
      ensures !Distinct(all)
      ensures exists k :: 0 <= k < |all| && Distinct(all[..k]) && name == all[k] && name in all[..k]
    {
      var k := |names|;
      assert all[k] == (names + [name])[k] == name;
      assert all[..k] == (names + [name])[..k] == names;
      var i :| 0 <= i < |names| && names[i] == name;
      assert all[i] == all[..k][i] == all[k];
    }

    /** The rest of the walk, from `startingPos`, of which the part from `base` on still counts. */
    static ghost predicate Walking(fs: seq<string>, names: nat, path: string, i: nat, base: nat, startingPos: nat,
                                   values: seq<string>) {
      i <= |fs| && base <= startingPos && base <= |path|
      && |values| == (if i < names then i else names)
      && var more := Walk(fs[i..], names - |values|, path[base..], startingPos - base);
      Walk(fs, names, path, 0) == if more.None? then None else Some(values + more.value)
    }

    static lemma WalkingStarts(fs: seq<string>, names: nat, path: string)
      ensures Walking(fs, names, path, 0, 0, 0, [])
    {
      assert fs[0..] == fs && path[0..] == path;
      var w := Walk(fs, names, path, 0);
      assert w.Some? ==> [] + w.value == w.value;
    }

    static lemma WalkingFails(fs: seq<string>, names: nat, path: string, i: nat, base: nat, startingPos: nat,
                              values: seq<string>)
      requires Walking(fs, names, path, i, base, startingPos, values) && i < |fs|
      requires startingPos + |fs[i]| > |path| || path[startingPos..startingPos + |fs[i]|] != fs[i]
      ensures Walk(fs, names, path, 0) == None
    {
      var q, start := path[base..], startingPos - base + |fs[i]|;
      if start <= |q| { assert q[startingPos - base..start] == path[startingPos..startingPos + |fs[i]|]; }
    }

    static lemma WalkingPast(fs: seq<string>, names: nat, path: string, i: nat, base: nat, startingPos: nat,
                             values: seq<string>)
      requires Walking(fs, names, path, i, base, startingPos, values) && names <= i < |fs|
      requires startingPos + |fs[i]| <= |path| && path[startingPos..startingPos + |fs[i]|] == fs[i]
      ensures Walking(fs, names, path, i + 1, base, startingPos + |fs[i]|, values)
    {
      hide IndexOf;
      SliceInDrop(path, base, startingPos, startingPos + |fs[i]|);
      assert fs[i..][1..] == fs[i + 1..];
    }

    static lemma SliceInDrop(path: string, base: nat, from: nat, to: nat)
      requires base <= from <= to <= |path|
      ensures path[base..][from - base..to - base] == path[from..to]
    {
    }

    static lemma WalkingCapture(fs: seq<string>, names: nat, path: string, i: nat, base: nat, startingPos: nat,
                                values: seq<string>, sepPos: nat)
      requires Walking(fs, names, path, i, base, startingPos, values) && i < |fs| && i < names
      requires startingPos + |fs[i]| <= |path| && path[startingPos..startingPos + |fs[i]|] == fs[i]
      requires sepPos == FindCharFrom(path, SEPARATOR, startingPos + |fs[i]|)
      ensures Walking(fs, names, path, i + 1, sepPos, sepPos + 1, values + [path[startingPos + |fs[i]|..sepPos]])
    {
      hide IndexOf, Walking, Walk;
      CaptureOpens(fs, names, path, i, base, startingPos, values);
      var q, skip, next := path[base..], startingPos - base, startingPos + |fs[i]|;
      CaptureSlices(fs, path, i, base, startingPos, sepPos);
      WalkHead(fs[i..], names - i, q, skip);
      var more := Walk(fs[i + 1..], names - i - 1, path[sepPos..], 1);
      if more.Some? { Assoc(values, [path[next..sepPos]], more.value); }
      WalkingIs(fs, names, path, i + 1, sepPos, sepPos + 1, values + [path[next..sepPos]]);
    }

    static lemma CaptureSlices(fs: seq<string>, path: string, i: nat, base: nat, startingPos: nat, sepPos: nat)
      requires i < |fs| && base <= startingPos && base <= |path| && startingPos + |fs[i]| <= |path|
      requires sepPos == FindCharFrom(path, SEPARATOR, startingPos + |fs[i]|)
      ensures var q, start := path[base..], startingPos - base + |fs[i]|;
              && q[startingPos - base..start] == path[startingPos..startingPos + |fs[i]|]
              && start + IndexOf(q[start..], SEPARATOR) == sepPos - base
              && q[sepPos - base..] == path[sepPos..] && q[start..sepPos - base] == path[startingPos + |fs[i]|..sepPos]
              && fs[i..][1..] == fs[i + 1..]
    {
      hide IndexOf;
      var q, start := path[base..], startingPos - base + |fs[i]|;
      assert q[start..] == path[startingPos + |fs[i]|..];
    }

    static lemma CaptureOpens(fs: seq<string>, names: nat, path: string, i: nat, base: nat, startingPos: nat,
                              values: seq<string>)
      requires Walking(fs, names, path, i, base, startingPos, values) && i < |fs| && i < names
      ensures |values| == i && base <= startingPos && base <= |path|
      ensures var more := Walk(fs[i..], names - i, path[base..], startingPos - base);
              Walk(fs, names, path, 0) == if more.None? then None else Some(values + more.value)
    {
    }

    static lemma WalkingIs(fs: seq<string>, names: nat, path: string, i: nat, base: nat, startingPos: nat,
                           values: seq<string>)
      requires i <= |fs| && base <= startingPos && base <= |path| && i <= names && |values| == i
      requires var more := Walk(fs[i..], names - i, path[base..], startingPos - base);
               Walk(fs, names, path, 0) == if more.None? then None else Some(values + more.value)
      ensures Walking(fs, names, path, i, base, startingPos, values)
    {
    }

    static lemma WalkingEnds(fs: seq<string>, names: nat, path: string, base: nat, startingPos: nat,
                             values: seq<string>)
      requires Walking(fs, names, path, |fs|, base, startingPos, values)
      ensures Walk(fs, names, path, 0) == if startingPos >= |path| then Some(values) else None
    {
      assert values + [] == values;
    }

    /** The walk along the path of `request`, capturing as it goes. */
    method WalkPath(request: Request) returns (ok: bool, ghost values: seq<string>)
      requires |paramNames| <= |staticFragments| && forall f :: f in staticFragments ==> NulFree(f)
      modifies request
      ensures Walk(staticFragments, |paramNames|, request.path, 0) == if ok then Some(values) else None
      ensures ok ==> |values| == |paramNames| && request.pathParams == Captures(paramNames, values)
    {
      hide Walking, FindCharFrom, Walk, StrNCmpEqual, Captures;
      var path, fs, names := request.path, staticFragments, paramNames;
      request.pathParams := map[];
      var startingPos: nat := 0;
      ghost var base: nat := 0;
      values := [];
      WalkingStarts(fs, |names|, path);
      NothingCaptured(names);
      for i := 0 to |fs|
        invariant Walking(fs, |names|, path, i, base, startingPos, values)
        invariant |values| == if i < |names| then i else |names|
        invariant request.pathParams == Captures(names[..|values|], values)
      {
        var fragment := fs[i];
        if startingPos + |fragment| > |path| {
          WalkingFails(fs, |names|, path, i, base, startingPos, values);
          return false, values;
        }
        StrNCmpIsEquality(path[startingPos..], fragment, 0);
        FromStart(path, startingPos, fragment);
        if !StrNCmpEqual(path[startingPos..], fragment, 0, |fragment|) {
          WalkingFails(fs, |names|, path, i, base, startingPos, values);
          return false, values;
        }
        ghost var before := startingPos;
        startingPos := startingPos + |fragment|;
        if i >= |names| {
          WalkingPast(fs, |names|, path, i, base, before, values);
          continue;
        }
        var sepPos := FindCharFrom(path, SEPARATOR, startingPos);
        WalkingCapture(fs, |names|, path, i, base, before, values, sepPos);
        var value := path[startingPos..sepPos];
        CapturesMore(names[..i], values, names[i], value);
        Advance(names, i);
        if names[i] !in request.pathParams {
          request.pathParams := request.pathParams[names[i] := value];
        }
        values := values + [value];
        base := sepPos;
        startingPos := sepPos + 1;
      }
      WalkingEnds(fs, |names|, path, base, startingPos, values);
      assert names[..|names|] == names;
      return startingPos >= |path|, values;
    }

    static lemma NothingCaptured(names: seq<string>)
      ensures Captures(names[..0], []) == map[]
    {
    }

    /** Accepts exactly the paths that are the pattern with values substituted; the captures are those values. */
    method Match(request: Request, ghost pattern: string) returns (ok: bool)
      requires Valid(pattern) && NulFree(pattern)
      modifies request
      ensures ok <==> exists values :: Accepts(pattern, false, values, request.path)
      ensures forall values :: Accepts(pattern, false, values, request.path) ==>
                request.pathParams == Captures(Names(pattern), values)
    {
      hide Fragments, Names, Walk, Accepts, Captures;
      FragmentsNulFree(pattern, 0);
      FragmentCount(pattern);
      ghost var values: seq<string>;
      ok, values := WalkPath(request);
      if ok {
        MatchIff(pattern, request.path, values);
        OnlyMatch(pattern, request.path, values);
      } else {
        NoMatch(pattern, request.path);
      }
    }

    static lemma FromStart(path: string, at: nat, fragment: string)
      requires at + |fragment| <= |path|
      ensures path[at..][0..|fragment|] == path[at..at + |fragment|] && fragment[0..] == fragment
    {
    }

    static lemma FragmentCount(pattern: string)
      ensures |Names(pattern)| <= |Fragments(pattern, 0)|
    {
    }

    static lemma NoMatch(pattern: string, path: string)
      requires Walk(Fragments(pattern, 0), |Names(pattern)|, path, 0) == None
      ensures forall values :: !Accepts(pattern, false, values, path)
    {
      forall values ensures !Accepts(pattern, false, values, path) { MatchIff(pattern, path, values); }
    }

    static lemma OnlyMatch(pattern: string, path: string, captured: seq<string>)
      requires Walk(Fragments(pattern, 0), |Names(pattern)|, path, 0) == Some(captured)
      ensures forall values :: Accepts(pattern, false, values, path) ==> values == captured
    {
      forall values | Accepts(pattern, false, values, path) ensures values == captured {
        MatchIff(pattern, path, values);
      }
    }
  }
}
