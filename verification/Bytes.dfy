/** Characters and text helpers shared by the codec models.
    A C++ `char` is a Dafny `char`; `byte` restricts it where the eight bits matter. */
module Bytes {
  type byte = c: char | c as int < 256 witness '\0'

  predicate AllBytes(s: string) { forall c :: c in s ==> c as int < 256 }

  datatype Option<+T> = None | Some(value: T)

  const CRLF := "\r\n"

  const SSIZE_MAX: nat := 0x7FFF_FFFF_FFFF_FFFF

  function Min(a: nat, b: nat): nat { if a < b then a else b }

  predicate Distinct<T(==)>(s: seq<T>) { forall i, j :: 0 <= i < j < |s| ==> s[i] != s[j] }

  predicate IsDigit(c: char) { '0' <= c <= '9' }

  predicate IsAlnum(c: char) { IsDigit(c) || 'A' <= c <= 'Z' || 'a' <= c <= 'z' }

  /** `isspace` */
  predicate IsSpace(c: char) { c == ' ' || 9 <= c as int <= 13 }

  function SkipSpaces(s: string): string {
    if s != "" && IsSpace(s[0]) then SkipSpaces(s[1..]) else s
  }

  predicate IsSpaceOrTab(c: char) { c == ' ' || c == '\t' }

  /** The 256-entry lower-casing table: ASCII and Latin-1 capitals. */
  function ToLower(c: char): char {
    var code := c as int;
    if 65 <= code <= 90 || (192 <= code <= 222 && code != 215) then (code + 32) as char else c
  }

  /** ASCII and Latin-1 capitals; the multiplication sign stands among the latter. */
  predicate IsCapital(c: char) { 'A' <= c <= 'Z' || ('\U{C0}' <= c <= '\U{DE}' && c != '\U{D7}') }

  /** Two characters are equal ignoring case exactly when they are the same, or a capital and its small letter. */
  lemma SameLetterIff(a: char, b: char)
    ensures ToLower(a) == ToLower(b)
            <==> a == b || (IsCapital(a) && b as int == a as int + 32) || (IsCapital(b) && a as int == b as int + 32)
  {
  }

  predicate EqualIgnoreCase(a: string, b: string) {
    |a| == |b| && forall i :: 0 <= i < |a| ==> ToLower(a[i]) == ToLower(b[i])
  }

  predicate StartsWithIgnoreCase(s: string, prefix: string) {
    |prefix| <= |s| && EqualIgnoreCase(s[..|prefix|], prefix)
  }

  /** Position of the first `c`, or `|s|`. */
  function IndexOf(s: string, c: char): (n: nat)
    ensures n <= |s|
    ensures forall i :: 0 <= i < n ==> s[i] != c
    ensures n < |s| ==> s[n] == c
  {
    if s == "" || s[0] == c then 0 else 1 + IndexOf(s[1..], c)
  }

  lemma IndexOfIs(s: string, c: char, n: nat)
    requires n <= |s| && (forall i :: 0 <= i < n ==> s[i] != c) && (n < |s| ==> s[n] == c)
    ensures IndexOf(s, c) == n
  {
  }

  /** `pat` occurs in `s` at position `p`. */
  predicate OccursAt(s: string, pat: string, p: nat) {
    p + |pat| <= |s| && s[p..p + |pat|] == pat
  }

  lemma OccursHead(s: string, pat: string, p: nat)
    requires pat != ""
    ensures OccursAt(s, pat, p) ==> p < |s| && s[p] == pat[0]
  {
    if OccursAt(s, pat, p) { assert s[p..p + |pat|][0] == s[p]; }
  }

  lemma OccursInTail(s: string, pat: string)
    requires s != ""
    ensures forall p: nat {:trigger OccursAt(s[1..], pat, p)} :: OccursAt(s[1..], pat, p) <==> OccursAt(s, pat, p + 1)
    ensures forall p {:trigger OccursAt(s, pat, p)} :: 0 < p ==> (OccursAt(s, pat, p) <==> OccursAt(s[1..], pat, p - 1))
  {
    forall p: nat ensures OccursAt(s[1..], pat, p) <==> OccursAt(s, pat, p + 1) {
      if p + |pat| < |s| { assert s[1..][p..p + |pat|] == s[p + 1..p + 1 + |pat|]; }
    }
    forall p | 0 < p ensures OccursAt(s, pat, p) <==> OccursAt(s[1..], pat, p - 1) {
      if p + |pat| <= |s| { assert s[1..][p - 1..p - 1 + |pat|] == s[p..p + |pat|]; }
    }
  }

  /** Position of the first occurrence of `pat`, or `|s|`. */
  function Find(s: string, pat: string): (n: nat)
    requires pat != ""
    ensures n <= |s|
    ensures n < |s| ==> OccursAt(s, pat, n)
    ensures forall p :: 0 <= p < n ==> !OccursAt(s, pat, p)
  {
    if OccursAt(s, pat, 0) || s == "" then 0
    else
      OccursInTail(s, pat);
      1 + Find(s[1..], pat)
  }

  lemma FindIs(s: string, pat: string, n: nat)
    requires pat != "" && n <= |s|
    requires forall p :: 0 <= p < n ==> !OccursAt(s, pat, p)
    requires n < |s| ==> OccursAt(s, pat, n)
    ensures Find(s, pat) == n
  {
    var _ := Find(s, pat);
  }

  lemma OccursInPrefix(w: string, b: string, pat: string, p: nat)
    ensures p + |pat| <= |w| ==> (OccursAt(w + b, pat, p) <==> OccursAt(w, pat, p))
  {
    if p + |pat| <= |w| { assert (w + b)[p..p + |pat|] == w[p..p + |pat|]; }
  }

  /** A line without CRLF ends at the CRLF behind it. */
  lemma FindLineEnd(line: string, rest: string)
    requires Find(line, CRLF) == |line|
    ensures Find(line + CRLF + rest, CRLF) == |line| < |line + CRLF + rest|
    ensures (line + CRLF + rest)[..|line|] == line && (line + CRLF + rest)[|line| + 2..] == rest
    ensures Find(line + "\r", CRLF) == |line| + 1
  {
    hide Find;
    var w := line + CRLF + rest;
    assert w == line + (CRLF + rest);
    forall p | 0 <= p < |line| ensures !OccursAt(w, CRLF, p) && !OccursAt(line + "\r", CRLF, p) {
      OccursInPrefix(line, CRLF + rest, CRLF, p);
      OccursInPrefix(line, "\r", CRLF, p);
      OccursSecond(w, p);
      OccursSecond(line + "\r", p);
    }
    assert w[|line|..|line| + 2] == CRLF;
    FindIs(w, CRLF, |line|);
    OccursSecond(line + "\r", |line|);
    FindIs(line + "\r", CRLF, |line| + 1);
  }

  lemma OccursSecond(w: string, p: nat)
    ensures OccursAt(w, CRLF, p) ==> p + 1 < |w| && w[p + 1] == '\n'
  {
    if OccursAt(w, CRLF, p) { assert w[p..p + 2][1] == w[p + 1]; }
  }

  /** The text without spaces and tabs at either end. */
  function TrimLeft(s: string): (r: string)
    ensures r != "" ==> !IsSpaceOrTab(r[0])
    ensures |r| <= |s| && r == s[|s| - |r|..]
    ensures forall i :: 0 <= i < |s| - |r| ==> IsSpaceOrTab(s[i])
  {
    if s != "" && IsSpaceOrTab(s[0]) then TrimLeft(s[1..]) else s
  }

  function TrimRight(s: string): (r: string)
    ensures r != "" ==> !IsSpaceOrTab(r[|r| - 1])
    ensures |r| <= |s| && r == s[..|r|]
    ensures forall i :: |r| <= i < |s| ==> IsSpaceOrTab(s[i])
  {
    if s != "" && IsSpaceOrTab(s[|s| - 1]) then TrimRight(s[..|s| - 1]) else s
  }

  function Trim(s: string): string { TrimLeft(TrimRight(s)) }

  lemma {:induction false} TrimLeftIs(s: string, n: nat)
    requires n <= |s| && (forall i :: 0 <= i < n ==> IsSpaceOrTab(s[i]))
    requires n < |s| ==> !IsSpaceOrTab(s[n])
    ensures TrimLeft(s) == s[n..]
  {
    if n > 0 { TrimLeftIs(s[1..], n - 1); }
  }

  lemma {:induction false} TrimRightIs(s: string, n: nat)
    requires n <= |s| && (forall i :: n <= i < |s| ==> IsSpaceOrTab(s[i]))
    requires n > 0 ==> !IsSpaceOrTab(s[n - 1])
    ensures TrimRight(s) == s[..n]
  {
    if n < |s| {
      TrimRightIs(s[..|s| - 1], n);
      assert s[..|s| - 1][..n] == s[..n];
    }
  }

  /** Concatenation of a list of pieces. */
  function Concat(pieces: seq<string>): string {
    if pieces == [] then "" else pieces[0] + Concat(pieces[1..])
  }

  lemma {:induction false} ConcatAppend(a: seq<string>, b: seq<string>)
    ensures Concat(a + b) == Concat(a) + Concat(b)
  {
    if a == [] {
      assert a + b == b;
    } else {
      assert (a + b)[1..] == a[1..] + b;
      ConcatAppend(a[1..], b);
    }
  }

  lemma Assoc<T>(a: seq<T>, b: seq<T>, c: seq<T>)
    ensures (a + b) + c == a + (b + c)
  {
  }

  lemma Advance<T>(s: seq<T>, i: nat)
    requires i < |s|
    ensures s[..i + 1] == s[..i] + [s[i]]
    ensures s[i..] == [s[i]] + s[i + 1..] && s[i..][1..] == s[i + 1..]
  {
  }

  lemma CancelPrefix<T>(prefix: seq<T>, a: seq<T>, b: seq<T>)
    ensures prefix + a == prefix + b <==> a == b
  {
    assert (prefix + a)[|prefix|..] == a && (prefix + b)[|prefix|..] == b;
  }
}
