/** Range requests: `range_error` normalises the parsed ranges in place and refuses what is not acceptable. */
module Ranges {
  import opened Bytes

  /** A pair of `ssize_t`; -1 stands for a missing position. */
  datatype Range = Range(first: int, last: int)

  const CPPHTTPLIB_RANGE_MAX_COUNT := 1024

  // ---------------------------------------------------------------------------
  // What a range means
  // ---------------------------------------------------------------------------

  /** Byte `p` of a content of `len` bytes is asked for (section 14.1.2 of RFC 9110); without positions all are. */
  predicate Asks(r: Range, len: nat, p: int) {
    && 0 <= p < len
    && (r.first == -1 && r.last != -1 ==> len - r.last <= p)
    && (r.first != -1 ==> r.first <= p && (r.last == -1 || p <= r.last))
  }

  /** What the header parser lets through, and a range without positions. */
  predicate Parsed(r: Range) {
    -1 <= r.first && -1 <= r.last && (r.first != -1 && r.last != -1 ==> r.first <= r.last)
  }

  predicate Within(r: Range, len: int) { 0 <= r.first <= r.last <= len - 1 }

  function Normalise(r: Range, len: int): Range {
    if r.first == -1 then if r.last == -1 then Range(0, len - 1) else Range(len - r.last, len - 1)
    else Range(r.first, if r.last == -1 || r.last >= len then len - 1 else r.last)
  }

  function Normalised(rs: seq<Range>, len: int): (ns: seq<Range>)
    ensures |ns| == |rs|
    ensures forall i :: 0 <= i < |rs| ==> ns[i] == Normalise(rs[i], len)
  {
    if rs == [] then [] else [Normalise(rs[0], len)] + Normalised(rs[1..], len)
  }

  /** A normalised range is kept exactly when it asks for something and is not a suffix longer than the content, and
      then it holds exactly the positions asked for. */
  lemma NormaliseIsWhatIsAsked(r: Range, len: nat)
    requires Parsed(r)
    ensures Within(Normalise(r, len), len) <==> (exists p :: Asks(r, len, p)) && (r.first == -1 ==> r.last <= len)
    ensures Within(Normalise(r, len), len) ==>
              forall p :: Holds(Normalise(r, len), p) <==> Asks(r, len, p)
  {
    var n := Normalise(r, len);
    if Within(n, len) { assert Asks(r, len, n.first); }
  }

  // ---------------------------------------------------------------------------
  // What is acceptable
  // ---------------------------------------------------------------------------

  predicate Holds(r: Range, p: int) { r.first <= p <= r.last }

  ghost predicate ShareAByte(a: Range, b: Range) { exists p :: Holds(a, p) && Holds(b, p) }

  ghost predicate OverlapsEarlier(rs: seq<Range>, i: nat)
    requires i < |rs|
  {
    exists j :: 0 <= j < i && ShareAByte(rs[j], rs[i])
  }

  /** Among the first `n`, those that overlap an earlier one. */
  ghost function Overlapping(rs: seq<Range>, n: nat): set<nat>
    requires n <= |rs|
  {
    set i: nat | i < n && OverlapsEarlier(rs, i)
  }

  predicate AllWithin(rs: seq<Range>, len: int) { forall r :: r in rs ==> Within(r, len) }

  predicate Ascending(rs: seq<Range>) { forall i, j :: 0 <= i < j < |rs| ==> rs[i].first < rs[j].first }

  ghost predicate Acceptable(rs: seq<Range>, len: int) {
    |rs| <= CPPHTTPLIB_RANGE_MAX_COUNT && AllWithin(rs, len) && Ascending(rs) && |Overlapping(rs, |rs|)| <= 2
  }

  function Length(r: Range): int { r.last - r.first + 1 }

  /** Bytes of the first `n` ranges. */
  function TotalLength(rs: seq<Range>, n: nat): int
    requires n <= |rs|
  {
    if n == 0 then 0 else TotalLength(rs, n - 1) + Length(rs[n - 1])
  }

  // ---------------------------------------------------------------------------
  // The scan
  // ---------------------------------------------------------------------------

  /** The first `n` ranges are acceptable, and the scan's variables describe them. */
  ghost predicate Scanned(rs: seq<Range>, n: nat, len: int, prevFirst: int, prevLast: int, overlapping: nat) {
    n <= |rs|
    && (forall k :: 0 <= k < n ==> Within(rs[k], len) && rs[k].last <= prevLast && rs[k].first <= prevFirst)
    && (forall i, j :: 0 <= i < j < n ==> rs[i].first < rs[j].first)
    && (if n == 0 then prevFirst == prevLast == -1
        else prevFirst == rs[n - 1].first && exists k :: 0 <= k < n && rs[k].last == prevLast)
    && overlapping == |Overlapping(rs, n)| <= 2
  }

  /** With ascending first positions, a range overlaps an earlier one exactly when it starts within what they reach. */
  lemma OverlapByReach(rs: seq<Range>, n: nat, len: int, prevFirst: int, prevLast: int, overlapping: nat)
    requires Scanned(rs, n, len, prevFirst, prevLast, overlapping)
    requires n < |rs| && Within(rs[n], len) && prevFirst < rs[n].first
    ensures OverlapsEarlier(rs, n) <==> rs[n].first <= prevLast
  {
    if rs[n].first <= prevLast {
      var k :| 0 <= k < n && rs[k].last == prevLast;
      assert Holds(rs[k], rs[n].first) && Holds(rs[n], rs[n].first);
      assert ShareAByte(rs[k], rs[n]);
    }
  }

  lemma OverlappingGrows(rs: seq<Range>, n: nat)
    requires n < |rs|
    ensures Overlapping(rs, n + 1) == Overlapping(rs, n) + if OverlapsEarlier(rs, n) then {n} else {}
    ensures |Overlapping(rs, n + 1)| == |Overlapping(rs, n)| + if OverlapsEarlier(rs, n) then 1 else 0
  {
  }

  lemma OverlappingMonotone(rs: seq<Range>, n: nat)
    requires n <= |rs|
    ensures |Overlapping(rs, n)| <= |Overlapping(rs, |rs|)|
    decreases |rs| - n
  {
    if n < |rs| {
      OverlappingGrows(rs, n);
      OverlappingMonotone(rs, n + 1);
    }
  }

  lemma ScanStep(rs: seq<Range>, n: nat, len: int, prevFirst: int, prevLast: int, overlapping: nat)
    requires Scanned(rs, n, len, prevFirst, prevLast, overlapping) && n < |rs|
    ensures var r := rs[n];
            var now := overlapping + if r.first <= prevLast then 1 else 0;
            if Within(r, len) && r.first > prevFirst && now <= 2
            then Scanned(rs, n + 1, len, r.first, if r.last > prevLast then r.last else prevLast, now)
            else !Acceptable(rs, len)
  {
    hide Overlapping, OverlapsEarlier, ShareAByte;
    var r := rs[n];
    if Within(r, len) && r.first > prevFirst {
      OverlapByReach(rs, n, len, prevFirst, prevLast, overlapping);
      OverlappingGrows(rs, n);
      OverlappingMonotone(rs, n + 1);
      if r.last > prevLast { assert rs[n].last == r.last; }
    } else if !Within(r, len) {
      assert r in rs;
    } else {
      assert n > 0 && rs[n - 1].first >= rs[n].first;
    }
  }

  lemma ScanDone(rs: seq<Range>, len: int, prevFirst: int, prevLast: int, overlapping: nat)
    requires Scanned(rs, |rs|, len, prevFirst, prevLast, overlapping) && |rs| <= CPPHTTPLIB_RANGE_MAX_COUNT
    ensures Acceptable(rs, len)
  {
  }

  lemma ScanStarts(rs: seq<Range>, len: int)
    ensures Scanned(rs, 0, len, -1, -1, 0)
  {
  }

  // ---------------------------------------------------------------------------
  // range_error
  // ---------------------------------------------------------------------------

  /** One range's two positions, rewritten step by step. */
  method NormaliseAt(ranges: array<Range>, i: nat, len: int)
    requires i < ranges.Length && 0 <= len
    modifies ranges
    ensures ranges[i] == Normalise(old(ranges[i]), len)
    ensures forall k :: 0 <= k < ranges.Length && k != i ==> ranges[k] == old(ranges[k])
  {
    if ranges[i].first == -1 && ranges[i].last == -1 {
      ranges[i] := ranges[i].(first := 0);
      ranges[i] := ranges[i].(last := len);
    }
    if ranges[i].first == -1 {
      ranges[i] := ranges[i].(first := len - ranges[i].last);
      ranges[i] := ranges[i].(last := len - 1);
    }
    if ranges[i].last == -1 || ranges[i].last >= len {
      ranges[i] := ranges[i].(last := len - 1);
    }
  }

  ghost predicate PartlyNormalised(now: seq<Range>, before: seq<Range>, n: nat, len: int) {
    |now| == |before| && n <= |now|
    && (forall k :: 0 <= k < n ==> now[k] == Normalise(before[k], len))
    && (forall k :: n <= k < |now| ==> now[k] == before[k])
  }

  lemma NoneNormalised(before: seq<Range>, len: int)
    ensures PartlyNormalised(before, before, 0, len)
  {
  }

  lemma OneMoreNormalised(a: seq<Range>, ranges: array<Range>, before: seq<Range>, n: nat, len: int)
    requires PartlyNormalised(a, before, n, len) && n < |a| == ranges.Length
    requires ranges[n] == Normalise(a[n], len) && forall k :: 0 <= k < |a| && k != n ==> ranges[k] == a[k]
    ensures PartlyNormalised(ranges[..], before, n + 1, len)
    ensures ranges[n] == Normalised(before, len)[n]
  {
  }

  lemma AllNormalised(now: seq<Range>, before: seq<Range>, len: int)
    requires PartlyNormalised(now, before, |now|, len)
    ensures now == Normalised(before, len)
  {
  }

  /** The loop over the ranges. */
  method ScanRanges(ranges: array<Range>, len: nat) returns (error: bool)
    requires ranges.Length <= CPPHTTPLIB_RANGE_MAX_COUNT
    modifies ranges
    ensures error <==> !Acceptable(Normalised(old(ranges[..]), len), len)
    ensures exists n :: PartlyNormalised(ranges[..], old(ranges[..]), n, len)
    ensures !error ==> ranges[..] == Normalised(old(ranges[..]), len)
  {
    hide Scanned, Acceptable, Normalise, PartlyNormalised, Overlapping;
    var prevFirst, prevLast, overlapping := -1, -1, 0;
    ghost var before := ranges[..];
    ghost var target := Normalised(before, len);
    ScanStarts(target, len);
    NoneNormalised(before, len);
    for i := 0 to ranges.Length
      invariant |target| == ranges.Length
      invariant Scanned(target, i, len, prevFirst, prevLast, overlapping)
      invariant PartlyNormalised(ranges[..], before, i, len)
    {
      ghost var now := ranges[..];
      NormaliseAt(ranges, i, len);
      var r := ranges[i];
      OneMoreNormalised(now, ranges, before, i, len);
      ScanStep(target, i, len, prevFirst, prevLast, overlapping);
      if !(0 <= r.first && r.first <= r.last && r.last <= len - 1) { return true; }
      if r.first <= prevFirst { return true; }
      if r.first <= prevLast {
        overlapping := overlapping + 1;
        if overlapping > 2 { return true; }
      }
      prevFirst := if prevFirst < r.first then r.first else prevFirst;
      prevLast := if prevLast < r.last then r.last else prevLast;
    }
    AllNormalised(ranges[..], before, len);
    ScanDone(target, len, prevFirst, prevLast, overlapping);
    return false;
  }

  /** Ranges within the content, in ascending order and without overlaps. */
  predicate Spaced(rs: seq<Range>, len: int) {
    && |rs| <= CPPHTTPLIB_RANGE_MAX_COUNT
    && (forall i :: 0 <= i < |rs| ==> 0 <= rs[i].first <= rs[i].last < len)
    && forall i, j :: 0 <= i < j < |rs| ==> rs[i].last < rs[j].first
  }

  lemma SpacedIsAcceptable(rs: seq<Range>, len: int)
    requires Spaced(rs, len)
    ensures Normalised(rs, len) == rs && Acceptable(rs, len)
  {
    assert Overlapping(rs, |rs|) == {};
  }

  /** What the outcome for a content of `len` bytes is to be. */
  ghost predicate Decided(error: bool, before: seq<Range>, after: seq<Range>, len: nat) {
    && (error <==> !Acceptable(Normalised(before, len), len))
    && (!error ==> after == Normalised(before, len))
    && (exists n :: PartlyNormalised(after, before, n, len))
    && (Spaced(before, len) ==> !error && after == before)
  }

  /** `true` exactly when the normalised list is not acceptable; otherwise the list has been normalised. The content is
      as long as the content length says, or as the body when none is set. */
  method RangeError(ranges: array<Range>, status: int, contentLength: nat, bodySize: nat) returns (error: bool)
    requires contentLength <= SSIZE_MAX && bodySize <= SSIZE_MAX
    modifies ranges
    ensures ranges.Length == 0 || !(200 <= status < 300) ==> !error && ranges[..] == old(ranges[..])
    ensures ranges.Length > 0 && 200 <= status < 300 && contentLength == 0 ==>
              Decided(error, old(ranges[..]), ranges[..], bodySize)
    ensures ranges.Length > 0 && 200 <= status < 300 && contentLength != 0 ==>
              Decided(error, old(ranges[..]), ranges[..], contentLength)
  {
    hide Acceptable, PartlyNormalised, Spaced;
    if ranges.Length != 0 && 200 <= status < 300 {
      var len := if contentLength != 0 then contentLength else bodySize;
      ghost var before := ranges[..];
      if ranges.Length > CPPHTTPLIB_RANGE_MAX_COUNT {
        TooMany(before, len);
        NoneNormalised(before, len);
        return true;
      }
      error := ScanRanges(ranges, len);
      if Spaced(before, len) { SpacedIsAcceptable(before, len); }
    } else {
      error := false;
    }
  }

  lemma TooMany(rs: seq<Range>, len: int)
    requires |rs| > CPPHTTPLIB_RANGE_MAX_COUNT
    ensures !Acceptable(Normalised(rs, len), len) && !Spaced(rs, len)
  {
  }

  // ---------------------------------------------------------------------------
  // The bound
  // ---------------------------------------------------------------------------

  /** The bytes of the first `n` ranges, within what they reach and a whole content for each overlap. */
  ghost predicate Bounded(rs: seq<Range>, n: nat, len: nat, prevLast: int, overlapping: nat)
    requires n <= |rs|
  {
    prevLast <= len - 1 && TotalLength(rs, n) <= prevLast + 1 + overlapping * len
  }

  lemma BoundedStep(rs: seq<Range>, n: nat, len: nat, prevLast: int, overlapping: nat)
    requires n < |rs| && Bounded(rs, n, len, prevLast, overlapping) && Within(rs[n], len)
    ensures Bounded(rs, n + 1, len, if rs[n].last > prevLast then rs[n].last else prevLast,
                    overlapping + if rs[n].first <= prevLast then 1 else 0)
  {
    assert (overlapping + 1) * len == overlapping * len + len;
  }

  lemma {:induction false} ReachBound(rs: seq<Range>, n: nat, len: nat)
      returns (prevFirst: int, prevLast: int, overlapping: nat)
    requires Acceptable(rs, len) && n <= |rs|
    ensures Scanned(rs, n, len, prevFirst, prevLast, overlapping)
    ensures Bounded(rs, n, len, prevLast, overlapping)
  {
    hide Acceptable, Scanned, Bounded, Within;
    if n == 0 {
      ScanStarts(rs, len);
      NothingYet(rs, len);
      return -1, -1, 0;
    }
    prevFirst, prevLast, overlapping := ReachBound(rs, n - 1, len);
    var r := rs[n - 1];
    ScanStep(rs, n - 1, len, prevFirst, prevLast, overlapping);
    BoundedStep(rs, n - 1, len, prevLast, overlapping);
    overlapping := overlapping + if r.first <= prevLast then 1 else 0;
    prevFirst := r.first;
    prevLast := if r.last > prevLast then r.last else prevLast;
  }

  lemma NothingYet(rs: seq<Range>, len: nat)
    ensures Bounded(rs, 0, len, -1, 0)
  {
  }

  lemma AtMostTwice(n: nat, len: nat)
    requires n <= 2
    ensures n * len <= 2 * len
  {
    if n == 1 { assert n * len == len; }
  }

  /** The ranges served ask for at most three times the content. */
  lemma AcceptedLengthBound(rs: seq<Range>, len: nat)
    requires Acceptable(rs, len)
    ensures TotalLength(rs, |rs|) <= 3 * len
  {
    hide Acceptable, Overlapping;
    var _, prevLast, overlapping := ReachBound(rs, |rs|, len);
    AtMostTwice(overlapping, len);
  }
}
