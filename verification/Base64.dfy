/** `base64_encode`: a bit accumulator in a 32-bit `int`, against the groups of section 4 of RFC 4648. */
module Base64 {
  import opened Bytes

  /** The 64-character alphabet: A-Z, a-z, 0-9, '+', '/'. */
  function Lookup(d: bv6): char {
    var n := d as int;
    if n < 26 then (n + 'A' as int) as char
    else if n < 52 then (n - 26 + 'a' as int) as char
    else if n < 62 then (n - 52 + '0' as int) as char
    else if n == 62 then '+' else '/'
  }

  const CAPITALS := "ABCDEFGHIJKLMNOPQRSTUVWXYZ"
  const SMALL_LETTERS := "abcdefghijklmnopqrstuvwxyz"
  const DIGITS := "0123456789"

  /** Table 1 of section 4 of RFC 4648. */
  const ALPHABET := CAPITALS + SMALL_LETTERS + DIGITS + "+/"

  lemma CapitalAt(n: nat)
    requires n < 26
    ensures |CAPITALS| == 26 && CAPITALS[n] as int == n + 65
  {
  }

  lemma SmallLetterAt(n: nat)
    requires n < 26
    ensures |SMALL_LETTERS| == 26 && SMALL_LETTERS[n] as int == n + 97
  {
  }

  lemma DigitAt(n: nat)
    requires n < 10
    ensures |DIGITS| == 10 && DIGITS[n] as int == n + 48
  {
  }

  lemma LookupIsAlphabet(d: bv6)
    ensures |ALPHABET| == 64 && Lookup(d) == ALPHABET[d as int]
  {
    var n := d as int;
    CapitalAt(if n < 26 then n else 0);
    SmallLetterAt(if 26 <= n < 52 then n - 26 else 0);
    DigitAt(if 52 <= n < 62 then n - 52 else 0);
    Joined(CAPITALS, SMALL_LETTERS, DIGITS, n);
  }

  lemma Joined(a: string, b: string, c: string, n: nat)
    requires |a| == 26 && |b| == 26 && |c| == 10 && n < 64
    ensures var s := a + b + c + "+/";
            s[n] == if n < 26 then a[n] else if n < 52 then b[n - 26] else if n < 62 then c[n - 52]
                    else if n == 62 then '+' else '/'
  {
  }

  // ---------------------------------------------------------------------------
  // The standard's encoding, by groups of three bytes
  // ---------------------------------------------------------------------------

  /** The 24 bits of a group. */
  function Bits24(a: bv8, b: bv8, c: bv8): bv32 { ((a as bv32) << 16) | ((b as bv32) << 8) | c as bv32 }

  /** The four six-bit parts of a group, from the left. */
  function Part(n: bv32, i: nat): bv6
    requires i < 4
  {
    ((if i == 0 then n >> 18 else if i == 1 then n >> 12 else if i == 2 then n >> 6 else n) & 0x3F) as bv6
  }

  function Group(a: bv8, b: bv8, c: bv8): (g: string)
    ensures |g| == 4
  {
    var n := Bits24(a, b, c);
    [Lookup(Part(n, 0)), Lookup(Part(n, 1)), Lookup(Part(n, 2)), Lookup(Part(n, 3))]
  }

  /** The last group: missing bytes count as zero, their characters become padding. */
  function LastGroup(s: seq<bv8>): string
    requires |s| < 3
  {
    if |s| == 0 then "" else if |s| == 1 then Group(s[0], 0, 0)[..2] + "==" else Group(s[0], s[1], 0)[..3] + "="
  }

  function Base64(s: seq<bv8>): string {
    if |s| < 3 then LastGroup(s) else Group(s[0], s[1], s[2]) + Base64(s[3..])
  }

  /** The characters of the complete groups of `s`. */
  function Groups(s: seq<bv8>): (g: string)
    requires |s| % 3 == 0
    ensures |g| % 4 == 0
  {
    if s == [] then "" else Groups(s[..|s| - 3]) + Group(s[|s| - 3], s[|s| - 2], s[|s| - 1])
  }

  lemma Base64Step(a: bv8, b: bv8, c: bv8, t: seq<bv8>)
    ensures Base64([a, b, c] + t) == Group(a, b, c) + Base64(t)
  {
    assert ([a, b, c] + t)[3..] == t;
  }

  lemma {:induction false} GroupsThenLast(s: seq<bv8>, t: seq<bv8>)
    requires |s| % 3 == 0
    ensures Base64(s + t) == Groups(s) + Base64(t)
    decreases |s|
  {
    hide Base64, Group;
    if s == [] {
      assert s + t == t;
    } else {
      var k := |s| - 3;
      GroupsThenLast(s[..k], s[k..] + t);
      assert s[..k] + (s[k..] + t) == s + t;
      assert s[k..] == [s[k], s[k + 1], s[k + 2]];
      Base64Step(s[k], s[k + 1], s[k + 2], t);
      Assoc(Groups(s[..k]), Group(s[k], s[k + 1], s[k + 2]), Base64(t));
    }
  }

  // ---------------------------------------------------------------------------
  // The accumulator
  // ---------------------------------------------------------------------------

  type Shift = k: nat | k in {0, 2, 4, 6}

  function LogicalShift(v: bv32, k: Shift): bv32 {
    if k == 0 then v else if k == 2 then v >> 2 else if k == 4 then v >> 4 else v >> 6
  }

  /** `(val >> k) & 0x3F`; on a negative `int` the shift copies the sign bit. */
  function Sextet(val: bv32, k: Shift): bv6 {
    ((if val & 0x8000_0000 != 0 then !LogicalShift(!val, k) else LogicalShift(val, k)) & 0x3F) as bv6
  }

  /** No shift the encoder uses looks above the low twelve bits, nor at the sign. */
  lemma OnlyLowTwelveBits(v: bv32, w: bv32, k: Shift)
    requires v & 0xFFF == w & 0xFFF
    ensures Sextet(v, k) == Sextet(w, k) == (LogicalShift(v & 0xFFF, k) & 0x3F) as bv6
  {
    if k == 0 { ReadAt0(v); ReadAt0(w); }
    if k == 2 { ReadAt2(v); ReadAt2(w); }
    if k == 4 { ReadAt4(v); ReadAt4(w); }
    if k == 6 { ReadAt6(v); ReadAt6(w); }
  }

  lemma ReadAt0(v: bv32)
    ensures (!!v) & 0x3F == (v & 0xFFF) & 0x3F && v & 0x3F == (v & 0xFFF) & 0x3F
  {
  }

  lemma ReadAt2(v: bv32)
    ensures !(!v >> 2) & 0x3F == ((v & 0xFFF) >> 2) & 0x3F && (v >> 2) & 0x3F == ((v & 0xFFF) >> 2) & 0x3F
  {
  }

  lemma ReadAt4(v: bv32)
    ensures !(!v >> 4) & 0x3F == ((v & 0xFFF) >> 4) & 0x3F && (v >> 4) & 0x3F == ((v & 0xFFF) >> 4) & 0x3F
  {
  }

  lemma ReadAt6(v: bv32)
    ensures !(!v >> 6) & 0x3F == ((v & 0xFFF) >> 6) & 0x3F && (v >> 6) & 0x3F == ((v & 0xFFF) >> 6) & 0x3F
  {
  }

  function Pair(a: bv8, b: bv8): bv32 { ((a as bv32) << 8) | b as bv32 }

  /** The last two bytes of `s`: all the accumulator is still needed for. */
  function LastTwo(s: seq<bv8>): bv32 {
    if |s| == 0 then 0
    else if |s| == 1 then s[0] as bv32
    else Pair(s[|s| - 2], s[|s| - 1])
  }

  predicate Accumulated(val: bv32, s: seq<bv8>) { val & 0xFFF == LastTwo(s) & 0xFFF }

  lemma ShiftIn(v: bv32, w: bv32, c: bv8)
    requires v & 0xFFF == w & 0xFFF
    ensures ((v << 8) + c as bv32) & 0xFFF == (((w & 0xFF) << 8) | c as bv32) & 0xFFF
  {
  }

  lemma LowByte(p: bv8, q: bv8)
    ensures (((p as bv32) << 8) | q as bv32) & 0xFF == q as bv32
    ensures (q as bv32) & 0xFF == q as bv32
  {
  }

  lemma Accumulates(val: bv32, s: seq<bv8>, c: bv8)
    requires Accumulated(val, s)
    ensures Accumulated((val << 8) + c as bv32, s + [c])
  {
    ShiftIn(val, LastTwo(s), c);
    if |s| > 1 { LowByte(s[|s| - 2], s[|s| - 1]); }
    if |s| == 1 { LowByte(0, s[0]); }
  }

  // ---------------------------------------------------------------------------
  // What has been written after the bytes of `s`
  // ---------------------------------------------------------------------------

  /** Output for the bytes of a group begun but not finished. */
  function Partial(s: seq<bv8>): string
    requires |s| < 3
  {
    if |s| == 0 then "" else if |s| == 1 then Group(s[0], 0, 0)[..1] else Group(s[0], s[1], 0)[..2]
  }

  function Emitted(s: seq<bv8>): string {
    var done := |s| - |s| % 3;
    Groups(s[..done]) + Partial(s[done..])
  }

  /** The characters written on reading a byte in phase `r` of its group. */
  function Written(val: bv32, r: nat): string
    requires r < 3
  {
    if r == 0 then [Lookup(Sextet(val, 2))]
    else if r == 1 then [Lookup(Sextet(val, 4))]
    else [Lookup(Sextet(val, 6)), Lookup(Sextet(val, 0))]
  }

  lemma WrittenDependsOnLowBits(v: bv32, w: bv32, r: nat)
    requires v & 0xFFF == w & 0xFFF && r < 3
    ensures Written(v, r) == Written(w, r)
  {
    hide Sextet, Lookup;
    OnlyLowTwelveBits(v, w, 0);
    OnlyLowTwelveBits(v, w, 2);
    OnlyLowTwelveBits(v, w, 4);
    OnlyLowTwelveBits(v, w, 6);
  }

  lemma NoSign(a: bv8, b: bv8)
    ensures Pair(a, b) & 0x8000_0000 == 0 && (a as bv32) & 0x8000_0000 == 0
  {
  }

  lemma PartsOfGroup(a: bv8, b: bv8, c: bv8)
    ensures Part(Bits24(a, b, c), 0) == Sextet(a as bv32, 2)
    ensures Part(Bits24(a, b, c), 1) == Sextet(Pair(a, b), 4)
    ensures Part(Bits24(a, b, c), 2) == Sextet(Pair(b, c), 6)
    ensures Part(Bits24(a, b, c), 3) == Sextet(Pair(b, c), 0)
  {
    NoSign(a, b);
    NoSign(b, c);
  }

  lemma GroupBits(a: bv8, b: bv8, c: bv8)
    ensures Group(a, b, c) == Written(a as bv32, 0) + Written(Pair(a, b), 1) + Written(Pair(b, c), 2)
  {
    hide Bits24, Pair, Sextet, Part, Lookup;
    PartsOfGroup(a, b, c);
  }

  lemma EmittedStep(s: seq<bv8>, c: bv8, val: bv32)
    requires Accumulated(val, s + [c])
    ensures Emitted(s + [c]) == Emitted(s) + Written(val, |s| % 3)
  {
    hide Written, Emitted, Accumulated;
    WrittenIsLastTwo(val, s + [c], |s| % 3);
    if |s| % 3 == 0 {
      EmittedStep0(s, c);
    } else if |s| % 3 == 1 {
      EmittedStep1(s, c);
    } else {
      EmittedStep2(s, c);
    }
  }

  lemma EmittedStep0(s: seq<bv8>, c: bv8)
    requires |s| % 3 == 0
    ensures Emitted(s + [c]) == Emitted(s) + Written(LastTwo(s + [c]), 0)
  {
    hide Written, Groups, LastTwo;
    var t := s + [c];
    FirstOfGroup(t, c);
    assert t[..|s|] == s && t[|s|..] == [c] && s[..|s|] == s && s[|s|..] == [];
  }

  lemma EmittedStep1(s: seq<bv8>, c: bv8)
    requires |s| % 3 == 1
    ensures Emitted(s + [c]) == Emitted(s) + Written(LastTwo(s + [c]), 1)
  {
    hide Written, Groups, Partial, Pair;
    var done := |s| - 1;
    var t := s + [c];
    SecondOfGroup(s[done], c);
    assert t[..done] == s[..done] && s[done..] == [s[done]] && t[done..] == [s[done], c];
    Assoc(Groups(s[..done]), Partial([s[done]]), Written(LastTwo(t), 1));
  }

  lemma EmittedStep2(s: seq<bv8>, c: bv8)
    requires |s| % 3 == 2
    ensures Emitted(s + [c]) == Emitted(s) + Written(LastTwo(s + [c]), 2)
  {
    hide Written, Groups, Pair, Group;
    var done := |s| - 2;
    var t := s + [c];
    ThirdOfGroup(s[done], s[done + 1], c);
    assert s[done..] == [s[done], s[done + 1]];
    GroupsStep(t);
    assert t[..|t|] == t && t[..|t| - 3] == s[..done] && t[|t|..] == [];
    Assoc(Groups(s[..done]), Partial(s[done..]), Written(LastTwo(t), 2));
  }

  lemma WrittenIsLastTwo(val: bv32, t: seq<bv8>, r: nat)
    requires Accumulated(val, t) && r < 3
    ensures Written(val, r) == Written(LastTwo(t), r)
  {
    WrittenDependsOnLowBits(val, LastTwo(t), r);
  }

  lemma GroupsStep(t: seq<bv8>)
    requires |t| % 3 == 0 && |t| > 0
    ensures Groups(t) == Groups(t[..|t| - 3]) + Group(t[|t| - 3], t[|t| - 2], t[|t| - 1])
  {
  }

  lemma FirstOfGroup(t: seq<bv8>, c: bv8)
    requires t != [] && t[|t| - 1] == c
    ensures Partial([c]) == Written(LastTwo(t), 0)
  {
    hide Group, Sextet, Lookup;
    GroupBits(c, 0, 0);
    if |t| > 1 {
      FirstSextet(t[|t| - 2], c);
    }
  }

  /** Of the accumulator's two bytes, the first character of a group shows the later one only. */
  lemma FirstSextet(p: bv8, c: bv8)
    ensures Sextet(Pair(p, c), 2) == Sextet(c as bv32, 2)
  {
    NoSign(p, c);
    NoSign(c, p);
  }

  lemma SecondOfGroup(a: bv8, b: bv8)
    ensures Partial([a, b]) == Partial([a]) + Written(Pair(a, b), 1)
  {
    hide Group, Sextet, Lookup;
    GroupBits(a, b, 0);
    GroupBits(a, 0, 0);
  }

  lemma ThirdOfGroup(a: bv8, b: bv8, c: bv8)
    ensures Group(a, b, c) == Partial([a, b]) + Written(Pair(b, c), 2)
  {
    hide Group, Sextet, Lookup;
    GroupBits(a, b, c);
    GroupBits(a, b, 0);
  }

  function Padding(n: nat): string { if n % 4 == 2 then "==" else if n % 4 == 3 then "=" else "" }

  /** The character written for the bits left over, when the input does not end with a group. */
  function Leftover(val: bv32, r: nat): string
    requires r < 3
  {
    if r == 0 then "" else if r == 1 then [Lookup(Sextet(val << 8, 4))] else [Lookup(Sextet(val << 8, 6))]
  }

  lemma ShiftLowBits(v: bv32, w: bv32)
    requires v & 0xFFF == w & 0xFFF
    ensures (v << 8) & 0xFFF == (w << 8) & 0xFFF
  {
  }

  lemma DropHighByte(p: bv8, c: bv8)
    ensures (Pair(p, c) << 8) & 0xFFF == Pair(c, 0) & 0xFFF
    ensures ((c as bv32) << 8) & 0xFFF == Pair(c, 0) & 0xFFF
  {
  }

  lemma LeftoverBits(val: bv32, s: seq<bv8>)
    requires Accumulated(val, s) && |s| % 3 != 0
    ensures Leftover(val, |s| % 3) == [Lookup(Sextet(Pair(s[|s| - 1], 0), if |s| % 3 == 1 then 4 else 6))]
  {
    hide Sextet, Lookup;
    var c := s[|s| - 1];
    ShiftLowBits(val, LastTwo(s));
    if |s| == 1 { DropHighByte(0, c); } else { DropHighByte(s[|s| - 2], c); }
    OnlyLowTwelveBits(val << 8, Pair(c, 0), if |s| % 3 == 1 then 4 else 6);
  }

  lemma EmittedEnd(s: seq<bv8>, val: bv32)
    requires Accumulated(val, s)
    ensures var out := Emitted(s) + Leftover(val, |s| % 3); out + Padding(|out|) == Base64(s)
  {
    hide Accumulated, Group, Groups, Sextet, Lookup, Base64, Partial, Leftover;
    var r := |s| % 3;
    var g, last := Groups(s[..|s| - r]), s[|s| - r..];
    assert s == s[..|s| - r] + last;
    GroupsThenLast(s[..|s| - r], last);
    var tail := Partial(last) + Leftover(val, r);
    if r > 0 { LeftoverBits(val, s); }
    LastGroupEnd(last, val);
    Assoc(g, Partial(last), Leftover(val, r));
    Assoc(g, tail, Padding(|tail|));
    assert (|g| + |tail|) % 4 == |tail| % 4;
  }

  lemma LastGroupEnd(last: seq<bv8>, val: bv32)
    requires |last| < 3
    requires last != [] ==>
               Leftover(val, |last|) == [Lookup(Sextet(Pair(last[|last| - 1], 0), if |last| == 1 then 4 else 6))]
    ensures var tail := Partial(last) + Leftover(val, |last|); tail + Padding(|tail|) == Base64(last)
  {
    hide Group, Sextet, Lookup, Leftover, Pair;
    if |last| == 0 {
      NoLeftover(val);
    } else {
      var g := Group(last[0], if |last| == 2 then last[1] else 0, 0);
      var third := Leftover(val, |last|)[0];
      GroupBits(last[0], if |last| == 2 then last[1] else 0, 0);
      WrittenAt(last[0], if |last| == 2 then last[1] else 0);
      CloseGroup(g, third, |last|);
    }
  }

  /** The second and third characters of a group whose third byte is missing, as the leftover bits give them. */
  lemma WrittenAt(a: bv8, b: bv8)
    ensures Written(a as bv32, 0) == [Lookup(Sextet(a as bv32, 2))] && |Written(Pair(a, b), 1)| == 1
    ensures Written(Pair(a, b), 1)[0] == Lookup(Sextet(Pair(a, b), 4))
    ensures Written(Pair(b, 0), 2)[0] == Lookup(Sextet(Pair(b, 0), 6))
  {
  }

  lemma CloseGroup(g: string, c: char, n: nat)
    requires |g| == 4 && 1 <= n <= 2 && c == g[n]
    ensures var tail := g[..n] + [c]; tail + Padding(|tail|) == if n == 1 then g[..2] + "==" else g[..3] + "="
  {
    assert g[..n] + [c] == g[..n + 1];
  }

  lemma NoLeftover(val: bv32)
    ensures Leftover(val, 0) == ""
  {
  }

  lemma Start()
    ensures Accumulated(0, []) && Emitted([]) == ""
  {
  }

  /** The bits pushed while `valb >= 0`, for the byte in phase `r`. */
  method Push(val: bv32, r: nat) returns (chars: string, valb: int)
    requires r < 3
    ensures chars == Written(val, r) && valb == (if r == 2 then -6 else 2 * r - 4)
  {
    hide Sextet, Lookup;
    valb := 2 * r - 6 + 8;
    chars := "";
    while valb >= 0
      invariant valb == 2 * r + 2 || valb == 2 * r - 4 || (valb == -6 && r == 2)
      invariant valb == 2 * r + 2 ==> chars == ""
      invariant valb == 2 * r - 4 ==> chars == Written(val, r)[..1]
      invariant valb == -6 && r == 2 ==> chars == Written(val, r)
    {
      chars := chars + [Lookup(Sextet(val, valb))];
      valb := valb - 6;
    }
  }

  lemma PaddingStep(out: string, target: string)
    requires out + Padding(|out|) == target && |target| % 4 == 0
    ensures |out| % 4 == 0 ==> out == target
    ensures |out| % 4 != 0 ==> |out| < |target| && (out + "=") + Padding(|out| + 1) == target
  {
    var n := |out|;
    if n % 4 == 2 { assert (n + 1) % 4 == 3; }
    if n % 4 == 3 { assert (n + 1) % 4 == 0; }
  }

  /** The last character and the padding. */
  method Finish(out0: string, val: bv32, valb: int, ghost target: string) returns (out: string)
    requires valb in {-6, -4, -2}
    requires var all := out0 + Leftover(val, (valb + 6) / 2); all + Padding(|all|) == target
    requires |target| % 4 == 0
    ensures out == target
  {
    hide Sextet, Lookup, Padding;
    out := out0;
    if valb > -6 { out := out + [Lookup(Sextet(val << 8, valb + 8))]; }
    assert out == out0 + Leftover(val, (valb + 6) / 2);
    PaddingStep(out, target);
    while |out| % 4 != 0
      invariant out + Padding(|out|) == target
      decreases |target| - |out|
    {
      PaddingStep(out, target);
      out := out + "=";
    }
    PaddingStep(out, target);
  }

  method Base64Encode(input: seq<bv8>) returns (out: string)
    ensures out == Base64(input)
  {
    hide *;
    out := "";
    var val: bv32, valb := 0, -6;
    Start();
    assert input[..0] == [];
    for i := 0 to |input|
      invariant valb == 2 * (i % 3) - 6
      invariant Accumulated(val, input[..i])
      invariant out == Emitted(input[..i])
    {
      var c := input[i];
      assert input[..i + 1] == input[..i] + [c];
      Accumulates(val, input[..i], c);
      val := (val << 8) + c as bv32;
      EmittedStep(input[..i], c, val);
      var chars;
      chars, valb := Push(val, i % 3);
      out := out + chars;
    }
    assert input[..|input|] == input;
    EmittedEnd(input, val);
    Base64Length(input);
    out := Finish(out, val, valb, Base64(input));
  }

  // ---------------------------------------------------------------------------
  // The standard's promises
  // ---------------------------------------------------------------------------

  lemma {:induction false} Base64Length(s: seq<bv8>)
    ensures |Base64(s)| == 4 * ((|s| + 2) / 3)
  {
    hide Group;
    if |s| >= 3 { Base64Length(s[3..]); }
  }

  /** Position of a character in the alphabet. */
  function Digit(c: char): bv6 {
    if 'A' <= c <= 'Z' then ((c as int) - 65) as bv6
    else if 'a' <= c <= 'z' then ((c as int) - 71) as bv6
    else if '0' <= c <= '9' then ((c as int) + 4) as bv6
    else if c == '+' then 62 else 63
  }

  lemma DigitOfLookup(d: bv6)
    ensures Digit(Lookup(d)) == d && Lookup(d) != '='
  {
  }

  function DecodedGroup(g: string): seq<bv8>
    requires |g| == 4
  {
    Octets(Assemble(Digit(g[0]), Digit(g[1]), Digit(g[2]), Digit(g[3])))
  }

  /** The standard's decoder on well-formed text. */
  function Base64Decoded(s: string): seq<bv8> {
    if |s| < 4 then []
    else if s[2] == '=' then DecodedGroup(s[..2] + "AA")[..1]
    else if s[3] == '=' then DecodedGroup(s[..3] + "A")[..2]
    else DecodedGroup(s[..4]) + Base64Decoded(s[4..])
  }

  function Assemble(p0: bv6, p1: bv6, p2: bv6, p3: bv6): bv32 {
    ((p0 as bv32) << 18) | ((p1 as bv32) << 12) | ((p2 as bv32) << 6) | p3 as bv32
  }

  function Octets(n: bv32): seq<bv8> {
    [((n >> 16) & 0xFF) as bv8, ((n >> 8) & 0xFF) as bv8, (n & 0xFF) as bv8]
  }

  lemma Reassemble(a: bv8, b: bv8, c: bv8)
    ensures var n := Bits24(a, b, c); Assemble(Part(n, 0), Part(n, 1), Part(n, 2), Part(n, 3)) == n
    ensures Octets(Bits24(a, b, c)) == [a, b, c]
  {
  }

  lemma DecodedParts(p0: bv6, p1: bv6, p2: bv6, p3: bv6)
    ensures var g := [Lookup(p0), Lookup(p1), Lookup(p2), Lookup(p3)];
            DecodedGroup(g) == Octets(Assemble(p0, p1, p2, p3)) && g[2] != '=' && g[3] != '='
  {
    hide Lookup, Digit, Assemble, Octets;
    DigitOfLookup(p0);
    DigitOfLookup(p1);
    DigitOfLookup(p2);
    DigitOfLookup(p3);
  }

  lemma GroupDecodes(a: bv8, b: bv8, c: bv8)
    ensures DecodedGroup(Group(a, b, c)) == [a, b, c]
    ensures Group(a, b, c)[2] != '=' && Group(a, b, c)[3] != '='
  {
    hide Lookup, Bits24, Part, Assemble, Octets, DecodedGroup;
    var n := Bits24(a, b, c);
    Reassemble(a, b, c);
    DecodedParts(Part(n, 0), Part(n, 1), Part(n, 2), Part(n, 3));
  }

  lemma ZeroParts(a: bv8, b: bv8)
    ensures Part(Bits24(a, b, 0), 3) == 0 && Part(Bits24(a, 0, 0), 2) == 0
  {
  }

  lemma ZeroSextets(a: bv8, b: bv8)
    ensures Group(a, b, 0)[3] == 'A' && Group(a, 0, 0)[2] == Group(a, 0, 0)[3] == 'A'
  {
    hide Part, Bits24;
    ZeroParts(a, b);
    ZeroParts(a, 0);
    assert Lookup(0) == 'A';
  }

  /** Decoding gives the bytes back, whatever the length: no two inputs share an encoding. */
  lemma {:induction false} DecodeBase64(s: seq<bv8>)
    ensures Base64Decoded(Base64(s)) == s
  {
    hide Group, DecodedGroup;
    if |s| >= 3 {
      GroupDecodes(s[0], s[1], s[2]);
      var g := Group(s[0], s[1], s[2]);
      assert Base64(s)[..4] == g && Base64(s)[4..] == Base64(s[3..]);
      DecodeBase64(s[3..]);
    } else if |s| > 0 {
      var b := if |s| == 2 then s[1] else 0;
      GroupDecodes(s[0], b, 0);
      ZeroSextets(s[0], b);
      if |s| == 1 {
        assert Base64(s)[..2] + "AA" == Group(s[0], 0, 0);
      } else {
        assert Base64(s)[..3] + "A" == Group(s[0], b, 0);
      }
    }
  }
}
