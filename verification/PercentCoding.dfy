/** Hexadecimal digits, percent-encoding and the URL decoder. */
module PercentCoding {
  import opened Bytes

  // ---------------------------------------------------------------------------
  // Hexadecimal digits
  // ---------------------------------------------------------------------------

  function HexValue(c: char): (v: Option<nat>)
    ensures v.Some? ==> v.value < 16
  {
    if IsDigit(c) then Some((c as int) - ('0' as int))
    else if 'A' <= c <= 'F' then Some((c as int) - ('A' as int) + 10)
    else if 'a' <= c <= 'f' then Some((c as int) - ('a' as int) + 10)
    else None
  }

  function Pow16(n: nat): nat { if n == 0 then 1 else 16 * Pow16(n - 1) }

  /** The number spelled by the first `cnt` characters of `s`, when they are all hexadecimal digits. */
  function HexPrefix(s: string, cnt: nat): (v: Option<nat>)
    ensures v.Some? ==> cnt <= |s| && v.value < Pow16(cnt)
  {
    if cnt == 0 then Some(0)
    else if |s| < cnt then None
    else
      match HexPrefix(s, cnt - 1)
      case None => None
      case Some(high) =>
        match HexValue(s[cnt - 1])
        case None => None
        case Some(low) => Some(16 * high + low)
  }

  lemma {:induction false} HexPrefixStops(s: string, i: nat, cnt: nat)
    requires i < cnt && (i >= |s| || HexValue(s[i]).None?)
    ensures HexPrefix(s, cnt) == None
  {
    if i < cnt - 1 { HexPrefixStops(s, i, cnt - 1); }
  }

  /** `from_hex_to_i`: reads `cnt` digits of `s` starting at `i`. */
  method FromHexToInt(s: string, i: nat, cnt: nat) returns (val: Option<nat>)
    ensures val == if i < |s| then HexPrefix(s[i..], cnt) else None
  {
    if i >= |s| { return None; }
    var n := 0;
    for k := 0 to cnt
      invariant i + k <= |s|
      invariant HexPrefix(s[i..], k) == Some(n)
    {
      if i + k == |s| || HexValue(s[i + k]).None? {
        HexPrefixStops(s[i..], k, cnt);
        return None;
      }
      n := n * 16 + HexValue(s[i + k]).value;
    }
    return Some(n);
  }

  function UpperHexDigit(d: nat): (c: char)
    requires d < 16
    ensures HexValue(c) == Some(d) && c != 'u'
  {
    if d < 10 then (d + '0' as int) as char else (d - 10 + 'A' as int) as char
  }

  // ---------------------------------------------------------------------------
  // Decoding
  // ---------------------------------------------------------------------------

  /** `to_utf8`: no bytes for a surrogate. Only codes below 0x10000 are ever passed. */
  function Utf8(code: nat): (r: string)
    ensures |r| <= 3
  {
    if code < 0x80 then [code as char]
    else if code < 0x800 then [(0xC0 + code / 64 % 32) as char, (0x80 + code % 64) as char]
    else if 0xD800 <= code < 0xE000 || 0x10000 <= code then ""
    else [(0xE0 + code / 4096 % 16) as char, (0x80 + code / 64 % 64) as char, (0x80 + code % 64) as char]
  }

  datatype Escape = NoEscape | Escaped(text: string, length: nat)

  /** The escape sequence at the head of `s`, if a valid one is there. */
  function EscapeAt(s: string): (e: Escape)
    ensures e.Escaped? ==> |e.text| < e.length <= |s| && s[0] == '%'
  {
    if |s| < 2 || s[0] != '%' then NoEscape
    else if s[1] == 'u' then
      (match HexPrefix(s[2..], 4)
       case Some(v) => Escaped(Utf8(v), 6)
       case None => NoEscape)
    else
      (match HexPrefix(s[1..], 2)
       case Some(v) => assert Pow16(2) == 256; Escaped([v as char], 3)
       case None => NoEscape)
  }

  /** What the URL decoder makes of `s`. */
  function Decoded(s: string, plusToSpace: bool): string
    decreases |s|
  {
    if s == "" then ""
    else
      match EscapeAt(s)
      case Escaped(text, length) => text + Decoded(s[length..], plusToSpace)
      case NoEscape => [if plusToSpace && s[0] == '+' then ' ' else s[0]] + Decoded(s[1..], plusToSpace)
  }

  lemma DecodedStep(s: string, i: nat, plusToSpace: bool)
    requires i < |s|
    ensures match EscapeAt(s[i..])
            case Escaped(text, length) =>
              i + length <= |s| && Decoded(s[i..], plusToSpace) == text + Decoded(s[i + length..], plusToSpace)
            case NoEscape =>
              Decoded(s[i..], plusToSpace)
              == [if plusToSpace && s[i] == '+' then ' ' else s[i]] + Decoded(s[i + 1..], plusToSpace)
  {
    var rest := s[i..];
    match EscapeAt(rest)
    case Escaped(_, length) => assert rest[length..] == s[i + length..];
    case NoEscape => assert rest[1..] == s[i + 1..];
  }

  /** The `%XX` or `%uXXXX` branch of the decoder: the escape found at `s[i]`, if any. */
  method ReadEscape(s: string, i: nat) returns (e: Escape)
    requires i + 1 < |s| && s[i] == '%'
    ensures e == EscapeAt(s[i..])
  {
    assert s[i..][1..] == s[i + 1..];
    if s[i + 1] == 'u' {
      assert s[i..][2..] == s[i + 2..];
      var val := FromHexToInt(s, i + 2, 4);
      if val.None? { return NoEscape; }
      return Escaped(Utf8(val.value), 6);
    }
    var val := FromHexToInt(s, i + 1, 2);
    if val.None? { return NoEscape; }
    assert Pow16(2) == 256;
    return Escaped([val.value as char], 3);
  }

  /** One turn of the decoder's loop: what it appends at `s[i]` and where it goes on. */
  method DecodeOne(s: string, i: nat, plusToSpace: bool) returns (piece: string, next: nat)
    requires i < |s|
    ensures i < next <= |s|
    ensures Decoded(s[i..], plusToSpace) == piece + Decoded(s[next..], plusToSpace)
  {
    DecodedStep(s, i, plusToSpace);
    if s[i] == '%' && i + 1 < |s| {
      var e := ReadEscape(s, i);
      match e {
        case Escaped(text, length) => return text, i + length;
        case NoEscape => return [s[i]], i + 1;
      }
    } else if plusToSpace && s[i] == '+' {
      return [' '], i + 1;
    }
    return [s[i]], i + 1;
  }

  method DecodeUrl(s: string, plusToSpace: bool) returns (result: string)
    ensures result == Decoded(s, plusToSpace)
  {
    result := "";
    var i := 0;
    assert s[0..] == s;
    while i < |s|
      invariant i <= |s|
      invariant result + Decoded(s[i..], plusToSpace) == Decoded(s, plusToSpace)
    {
      var piece, next := DecodeOne(s, i, plusToSpace);
      assert result + (piece + Decoded(s[next..], plusToSpace)) == (result + piece) + Decoded(s[next..], plusToSpace);
      result, i := result + piece, next;
    }
    assert s[i..] == "";
  }

  /** Nothing in `s` is a valid escape. */
  predicate EscapeFree(s: string) {
    forall i :: 0 <= i < |s| ==> EscapeAt(s[i..]).NoEscape?
  }

  lemma {:induction false} DecodedShrinks(s: string, plusToSpace: bool)
    ensures |Decoded(s, plusToSpace)| <= |s|
    ensures !EscapeFree(s) ==> |Decoded(s, plusToSpace)| < |s|
    decreases |s|
  {
    if s != "" {
      match EscapeAt(s)
      case Escaped(_, length) => DecodedShrinks(s[length..], plusToSpace);
      case NoEscape =>
        DecodedShrinks(s[1..], plusToSpace);
        if !EscapeFree(s) {
          var i :| 0 <= i < |s| && EscapeAt(s[i..]).Escaped?;
          assert s[i..] == s[1..][i - 1..];
        }
    }
  }

  lemma {:induction false} DecodedKeeps(s: string, plusToSpace: bool)
    requires EscapeFree(s)
    ensures Decoded(s, plusToSpace) == s <==> !(plusToSpace && '+' in s)
    decreases |s|
  {
    if s != "" {
      assert s[0..] == s;
      forall i | 0 <= i < |s[1..]| ensures EscapeAt(s[1..][i..]).NoEscape? {
        assert s[1..][i..] == s[i + 1..];
      }
      DecodedKeeps(s[1..], plusToSpace);
      assert s == [s[0]] + s[1..];
    }
  }

  /** The decoder leaves a text alone exactly when the text holds no valid escape, nor a '+' that it converts. */
  lemma DecodedIsIdentityIff(s: string, plusToSpace: bool)
    ensures Decoded(s, plusToSpace) == s <==> EscapeFree(s) && !(plusToSpace && '+' in s)
  {
    DecodedShrinks(s, plusToSpace);
    if EscapeFree(s) { DecodedKeeps(s, plusToSpace); }
  }

  // ---------------------------------------------------------------------------
  // Encoding
  // ---------------------------------------------------------------------------

  predicate Unreserved(c: char) { IsAlnum(c) || c in "-_.!~*'()" }

  /** The source narrows to `unsigned char`; on a byte that changes nothing. */
  function EncodedByte(c: char): (r: string)
    ensures EncodedChars(r)
  {
    if Unreserved(c) then [c]
    else ['%', UpperHexDigit(c as int % 256 / 16), UpperHexDigit(c as int % 16)]
  }

  function Encoded(s: string): (r: string)
    ensures EncodedChars(r)
  {
    if s == [] then "" else EncodedByte(s[0]) + Encoded(s[1..])
  }

  /** The encoder's whole output alphabet. */
  predicate EncodedChars(s: string) {
    forall c :: c in s ==> Unreserved(c) || c == '%'
  }

  lemma EncodedAppend(a: string, c: char)
    ensures Encoded(a + [c]) == Encoded(a) + EncodedByte(c)
  {
    if a != [] {
      assert (a + [c])[1..] == a[1..] + [c];
      EncodedAppend(a[1..], c);
    }
  }

  method EncodeQueryParam(value: string) returns (escaped: string)
    ensures escaped == Encoded(value)
  {
    hide EncodedChars, Unreserved, UpperHexDigit;
    escaped := "";
    for i := 0 to |value|
      invariant escaped == Encoded(value[..i])
    {
      var c := value[i];
      assert value[..i + 1] == value[..i] + [c];
      EncodedAppend(value[..i], c);
      if Unreserved(c) {
        escaped := escaped + [c];
      } else {
        escaped := escaped + ['%'] + [UpperHexDigit(c as int % 256 / 16), UpperHexDigit(c as int % 16)];
      }
    }
    assert value[..|value|] == value;
  }

  lemma DecodedHead(c: byte, rest: string, plusToSpace: bool)
    ensures Decoded(EncodedByte(c) + rest, plusToSpace) == [c] + Decoded(rest, plusToSpace)
  {
    var s := EncodedByte(c) + rest;
    if Unreserved(c) {
      assert s[1..] == rest;
    } else {
      var digits := s[1..];
      assert digits[0] == UpperHexDigit(c as int / 16) && digits[1] == UpperHexDigit(c as int % 16);
      assert HexPrefix(digits, 0) == Some(0);
      assert HexPrefix(digits, 1) == Some(c as int / 16);
      assert HexPrefix(digits, 2) == Some(c as int);
      assert EscapeAt(s) == Escaped([c], 3);
      assert s[3..] == rest;
    }
  }

  /** Decoding undoes encoding, for every byte string and either treatment of '+'. */
  lemma {:induction false} DecodeEncode(s: seq<byte>, plusToSpace: bool)
    ensures Decoded(Encoded(s), plusToSpace) == s
  {
    if s != [] {
      DecodedHead(s[0], Encoded(s[1..]), plusToSpace);
      DecodeEncode(s[1..], plusToSpace);
    }
  }

  // ---------------------------------------------------------------------------
  // Digits and escapes of other writers
  // ---------------------------------------------------------------------------

  function LowerHexDigit(d: nat): (c: char)
    requires d < 16
    ensures HexValue(c) == Some(d)
  {
    if d < 10 then (d + '0' as int) as char else (d - 10 + 'a' as int) as char
  }

  /** A digit has its value in either case, and nothing else has one. */
  lemma HexValueIff(c: char, d: nat)
    requires d < 16
    ensures HexValue(c) == Some(d) <==> ToLower(c) == LowerHexDigit(d)
  {
  }

  /** The first `cnt` characters of `s` are the digits of `n`, of either case. */
  predicate Spells(s: string, n: nat, cnt: nat) {
    if cnt == 0 then n == 0
    else cnt <= |s| && ToLower(s[cnt - 1]) == LowerHexDigit(n % 16) && Spells(s, n / 16, cnt - 1)
  }

  lemma {:induction false} SpelledIff(s: string, n: nat, cnt: nat)
    ensures HexPrefix(s, cnt) == Some(n) <==> Spells(s, n, cnt)
    decreases cnt
  {
    if 0 < cnt <= |s| {
      hide ToLower, HexValue, LowerHexDigit;
      SpelledIff(s, n / 16, cnt - 1);
      HexValueIff(s[cnt - 1], n % 16);
      if HexPrefix(s, cnt).Some? { assert HexPrefix(s, cnt).value / 16 == HexPrefix(s, cnt - 1).value; }
    }
  }

  /** Two digits of either case behind a '%' are a byte. */
  lemma TwoDigitsDecode(n: nat, h: string, rest: string, plusToSpace: bool)
    requires n < 256 && |h| == 2 && Spells(h, n, 2)
    ensures Decoded("%" + h + rest, plusToSpace) == [n as char] + Decoded(rest, plusToSpace)
  {
    var s := "%" + h + rest;
    assert s[1..] == h + rest && s[3..] == rest;
    SpelledBehind(h, rest, n, 2);
    SpelledIff(h + rest, n, 2);
  }

  lemma {:induction false} SpelledBehind(h: string, rest: string, n: nat, cnt: nat)
    requires cnt <= |h|
    ensures Spells(h + rest, n, cnt) <==> Spells(h, n, cnt)
  {
    if cnt > 0 { SpelledBehind(h, rest, n / 16, cnt - 1); }
  }

  /** Four of them behind "%u" are a code point. */
  lemma FourDigitsDecode(n: nat, h: string, rest: string, plusToSpace: bool)
    requires n < 0x10000 && |h| == 4 && Spells(h, n, 4)
    ensures Decoded("%u" + h + rest, plusToSpace) == Utf8(n) + Decoded(rest, plusToSpace)
  {
    hide Spells;
    var s := "%u" + h + rest;
    assert s[2..] == h + rest && s[6..] == rest;
    SpelledBehind(h, rest, n, 4);
    SpelledIff(h + rest, n, 4);
  }

  /** The code point of a UTF-8 sequence of up to three bytes (section 3 of RFC 3629). */
  function CodePoint(s: string): Option<nat> {
    if |s| == 1 && s[0] as int < 0x80 then Some(s[0] as int)
    else if |s| == 2 && 0xC0 <= s[0] as int < 0xE0 && IsContinuation(s[1]) then
      Some((s[0] as int - 0xC0) * 64 + ContinuationBits(s[1]))
    else if |s| == 3 && 0xE0 <= s[0] as int < 0xF0 && IsContinuation(s[1]) && IsContinuation(s[2]) then
      Some(((s[0] as int - 0xE0) * 64 + ContinuationBits(s[1])) * 64 + ContinuationBits(s[2]))
    else None
  }

  predicate IsContinuation(c: char) { 0x80 <= c as int < 0xC0 }

  function ContinuationBits(c: char): nat
    requires IsContinuation(c)
  {
    c as int - 0x80
  }

  lemma ThreeParts(code: nat)
    ensures code == (code / 4096 * 64 + code / 64 % 64) * 64 + code % 64 == code / 64 * 64 + code % 64
    ensures code < 0x10000 ==> code / 4096 < 16
    ensures code < 0x800 ==> code / 64 < 32
  {
  }

  /** A code point comes out as its UTF-8 bytes; the surrogates have none. */
  lemma CodePointOfUtf8(code: nat)
    requires code < 0x10000
    ensures if 0xD800 <= code < 0xE000 then Utf8(code) == "" else CodePoint(Utf8(code)) == Some(code)
  {
    hide CodePoint;
    ThreeParts(code);
    if code < 0x80 {
      OneByte(code);
    } else if code < 0x800 {
      TwoBytes(code / 64, code % 64);
    } else if !(0xD800 <= code < 0xE000) {
      ThreeBytes(code / 4096, code / 64 % 64, code % 64);
    }
  }

  lemma OneByte(a: nat)
    requires a < 0x80
    ensures CodePoint([a as char]) == Some(a)
  {
  }

  lemma TwoBytes(a: nat, b: nat)
    requires a < 32 && b < 64
    ensures CodePoint([(0xC0 + a) as char, (0x80 + b) as char]) == Some(a * 64 + b)
  {
  }

  lemma ThreeBytes(a: nat, b: nat, c: nat)
    requires a < 16 && b < 64 && c < 64
    ensures CodePoint([(0xE0 + a) as char, (0x80 + b) as char, (0x80 + c) as char]) == Some((a * 64 + b) * 64 + c)
  {
  }

  lemma {:induction false} DigitsIff(s: string, cnt: nat)
    ensures HexPrefix(s, cnt).Some? <==> cnt <= |s| && forall i :: 0 <= i < cnt ==> HexValue(s[i]).Some?
  {
    if cnt > 0 { DigitsIff(s, cnt - 1); }
  }

  /** A '%' is kept exactly when neither follows. */
  lemma NoEscapeIff(s: string)
    requires s != "" && s[0] == '%'
    ensures EscapeAt(s).Escaped? <==>
              || (|s| >= 3 && s[1] != 'u' && HexValue(s[1]).Some? && HexValue(s[2]).Some?)
              || (|s| >= 6 && s[1] == 'u' && forall i :: 2 <= i < 6 ==> HexValue(s[i]).Some?)
  {
    if |s| >= 2 {
      DigitsIff(s[1..], 2);
      DigitsIff(s[2..], 4);
      if |s| >= 6 { assert forall i :: 0 <= i < 4 ==> s[2..][i] == s[i + 2]; }
    }
  }

  lemma UpperDigitIs(d: nat)
    requires d < 16
    ensures ToLower(UpperHexDigit(d)) == LowerHexDigit(d)
    ensures '0' <= UpperHexDigit(d) <= '9' || 'A' <= UpperHexDigit(d) <= 'F'
  {
  }

  lemma SpelledByTwo(h: string, n: nat)
    requires |h| == 2 && n < 256
    requires ToLower(h[0]) == LowerHexDigit(n / 16) && ToLower(h[1]) == LowerHexDigit(n % 16)
    ensures Spells(h, n, 2)
  {
    hide ToLower, LowerHexDigit;
    assert Spells(h, n / 16, 1);
  }

  predicate LeftAlone(c: char) {
    'A' <= c <= 'Z' || 'a' <= c <= 'z' || '0' <= c <= '9' || c == '-' || c == '_' || c == '.' || c == '!' || c == '~'
    || c == '*' || c == '\'' || c == '(' || c == ')'
  }

  lemma LeftAloneIff(c: char)
    ensures Unreserved(c) <==> LeftAlone(c)
  {
  }

  /** The encoder leaves letters, digits and a few marks alone; every other byte becomes a '%' and the two digits, in
      capitals, that spell it. */
  lemma EncodedByteIs(c: byte)
    ensures if LeftAlone(c) then EncodedByte(c) == [c]
            else
              && |EncodedByte(c)| == 3 && EncodedByte(c)[0] == '%' && Spells(EncodedByte(c)[1..], c as int, 2)
              && forall i :: 1 <= i < 3 ==> '0' <= EncodedByte(c)[i] <= '9' || 'A' <= EncodedByte(c)[i] <= 'F'
  {
    hide Unreserved, LeftAlone, UpperHexDigit, ToLower, LowerHexDigit, Spells, EncodedByte;
    LeftAloneIff(c);
    EncodedByteParts(c);
    if !Unreserved(c) {
      var n := c as int;
      UpperDigitIs(n / 16);
      UpperDigitIs(n % 16);
      SpelledByTwo(EncodedByte(c)[1..], n);
    }
  }

  lemma EncodedByteParts(c: byte)
    ensures Unreserved(c) ==> EncodedByte(c) == [c]
    ensures !Unreserved(c) ==>
              && |EncodedByte(c)| == 3 && EncodedByte(c)[0] == '%'
              && EncodedByte(c)[1..][0] == EncodedByte(c)[1] == UpperHexDigit(c as int / 16)
              && EncodedByte(c)[1..][1] == EncodedByte(c)[2] == UpperHexDigit(c as int % 16)
  {
    hide Unreserved, UpperHexDigit;
    assert c as int % 256 == c as int;
  }
}
