/** String helpers of the .NET base library that the core relies on:
    whitespace tests, decimal formatting and parsing, prefix tests,
    Split/Join on one separator character, ASCII upper-casing and UTF-8
    encoding. Strings are sequences of Unicode scalar values. */
module Text {
  import opened Wrappers

  newtype byte = b: int | 0 <= b < 256

  /** char.IsWhiteSpace: the characters of the Unicode White_Space property. */
  predicate IsWhiteSpace(c: char) {
    ('\U{9}' <= c <= '\U{D}') || c == '\U{20}' || c == '\U{85}' || c == '\U{A0}' ||
    c == '\U{1680}' || ('\U{2000}' <= c <= '\U{200A}') || c == '\U{2028}' || c == '\U{2029}' ||
    c == '\U{202F}' || c == '\U{205F}' || c == '\U{3000}'
  }

  /** string.IsNullOrWhiteSpace */
  predicate IsNullOrWhiteSpace(s: Option<string>) {
    match s
    case None => true
    case Some(t) => forall i :: 0 <= i < |t| ==> IsWhiteSpace(t[i])
  }

  /** string.IsNullOrEmpty */
  predicate IsNullOrEmpty(s: Option<string>) {
    s == None || s == Some("")
  }

  /** The text a null string contributes to an interpolated string: nothing. */
  function Interpolated(s: Option<string>): string {
    s.GetOr("")
  }

  predicate IsDigit(c: char) {
    '0' <= c <= '9'
  }

  predicate AllDigits(s: string) {
    forall i :: 0 <= i < |s| ==> IsDigit(s[i])
  }

  function DigitChar(d: nat): (c: char)
    requires d < 10
    ensures IsDigit(c)
  {
    ['0', '1', '2', '3', '4', '5', '6', '7', '8', '9'][d]
  }

  function DigitValue(c: char): (d: nat)
    requires IsDigit(c)
    ensures d < 10
  {
    (c as int) - ('0' as int)
  }

  /** Decimal rendering of a natural number ("G" format, no leading zeros). */
  function NatToString(n: nat): (s: string)
    ensures |s| >= 1 && AllDigits(s)
    ensures (|s| > 1) == (n >= 10)
  {
    if n < 10 then [DigitChar(n)] else NatToString(n / 10) + [DigitChar(n % 10)]
  }

  /** Decimal rendering of an integer, with a leading '-' when negative. */
  function IntToString(n: int): (s: string)
    ensures |s| >= 1
  {
    if n < 0 then "-" + NatToString(-n) else NatToString(n)
  }

  /** int.Parse on a string of ASCII digits. */
  function ParseDigits(s: string): (n: nat)
    requires AllDigits(s)
  {
    if |s| == 0 then 0 else 10 * ParseDigits(s[..|s| - 1]) + DigitValue(s[|s| - 1])
  }

  lemma DigitRoundTrip(d: nat)
    requires d < 10
    ensures DigitValue(DigitChar(d)) == d
  {
  }

  /** Parsing the rendering of n gives back n. */
  lemma {:induction false} ParseNatToString(n: nat)
    ensures ParseDigits(NatToString(n)) == n
  {
    var s := NatToString(n);
    if n < 10 {
      DigitRoundTrip(n);
    } else {
      ParseNatToString(n / 10);
      DigitRoundTrip(n % 10);
      assert s[..|s| - 1] == NatToString(n / 10);
    }
  }

  /** The rendering of a number below 1000 has at most three digits. */
  lemma {:induction false} NatToStringShort(n: nat)
    requires n < 1000
    ensures |NatToString(n)| <= 3
  {
    if n >= 10 {
      NatToStringShort(n / 10);
      if n / 10 >= 10 {
        assert n / 100 < 10;
        assert |NatToString(n / 10)| == |NatToString(n / 100)| + 1;
      }
    }
  }

  /** Different numbers render differently. */
  lemma NatToStringInjective(m: nat, n: nat)
    requires NatToString(m) == NatToString(n)
    ensures m == n
  {
    ParseNatToString(m);
    ParseNatToString(n);
  }

  /** Different integers render differently: the sign character tells
      negatives from the rest, and the digits do the remainder. */
  lemma IntToStringInjective(m: int, n: int)
    requires IntToString(m) == IntToString(n)
    ensures m == n
  {
    var s := IntToString(m);
    if m < 0 {
      assert s[0] == '-' && !IsDigit(s[0]);
    } else {
      assert IsDigit(s[0]);
    }
    if n < 0 {
      assert s[0] == '-';
    } else {
      assert IsDigit(IntToString(n)[0]);
    }
    if m < 0 {
      assert s[1..] == NatToString(-m) == NatToString(-n);
      NatToStringInjective(-m, -n);
    } else {
      NatToStringInjective(m, n);
    }
  }

  /** A character-by-character (ordinal) prefix test. The source's
      string.StartsWith(string) compares with the current culture instead;
      the two agree on plain ASCII host names. */
  predicate StartsWith(s: string, prefix: string) {
    |prefix| <= |s| && s[..|prefix|] == prefix
  }

  /** The index of the first occurrence of c in s. */
  function IndexOf(s: string, c: char): (i: nat)
    requires c in s
    ensures i < |s| && s[i] == c && c !in s[..i]
  {
    if s[0] == c then 0 else 1 + IndexOf(s[1..], c)
  }

  /** string.Split(sep): the pieces between the occurrences of sep, empty
      pieces included. */
  function Split(s: string, sep: char): (parts: seq<string>)
    ensures |parts| >= 1
    decreases |s|
  {
    if sep !in s then [s]
    else
      var i := IndexOf(s, sep);
      [s[..i]] + Split(s[i + 1..], sep)
  }

  /** string.Join(sep, parts) */
  function Join(parts: seq<string>, sep: char): string {
    if |parts| == 0 then ""
    else if |parts| == 1 then parts[0]
    else parts[0] + [sep] + Join(parts[1..], sep)
  }

  /** Joining the pieces of a split with the same separator gives the input back. */
  lemma {:induction false} JoinSplit(s: string, sep: char)
    ensures Join(Split(s, sep), sep) == s
    decreases |s|
  {
    if sep in s {
      var i := IndexOf(s, sep);
      var rest := s[i + 1..];
      JoinSplit(rest, sep);
      assert Split(s, sep)[1..] == Split(rest, sep);
      assert s == s[..i] + [sep] + rest;
    }
  }

  /** A split has one more piece than there are separators in the input. */
  lemma {:induction false} SplitCount(s: string, sep: char)
    ensures |Split(s, sep)| == multiset(s)[sep] + 1
    decreases |s|
  {
    if sep in s {
      var i := IndexOf(s, sep);
      SplitCount(s[i + 1..], sep);
      assert s == s[..i] + [sep] + s[i + 1..];
      assert multiset(s[..i])[sep] == 0;
    } else {
      assert multiset(s)[sep] == 0;
    }
  }

  /** ASCII upper-casing; every other character is left alone. */
  function ToUpperAscii(s: string): (r: string)
    ensures |r| == |s|
  {
    if |s| == 0 then ""
    else
      var c := s[0];
      [if 'a' <= c <= 'z' then (c as int - 32) as char else c] + ToUpperAscii(s[1..])
  }

  /** Upper-casing a string without lower-case ASCII letters changes nothing. */
  lemma {:induction false} ToUpperNoLower(s: string)
    requires forall i :: 0 <= i < |s| ==> !('a' <= s[i] <= 'z')
    ensures ToUpperAscii(s) == s
  {
    if |s| > 0 {
      ToUpperNoLower(s[1..]);
    }
  }

  /** The UTF-8 encoding of one Unicode scalar value. */
  function EncodeChar(c: char): (bs: seq<byte>)
    ensures 1 <= |bs| <= 4
  {
    var n := c as int;
    if n < 0x80 then [n as byte]
    else if n < 0x800 then [(0xC0 + n / 0x40) as byte, (0x80 + n % 0x40) as byte]
    else if n < 0x10000 then
      [(0xE0 + n / 0x1000) as byte, (0x80 + (n / 0x40) % 0x40) as byte, (0x80 + n % 0x40) as byte]
    else
      [(0xF0 + n / 0x40000) as byte, (0x80 + (n / 0x1000) % 0x40) as byte,
       (0x80 + (n / 0x40) % 0x40) as byte, (0x80 + n % 0x40) as byte]
  }

  /** Encoding.UTF8.GetBytes */
  function Utf8(s: string): (bs: seq<byte>)
    ensures |bs| >= |s|
  {
    if |s| == 0 then [] else EncodeChar(s[0]) + Utf8(s[1..])
  }

  /** The code point whose UTF-8 encoding starts at bs[0], and its length. */
  function DecodeFirst(bs: seq<byte>): (r: (int, nat))
    requires |bs| >= 1
    ensures 1 <= r.1 <= 4
  {
    var b0 := bs[0] as int;
    if b0 < 0x80 then (b0, 1)
    else if b0 < 0xE0 then
      (if |bs| < 2 then (0xFFFD, 1) else ((b0 - 0xC0) * 0x40 + (bs[1] as int - 0x80), 2))
    else if b0 < 0xF0 then
      (if |bs| < 3 then (0xFFFD, 1)
       else ((b0 - 0xE0) * 0x1000 + (bs[1] as int - 0x80) * 0x40 + (bs[2] as int - 0x80), 3))
    else
      (if |bs| < 4 then (0xFFFD, 1)
       else ((b0 - 0xF0) * 0x40000 + (bs[1] as int - 0x80) * 0x1000
             + (bs[2] as int - 0x80) * 0x40 + (bs[3] as int - 0x80), 4))
  }

  lemma DecodeTwo(n: int, bs: seq<byte>)
    requires 0x80 <= n < 0x800 && |bs| >= 2
    requires bs[0] as int == 0xC0 + n / 0x40 && bs[1] as int == 0x80 + n % 0x40
    ensures DecodeFirst(bs) == (n, 2)
  {
    assert n / 0x40 < 0x20;
  }

  lemma DecodeThree(n: int, bs: seq<byte>)
    requires 0x800 <= n < 0x10000 && |bs| >= 3
    requires bs[0] as int == 0xE0 + n / 0x1000
    requires bs[1] as int == 0x80 + (n / 0x40) % 0x40
    requires bs[2] as int == 0x80 + n % 0x40
    ensures DecodeFirst(bs) == (n, 3)
  {
    assert n / 0x1000 < 0x10;
    var q := n / 0x40;
    assert n == q * 0x40 + n % 0x40;
    assert q == (q / 0x40) * 0x40 + q % 0x40;
    assert q / 0x40 == n / 0x1000;
  }

  lemma DecodeFour(n: int, bs: seq<byte>)
    requires 0x10000 <= n < 0x110000 && |bs| >= 4
    requires bs[0] as int == 0xF0 + n / 0x40000
    requires bs[1] as int == 0x80 + (n / 0x1000) % 0x40
    requires bs[2] as int == 0x80 + (n / 0x40) % 0x40
    requires bs[3] as int == 0x80 + n % 0x40
    ensures DecodeFirst(bs) == (n, 4)
  {
    var q := n / 0x40;
    var p := q / 0x40;
    assert n == q * 0x40 + n % 0x40;
    assert q == p * 0x40 + q % 0x40;
    assert p == n / 0x1000;
    assert p == (p / 0x40) * 0x40 + p % 0x40;
    assert p / 0x40 == n / 0x40000;
  }

  /** Decoding the first character of an encoding gives that character back
      and consumes exactly its bytes. */
  lemma DecodeEncodeChar(c: char, rest: seq<byte>)
    ensures DecodeFirst(EncodeChar(c) + rest) == (c as int, |EncodeChar(c)|)
  {
    var n := c as int;
    var e := EncodeChar(c);
    var bs := e + rest;
    assert forall k :: 0 <= k < |e| ==> bs[k] == e[k];
    if n < 0x80 {
    } else if n < 0x800 {
      DecodeTwo(n, bs);
    } else if n < 0x10000 {
      DecodeThree(n, bs);
    } else {
      DecodeFour(n, bs);
    }
  }

  /** Code points of the characters of s, in order. */
  function CodePoints(s: string): seq<int> {
    if |s| == 0 then [] else [s[0] as int] + CodePoints(s[1..])
  }

  /** Encoding.UTF8.GetString, on the output of the encoder. */
  function Utf8Decode(bs: seq<byte>): seq<int>
    decreases |bs|
  {
    if |bs| == 0 then []
    else
      var r := DecodeFirst(bs);
      [r.0] + (if r.1 <= |bs| then Utf8Decode(bs[r.1..]) else [])
  }

  /** The UTF-8 bytes of a string decode back to its characters. */
  lemma {:induction false} Utf8RoundTrip(s: string)
    ensures Utf8Decode(Utf8(s)) == CodePoints(s)
  {
    if |s| > 0 {
      var e := EncodeChar(s[0]);
      DecodeEncodeChar(s[0], Utf8(s[1..]));
      assert Utf8(s) == e + Utf8(s[1..]);
      assert Utf8(s)[|e|..] == Utf8(s[1..]);
      Utf8RoundTrip(s[1..]);
    }
  }

  /** An ASCII string encodes to one byte per character. */
  lemma {:induction false} Utf8Ascii(s: string)
    requires forall i :: 0 <= i < |s| ==> s[i] as int < 0x80
    ensures |Utf8(s)| == |s|
    ensures forall i :: 0 <= i < |s| ==> Utf8(s)[i] as int == s[i] as int
  {
    if |s| > 0 {
      Utf8Ascii(s[1..]);
    }
  }
}
