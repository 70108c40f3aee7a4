/** JavaScript strings as the font code sees them: sequences of UTF-16 code units, read code point
    by code point by `for (const char of text)` and by `codePointAt`, and code points written in
    upper-case hexadecimal by `toString(16).toUpperCase()`. */
module Utf16 {

  newtype CodeUnit = x: int | 0 <= x < 0x1_0000

  type Units = seq<CodeUnit>

  predicate IsHigh(c: CodeUnit) {
    0xD800 <= c <= 0xDBFF
  }

  predicate IsLow(c: CodeUnit) {
    0xDC00 <= c <= 0xDFFF
  }

  /** A high surrogate at `i` directly followed by a low surrogate. */
  predicate PairAt(u: Units, i: nat) {
    i + 1 < |u| && IsHigh(u[i]) && IsLow(u[i + 1])
  }

  /** `u.codePointAt(i)`: a surrogate pair combines into one code point above 0xFFFF; any other
      unit, a lone surrogate included, stands for itself. */
  function CodePointAt(u: Units, i: nat): (cp: int)
    requires i < |u|
    ensures 0 <= cp < 0x11_0000
    ensures cp > 0xFFFF <==> PairAt(u, i)
  {
    if PairAt(u, i) then 0x1_0000 + (u[i] as int - 0xD800) * 0x400 + (u[i + 1] as int - 0xDC00)
    else u[i] as int
  }

  function Concat(ps: seq<Units>): Units {
    if |ps| == 0 then [] else ps[0] + Concat(ps[1..])
  }

  /** One step of `for ... of`: a whole surrogate pair, or a single unit. */
  predicate OneCodePoint(p: Units) {
    |p| == 1 || (|p| == 2 && PairAt(p, 0))
  }

  /** The strings `for (const char of u)` visits, in order. */
  function CodePoints(u: Units): (r: seq<Units>)
    decreases |u|
  {
    if |u| == 0 then []
    else if PairAt(u, 0) then [u[..2]] + CodePoints(u[2..])
    else [u[..1]] + CodePoints(u[1..])
  }

  /** The iteration loses nothing. */
  lemma {:induction false} CodePointsConcat(u: Units)
    ensures Concat(CodePoints(u)) == u
    decreases |u|
  {
    if |u| > 0 {
      var n := if PairAt(u, 0) then 2 else 1;
      CodePointsConcat(u[n..]);
      assert CodePoints(u) == [u[..n]] + CodePoints(u[n..]);
      assert ([u[..n]] + CodePoints(u[n..]))[1..] == CodePoints(u[n..]);
      assert u == u[..n] + u[n..];
    }
  }

  /** The iteration visits one code point at a time and never splits a pair: a single high
      surrogate is never followed by a low one. */
  lemma {:induction false} CodePointsPieces(u: Units)
    ensures forall j :: 0 <= j < |CodePoints(u)| ==> OneCodePoint(CodePoints(u)[j])
    ensures forall j :: 0 <= j < |CodePoints(u)| - 1 && |CodePoints(u)[j]| == 1 && |CodePoints(u)[j + 1]| > 0 ==>
              !(IsHigh(CodePoints(u)[j][0]) && IsLow(CodePoints(u)[j + 1][0]))
    decreases |u|
  {
    if |u| > 0 {
      var n := if PairAt(u, 0) then 2 else 1;
      var r := CodePoints(u);
      var rest := CodePoints(u[n..]);
      CodePointsPieces(u[n..]);
      assert r == [u[..n]] + rest;
      forall j | 0 < j < |r|
        ensures r[j] == rest[j - 1]
      {
      }
      if |rest| > 0 {
        assert rest[0][0] == u[n];
      }
    }
  }

  /** The UTF-16 encoding of one Unicode scalar value. */
  function EncodeChar(c: char): (p: Units)
    ensures OneCodePoint(p)
  {
    var v := c as int;
    if v < 0x1_0000 then [v as CodeUnit]
    else
      var w := v - 0x1_0000;
      [(0xD800 + w / 0x400) as CodeUnit, (0xDC00 + w % 0x400) as CodeUnit]
  }

  /** The UTF-16 encoding of a string of scalar values. */
  function Encode(s: string): Units {
    if |s| == 0 then [] else EncodeChar(s[0]) + Encode(s[1..])
  }

  /** Decoding the encoding of a character gives the character back. */
  lemma DecodeChar(c: char)
    ensures CodePointAt(EncodeChar(c), 0) == c as int
  {
    var v := c as int;
    if v >= 0x1_0000 {
      var w := v - 0x1_0000;
      assert w == (w / 0x400) * 0x400 + w % 0x400;
    }
  }

  /** Iterating over an encoded string visits exactly the encodings of its characters, so on text
      that came from scalar values `for ... of` and `codePointAt` see the original characters. */
  lemma {:induction false} CodePointsEncode(s: string)
    ensures CodePoints(Encode(s)) == seq(|s|, i requires 0 <= i < |s| => EncodeChar(s[i]))
    decreases |s|
  {
    if |s| > 0 {
      var p := EncodeChar(s[0]);
      var u := Encode(s);
      CodePointsEncode(s[1..]);
      assert u[..|p|] == p && u[|p|..] == Encode(s[1..]);
    }
  }

  /** The upper-case hexadecimal digit for `d`. */
  function Digit(d: nat): char
    requires d < 16
  {
    "0123456789ABCDEF"[d]
  }

  function DigitValue(ch: char): nat {
    if '0' <= ch <= '9' then ch as nat - '0' as nat
    else if 'A' <= ch <= 'F' then ch as nat - 'A' as nat + 10
    else 0
  }

  predicate IsHexDigit(ch: char) {
    '0' <= ch <= '9' || 'A' <= ch <= 'F'
  }

  /** `n.toString(16).toUpperCase()`. */
  function Hex(n: nat): (s: string)
    ensures |s| > 0 && forall i :: 0 <= i < |s| ==> IsHexDigit(s[i])
    ensures s[0] == '0' ==> n == 0
  {
    if n < 16 then [Digit(n)] else Hex(n / 16) + [Digit(n % 16)]
  }

  /** The number a string of hexadecimal digits denotes. */
  function HexValue(s: string): nat {
    if |s| == 0 then 0 else HexValue(s[..|s| - 1]) * 16 + DigitValue(s[|s| - 1])
  }

  /** The hexadecimal text denotes the number: reading it back gives `n`, so distinct code points
      get distinct keys. */
  lemma {:induction false} HexRoundTrip(n: nat)
    ensures HexValue(Hex(n)) == n
    decreases n
  {
    var s := Hex(n);
    if n >= 16 {
      HexRoundTrip(n / 16);
      assert s[..|s| - 1] == Hex(n / 16);
      DigitRoundTrip(n % 16);
      assert HexValue(s) == n / 16 * 16 + n % 16;
    } else {
      DigitRoundTrip(n);
      assert HexValue(s) == HexValue([]) * 16 + DigitValue(Digit(n));
    }
  }

  lemma DigitRoundTrip(d: nat)
    requires d < 16
    ensures DigitValue(Digit(d)) == d
  {
  }

  lemma HexInjective(a: nat, b: nat)
    requires Hex(a) == Hex(b)
    ensures a == b
  {
    HexRoundTrip(a);
    HexRoundTrip(b);
  }
}
