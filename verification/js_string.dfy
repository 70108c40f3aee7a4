/** The few ECMAScript string operations the document pipeline relies on: `trim`, `trimEnd`,
    `startsWith`, `indexOf`, `split('\n')` and `join('\n')`.

    Strings are sequences of Unicode scalar values. The operations below only ever look for
    characters of the Basic Multilingual Plane, so working on scalar values instead of UTF-16 code
    units never separates the two halves of a surrogate pair. */
module JsString {

  /** The ECMAScript WhiteSpace and LineTerminator code points: what `trim` removes and what the
      regular-expression class `\s` matches. */
  predicate IsWhitespaceCode(c: int) {
    c == 0x09 || c == 0x0A || c == 0x0B || c == 0x0C || c == 0x0D || c == 0x20
    || c == 0xA0 || c == 0x1680 || (0x2000 <= c <= 0x200A)
    || c == 0x2028 || c == 0x2029 || c == 0x202F || c == 0x205F || c == 0x3000 || c == 0xFEFF
  }

  predicate IsSpace(c: char) {
    IsWhitespaceCode(c as int)
  }

  /** `!s.trim()` in the original: empty or whitespace only. */
  predicate IsBlank(s: string) {
    forall i :: 0 <= i < |s| ==> IsSpace(s[i])
  }

  /** `s.trimEnd()`: the longest prefix of `s` that does not end in whitespace. */
  function TrimEnd(s: string): string
  {
    if |s| > 0 && IsSpace(s[|s| - 1]) then TrimEnd(s[..|s| - 1]) else s
  }

  /** `s.trimStart()`: the longest suffix of `s` that does not start with whitespace. */
  function TrimStart(s: string): string
  {
    if |s| > 0 && IsSpace(s[0]) then TrimStart(s[1..]) else s
  }

  /** What `trimEnd` keeps: a prefix, followed in `s` only by whitespace, that is empty or ends in
      a non-whitespace character. (Kept out of the function's own contract so that the solver
      does not unfold it wherever a trimmed string appears.) */
  lemma {:induction false} TrimEndSpec(s: string)
    ensures var r := TrimEnd(s);
            && |r| <= |s| && r == s[..|r|]
            && (forall i :: |r| <= i < |s| ==> IsSpace(s[i]))
            && (|r| > 0 ==> !IsSpace(r[|r| - 1]))
  {
    if |s| > 0 && IsSpace(s[|s| - 1]) {
      TrimEndSpec(s[..|s| - 1]);
    }
  }

  /** What `trimStart` keeps: a suffix, preceded in `s` only by whitespace, that is empty or starts
      with a non-whitespace character. */
  lemma {:induction false} TrimStartSpec(s: string)
    ensures var r := TrimStart(s);
            && |r| <= |s| && r == s[|s| - |r|..]
            && (forall i :: 0 <= i < |s| - |r| ==> IsSpace(s[i]))
            && (|r| > 0 ==> !IsSpace(r[0]))
  {
    if |s| > 0 && IsSpace(s[0]) {
      TrimStartSpec(s[1..]);
    }
  }

  /** `s.trim()` */
  function Trim(s: string): string {
    TrimStart(TrimEnd(s))
  }

  function StartsWith(s: string, prefix: string): bool {
    |prefix| <= |s| && s[..|prefix|] == prefix
  }

  /** `s.indexOf(c, from)`: the first position at or after `from` holding `c`, or -1. */
  function IndexOf(s: string, c: char, from: nat): (r: int)
    decreases |s| - from
    ensures r == -1 || from <= r < |s|
    ensures r == -1 <==> forall i :: from <= i < |s| ==> s[i] != c
    ensures r != -1 ==> s[r] == c && forall i :: from <= i < r ==> s[i] != c
  {
    if from >= |s| then -1
    else if s[from] == c then from
    else IndexOf(s, c, from + 1)
  }

  /** `lines.join('\n')`; joining no lines gives the empty string. */
  function JoinLines(lines: seq<string>): string
  {
    if |lines| == 0 then ""
    else if |lines| == 1 then lines[0]
    else lines[0] + "\n" + JoinLines(lines[1..])
  }

  /** `s.split('\n')`: never empty, no piece holds a line feed, and joining the pieces back with
      line feeds gives `s` again. */
  function SplitLines(s: string): (r: seq<string>)
    decreases |s|
    ensures |r| >= 1
    ensures forall i :: 0 <= i < |r| ==> '\n' !in r[i]
    ensures JoinLines(r) == s
  {
    var k := IndexOf(s, '\n', 0);
    if k == -1 then [s]
    else
      var rest := SplitLines(s[k + 1..]);
      assert ([s[..k]] + rest)[1..] == rest;
      assert s == s[..k] + "\n" + s[k + 1..];
      [s[..k]] + rest
  }

  /** Splitting undoes joining, as long as no line holds a line feed itself. */
  lemma {:induction false} SplitJoinLines(lines: seq<string>)
    requires |lines| >= 1
    requires forall i :: 0 <= i < |lines| ==> '\n' !in lines[i]
    ensures SplitLines(JoinLines(lines)) == lines
  {
    if |lines| == 1 {
      assert IndexOf(lines[0], '\n', 0) == -1;
    } else {
      var s := JoinLines(lines);
      var head := lines[0];
      assert s == head + "\n" + JoinLines(lines[1..]);
      assert s[|head|] == '\n';
      assert forall i :: 0 <= i < |head| ==> s[i] == head[i];
      assert IndexOf(s, '\n', 0) == |head|;
      assert s[..|head|] == head;
      assert s[|head| + 1..] == JoinLines(lines[1..]);
      SplitJoinLines(lines[1..]);
      assert lines == [head] + lines[1..];
    }
  }

  /** A string with no trailing whitespace is its own `trimEnd`. */
  lemma TrimEndOfTrimmed(s: string)
    requires |s| == 0 || !IsSpace(s[|s| - 1])
    ensures TrimEnd(s) == s
  {
  }

  /** `trim` yields the empty string exactly for whitespace-only strings. */
  lemma {:induction false} TrimEmptyIffBlank(s: string)
    ensures Trim(s) == "" <==> IsBlank(s)
  {
    var e := TrimEnd(s);
    TrimEndSpec(s);
    TrimStartSpec(e);
    if !IsBlank(s) {
      var i :| 0 <= i < |s| && !IsSpace(s[i]);
      assert i < |e|;
      assert e[i] == s[i];
    }
  }

  /** A string that starts with a non-whitespace character keeps that character first after `trim`. */
  lemma TrimKeepsFirst(s: string)
    requires |s| > 0 && !IsSpace(s[0])
    ensures |Trim(s)| > 0 && Trim(s)[0] == s[0]
  {
    var e := TrimEnd(s);
    TrimEndSpec(s);
    TrimStartSpec(e);
    assert |e| > 0;
    assert e[0] == s[0];
  }
}
