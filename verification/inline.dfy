/** The inline segmenter (`splitIM` in components/Preview.tsx) and the whitespace tokenisation that
    turns a paragraph's text segments into word boxes and spacers. */
module Inline {
  import opened JsString

  /** `InlineSegment` of types.ts: `t` is literal text, `m` is the TeX source of inline math. */
  datatype Segment = Text(c: string) | Math(c: string)

  /** The source text a segment stands for: math is written between two dollar signs. */
  function SourceOf(g: Segment): string {
    match g
    case Text(c) => c
    case Math(c) => "$" + c + "$"
  }

  /** The source text of a segment list, read left to right. */
  function Assemble(segs: seq<Segment>): string {
    if |segs| == 0 then "" else SourceOf(segs[0]) + Assemble(segs[1..])
  }

  /** A dollar sign without a partner: the text from it to the end of the line has no other `$`. */
  predicate Unmatched(c: string) {
    |c| > 0 && c[0] == '$' && '$' !in c[1..]
  }

  /** The segment lists `splitIM` can produce: math holds no `$`; text is never empty and holds no
      `$` unless it is the unmatched tail, which comes last; and two text segments are adjacent
      only when the second is that tail. */
  predicate Canonical(segs: seq<Segment>)
    decreases |segs|
  {
    if |segs| == 0 then true
    else match segs[0]
      case Math(c) => '$' !in c && Canonical(segs[1..])
      case Text(c) =>
        || (|segs| == 1 && (Unmatched(c) || (|c| > 0 && '$' !in c)))
        || (|segs| == 2 && |c| > 0 && '$' !in c && segs[1].Text? && Unmatched(segs[1].c))
        || (|segs| >= 2 && |c| > 0 && '$' !in c && segs[1].Math? && Canonical(segs[1..]))
  }

  /** `splitIM`: text before the first `$` is text, text between it and the next `$` is math, and
      a `$` with no partner starts a final text segment that keeps the dollar sign. What the result
      means is stated by `SplitIMSpec` and `SplitAssemble`. */
  function SplitIM(t: string): seq<Segment>
    decreases |t|
  {
    if |t| == 0 then []
    else
      var a := IndexOf(t, '$', 0);
      if a == -1 then [Text(t)]
      else
        var b := IndexOf(t, '$', a + 1);
        if b == -1 then (if a > 0 then [Text(t[..a])] else []) + [Text(t[a..])]
        else (if a > 0 then [Text(t[..a])] else []) + [Math(t[a + 1..b])] + SplitIM(t[b + 1..])
  }

  /** Nothing is lost (assembling the segments gives the line back), only the empty line gives no
      segments, and the result is canonical. */
  lemma {:induction false} SplitIMSpec(t: string)
    ensures Assemble(SplitIM(t)) == t
    ensures |SplitIM(t)| == 0 <==> |t| == 0
    ensures Canonical(SplitIM(t))
    decreases |t|
  {
    if |t| > 0 {
      var a := IndexOf(t, '$', 0);
      if a == -1 {
        LoneText(t);
      } else {
        var b := IndexOf(t, '$', a + 1);
        if b == -1 {
          UnmatchedTail(t, a);
        } else {
          SplitIMSpec(t[b + 1..]);
          MathThenRest(t, a, b, SplitIM(t[b + 1..]));
        }
      }
    }
  }

  lemma {:induction false} LoneText(t: string)
    requires |t| > 0 && '$' !in t
    ensures Assemble([Text(t)]) == t && Canonical([Text(t)])
  {
  }

  /** The loop's exit for an unmatched `$` at `a`. */
  lemma {:induction false} UnmatchedTail(t: string, a: nat)
    requires a < |t| && t[a] == '$' && '$' !in t[..a] && '$' !in t[a + 1..]
    ensures var r := (if a > 0 then [Text(t[..a])] else []) + [Text(t[a..])];
            Assemble(r) == t && Canonical(r)
  {
    assert t[a..][1..] == t[a + 1..];
    if a > 0 {
      AssemblePair(t[..a], t[a..]);
      assert [Text(t[..a])] + [Text(t[a..])] == [Text(t[..a]), Text(t[a..])];
      assert t == t[..a] + t[a..];
    } else {
      assert [] + [Text(t[a..])] == [Text(t)];
    }
  }

  lemma {:induction false} AssemblePair(c: string, d: string)
    ensures Assemble([Text(c), Text(d)]) == c + d
  {
    assert [Text(c), Text(d)][1..] == [Text(d)];
    assert Assemble([Text(d)]) == d;
  }

  /** One full turn of the loop: optional text, one math segment, then the segments of the rest. */
  lemma MathThenRest(t: string, a: nat, b: nat, rest: seq<Segment>)
    requires a < b < |t| && t[a] == '$' && t[b] == '$'
    requires '$' !in t[..a] && '$' !in t[a + 1..b]
    requires Assemble(rest) == t[b + 1..] && Canonical(rest)
    ensures var r := (if a > 0 then [Text(t[..a])] else []) + [Math(t[a + 1..b])] + rest;
            Assemble(r) == t && Canonical(r)
  {
    var u := t[a..];
    MathSlices(t, a, b);
    MathFirst(u, b - a, rest);
    if a > 0 {
      TextThenMath(t, a, [Math(t[a + 1..b])] + rest);
    } else {
      assert [] + [Math(t[a + 1..b])] + rest == [Math(t[a + 1..b])] + rest;
    }
  }

  /** A turn of the loop that finds `$` at the front of the line and the next one at `b`. */
  lemma MathFirst(t: string, b: nat, rest: seq<Segment>)
    requires 0 < b < |t| && t[0] == '$' && t[b] == '$'
    requires '$' !in t[1..b]
    requires Assemble(rest) == t[b + 1..] && Canonical(rest)
    ensures Assemble([Math(t[1..b])] + rest) == t && Canonical([Math(t[1..b])] + rest)
  {
    MathCons(t[1..b], rest);
    DelimitedAt(t, 0, b);
    assert t[0..] == t;
  }

  /** The slices of `t[a..]` around its closing `$` at `b`, as slices of `t`. */
  lemma MathSlices(t: string, a: nat, b: nat)
    requires a < b < |t|
    ensures t[a..][1..b - a] == t[a + 1..b]
    ensures t[a..][b - a + 1..] == t[b + 1..]
    ensures t[a..][0] == t[a] && t[a..][b - a] == t[b]
  {
  }

  /** Text before the first `$` at `a`, in front of segments that spell the rest of the line. */
  lemma TextThenMath(t: string, a: nat, m: seq<Segment>)
    requires 0 < a < |t|
    requires '$' !in t[..a]
    requires Assemble(m) == t[a..] && Canonical(m) && |m| > 0 && m[0].Math?
    ensures Assemble([Text(t[..a])] + m) == t && Canonical([Text(t[..a])] + m)
  {
    TextCons(t[..a], m);
    Halves(t, a);
  }

  lemma Halves(t: string, a: nat)
    requires a <= |t|
    ensures t[..a] + t[a..] == t
  {
  }

  /** How the source splits around a math span delimited at `a` and `b`. */
  lemma DelimitedAt(t: string, a: nat, b: nat)
    requires a < b < |t| && t[a] == '$' && t[b] == '$'
    ensures t[a..] == "$" + t[a + 1..b] + "$" + t[b + 1..]
  {
  }

  lemma MathCons(x: string, rest: seq<Segment>)
    requires '$' !in x && Canonical(rest)
    ensures Assemble([Math(x)] + rest) == "$" + x + "$" + Assemble(rest)
    ensures Canonical([Math(x)] + rest)
  {
    assert ([Math(x)] + rest)[1..] == rest;
  }

  lemma TextCons(c: string, segs: seq<Segment>)
    requires |c| > 0 && '$' !in c && Canonical(segs) && |segs| > 0 && segs[0].Math?
    ensures Assemble([Text(c)] + segs) == c + Assemble(segs)
    ensures Canonical([Text(c)] + segs)
  {
    assert ([Text(c)] + segs)[1..] == segs;
  }

  /** The shape promised for every segmentation: text segments are never empty, math holds no `$`,
      and only a final unmatched text segment holds a `$`. */
  lemma {:induction false} CanonicalShape(segs: seq<Segment>)
    requires Canonical(segs)
    ensures forall i :: 0 <= i < |segs| && segs[i].Text? ==> |segs[i].c| > 0
    ensures forall i :: 0 <= i < |segs| && segs[i].Math? ==> '$' !in segs[i].c
    ensures forall i :: 0 <= i < |segs| && '$' in segs[i].c ==> i == |segs| - 1 && segs[i].Text? && Unmatched(segs[i].c)
    decreases |segs|
  {
    if |segs| > 0 {
      if segs[0].Math? || |segs| > 2 || (|segs| == 2 && segs[1].Math?) {
        CanonicalShape(segs[1..]);
      }
      forall i | 1 <= i < |segs|
        ensures segs[i] == segs[1..][i - 1]
      {
      }
    }
  }

  /** The segment-shape guarantees of `splitIM`, for every line. */
  lemma {:induction false} SplitIMShape(t: string)
    ensures var r := SplitIM(t);
            && (forall i :: 0 <= i < |r| && r[i].Text? ==> |r[i].c| > 0)
            && (forall i :: 0 <= i < |r| && r[i].Math? ==> '$' !in r[i].c)
            && (forall i :: 0 <= i < |r| && '$' in r[i].c ==> i == |r| - 1 && r[i].Text? && Unmatched(r[i].c))
  {
    SplitIMSpec(t);
    CanonicalShape(SplitIM(t));
  }

  /** On canonical lists segmentation undoes assembly. With `SplitIMSpec` this makes `SplitIM` and
      `Assemble` inverse bijections between lines and canonical segment lists. */
  lemma SplitAssemble(segs: seq<Segment>)
    requires Canonical(segs)
    ensures SplitIM(Assemble(segs)) == segs
  {
    SplitIMSpec(Assemble(segs));
    CanonicalUnique(SplitIM(Assemble(segs)), segs);
  }

  /** A canonical segment list is determined by its source text. */
  lemma {:induction false} CanonicalUnique(s1: seq<Segment>, s2: seq<Segment>)
    requires Canonical(s1) && Canonical(s2) && Assemble(s1) == Assemble(s2)
    ensures s1 == s2
    decreases |s1|
  {
    if |s1| > 0 {
      HeadFacts(s1);
    }
    if |s2| > 0 {
      HeadFacts(s2);
    }
    if |s1| > 0 && |s2| > 0 {
      FirstAgrees(s1, s2);
      CanonicalUnique(s1[1..], s2[1..]);
      assert s1 == [s1[0]] + s1[1..];
      assert s2 == [s2[0]] + s2[1..];
    }
  }

  /** Text that ends at the end of the line or at a dollar sign. */
  predicate Stops(u: string) {
    |u| == 0 || u[0] == '$'
  }

  /** Dollar-free text followed by a stop is exactly the part of the string before its first `$`. */
  lemma TextBeforeStop(c: string, u: string)
    requires '$' !in c && Stops(u)
    ensures IndexOf(c + u, '$', 0) == if |u| == 0 then -1 else |c|
  {
    var t := c + u;
    assert forall i :: 0 <= i < |c| ==> t[i] == c[i];
    if |u| > 0 {
      assert t[|c|] == '$';
    }
  }

  /** Two ways of writing one string as dollar-free text followed by a stop agree. */
  lemma SamePrefix(c1: string, u1: string, c2: string, u2: string)
    requires '$' !in c1 && '$' !in c2 && Stops(u1) && Stops(u2) && c1 + u1 == c2 + u2
    ensures c1 == c2 && u1 == u2
  {
    var t := c1 + u1;
    TextBeforeStop(c1, u1);
    TextBeforeStop(c2, u2);
    assert |c1| == |c2|;
    assert c1 == t[..|c1|] == c2;
    assert u1 == t[|c1|..] == u2;
  }

  /** Two inline math spans opening the same string have the same content and leave the same rest. */
  lemma SameMath(x1: string, a1: string, x2: string, a2: string)
    requires '$' !in x1 && '$' !in x2 && "$" + x1 + "$" + a1 == "$" + x2 + "$" + a2
    ensures x1 == x2 && a1 == a2
  {
    var t := "$" + x1 + "$" + a1;
    assert t[1..] == x1 + ("$" + a1);
    assert t[1..] == x2 + ("$" + a2);
    SamePrefix(x1, "$" + a1, x2, "$" + a2);
    assert a1 == ("$" + a1)[1..];
    assert a2 == ("$" + a2)[1..];
  }

  /** What the first segment of a canonical list says about its source text `t`: math opens with
      a `$` and has a second one after it, an unmatched tail is the whole of `t`, and any other
      text is dollar-free, does not open with `$`, and stops where the rest begins. */
  lemma HeadFacts(segs: seq<Segment>)
    requires Canonical(segs) && |segs| > 0
    ensures Assemble(segs) == SourceOf(segs[0]) + Assemble(segs[1..])
    ensures Canonical(segs[1..])
    ensures |Assemble(segs)| > 0
    ensures segs[0].Math? ==> '$' !in segs[0].c && Assemble(segs)[0] == '$' && '$' in Assemble(segs)[1..]
    ensures segs[0].Text? && Unmatched(segs[0].c) ==>
              |segs| == 1 && Assemble(segs) == segs[0].c && '$' !in Assemble(segs)[1..]
    ensures segs[0].Text? && !Unmatched(segs[0].c) ==>
              '$' !in segs[0].c && Assemble(segs)[0] != '$' && Stops(Assemble(segs[1..]))
  {
    var t := Assemble(segs);
    if |segs| >= 2 {
      assert segs[1..][1..] == segs[2..];
      assert Assemble(segs[1..]) == SourceOf(segs[1]) + Assemble(segs[2..]);
    }
    if segs[0].Math? {
      assert t[1..][|segs[0].c|] == '$';
    }
  }

  /** Two canonical lists with the same source open with the same segment. */
  lemma FirstAgrees(s1: seq<Segment>, s2: seq<Segment>)
    requires Canonical(s1) && Canonical(s2) && |s1| > 0 && |s2| > 0 && Assemble(s1) == Assemble(s2)
    ensures s1[0] == s2[0] && Assemble(s1[1..]) == Assemble(s2[1..])
  {
    HeadFacts(s1);
    HeadFacts(s2);
    var t := Assemble(s1);
    var a1, a2 := Assemble(s1[1..]), Assemble(s2[1..]);
    if s1[0].Math? && s2[0].Math? {
      SameMath(s1[0].c, a1, s2[0].c, a2);
    } else if s1[0].Text? && s2[0].Text? && !Unmatched(s1[0].c) && !Unmatched(s2[0].c) {
      SamePrefix(s1[0].c, a1, s2[0].c, a2);
    }
  }

  /** One run of the paragraph tokeniser (`split(/(\s+)/)` with empty strings dropped): a word
      becomes a box drawn with the font, a whitespace run becomes a fixed-width spacer. */
  datatype Run = Word(w: string) | Gap(ws: string)

  function RunText(r: Run): string {
    match r
    case Word(w) => w
    case Gap(ws) => ws
  }

  function JoinRuns(rs: seq<Run>): string {
    if |rs| == 0 then "" else RunText(rs[0]) + JoinRuns(rs[1..])
  }

  /** The length of the longest prefix of `s`, starting at `from`, whose characters are all
      whitespace (`space`) or all not whitespace (`!space`). */
  function RunEnd(s: string, from: nat, space: bool): (k: nat)
    requires from <= |s|
    decreases |s| - from
    ensures from <= k <= |s|
    ensures forall i :: from <= i < k ==> IsSpace(s[i]) == space
    ensures k < |s| ==> IsSpace(s[k]) != space
  {
    if from == |s| || IsSpace(s[from]) != space then from else RunEnd(s, from + 1, space)
  }

  /** A run is non-empty; a gap is all whitespace and a word holds none. */
  predicate RunOk(run: Run) {
    match run
    case Gap(ws) => |ws| > 0 && IsBlank(ws)
    case Word(w) => |w| > 0 && NoSpace(w)
  }

  predicate NoSpace(w: string) {
    forall j :: 0 <= j < |w| ==> !IsSpace(w[j])
  }

  /** The properties of a tokenisation: every run is well formed, and consecutive runs alternate
      between words and gaps (the runs are maximal). */
  predicate Alternating(r: seq<Run>) {
    && (forall i :: 0 <= i < |r| ==> RunOk(r[i]))
    && (forall i :: 0 < i < |r| ==> r[i - 1].Gap? != r[i].Gap?)
  }

  /** `s.split(/(\s+)/)` with the empty strings dropped: the maximal whitespace and
      non-whitespace runs of `s`, in order. What they satisfy is stated by `TokeniseJoin` and
      `TokeniseAlternating`. */
  function Tokenise(s: string): seq<Run>
    decreases |s|
  {
    if |s| == 0 then []
    else
      var space := IsSpace(s[0]);
      var k := RunEnd(s, 0, space);
      (if space then [Gap(s[..k])] else [Word(s[..k])]) + Tokenise(s[k..])
  }

  /** The runs spell `s`. */
  lemma {:induction false} TokeniseJoin(s: string)
    ensures JoinRuns(Tokenise(s)) == s
    decreases |s|
  {
    if |s| > 0 {
      var k := RunEnd(s, 0, IsSpace(s[0]));
      var run := if IsSpace(s[0]) then Gap(s[..k]) else Word(s[..k]);
      var rest := Tokenise(s[k..]);
      TokeniseJoin(s[k..]);
      JoinCons(run, rest);
      assert RunText(run) == s[..k];
      calc {
        JoinRuns(Tokenise(s));
        RunText(run) + JoinRuns(rest);
        s[..k] + s[k..];
        { assert s == s[..k] + s[k..]; }
        s;
      }
    }
  }

  lemma JoinCons(run: Run, rest: seq<Run>)
    ensures JoinRuns([run] + rest) == RunText(run) + JoinRuns(rest)
  {
    assert ([run] + rest)[1..] == rest;
  }

  /** There are no runs only for the empty string, the first run is a gap exactly when `s` starts
      with whitespace, and the runs are well formed and alternate. */
  lemma {:induction false} TokeniseAlternating(s: string)
    ensures |Tokenise(s)| > 0 <==> |s| > 0
    ensures |Tokenise(s)| > 0 ==> Tokenise(s)[0].Gap? == IsSpace(s[0])
    ensures Alternating(Tokenise(s))
    decreases |s|
  {
    if |s| > 0 {
      var k := RunEnd(s, 0, IsSpace(s[0]));
      var run := if IsSpace(s[0]) then Gap(s[..k]) else Word(s[..k]);
      var rest := Tokenise(s[k..]);
      assert Tokenise(s) == [run] + rest;
      TokeniseAlternating(s[k..]);
      FirstRun(s, k, run);
      ConsAlternating(run, rest);
    }
  }

  /** The run cut off the front of `s` by `RunEnd` is well formed and spells `s[..k]`. */
  lemma FirstRun(s: string, k: nat, run: Run)
    requires 0 < k <= |s|
    requires forall i :: 0 <= i < k ==> IsSpace(s[i]) == IsSpace(s[0])
    requires run == if IsSpace(s[0]) then Gap(s[..k]) else Word(s[..k])
    ensures RunOk(run) && RunText(run) == s[..k] && run.Gap? == IsSpace(s[0])
  {
    forall j | 0 <= j < k
      ensures s[..k][j] == s[j]
    {
    }
  }

  lemma ConsAlternating(run: Run, rest: seq<Run>)
    requires RunOk(run) && Alternating(rest)
    requires |rest| > 0 ==> rest[0].Gap? != run.Gap?
    ensures Alternating([run] + rest)
  {
    var r := [run] + rest;
    forall i | 0 < i < |r|
      ensures r[i] == rest[i - 1]
    {
    }
  }

  /** The tokenisation is the only list of well-formed, alternating runs that spells its text, so
      with `TokeniseJoin` and `TokeniseAlternating` it is characterised by those properties alone. */
  lemma {:induction false} TokeniseUnique(rs: seq<Run>)
    requires Alternating(rs)
    ensures Tokenise(JoinRuns(rs)) == rs
    decreases |rs|
  {
    if |rs| > 0 {
      var more := JoinRuns(rs[1..]);
      AlternatingTail(rs);
      TokeniseUnique(rs[1..]);
      if |rs| > 1 {
        RunChars(rs[1]);
        JoinRunsHead(rs[1..]);
      }
      TokeniseCons(rs[0], more);
      assert JoinRuns(rs) == RunText(rs[0]) + more;
      assert rs == [rs[0]] + rs[1..];
    }
  }

  /** A well-formed run followed by text that starts with the other kind of character is cut off
      as the first run. */
  lemma TokeniseCons(run: Run, more: string)
    requires RunOk(run)
    requires |more| > 0 ==> IsSpace(more[0]) != run.Gap?
    ensures Tokenise(RunText(run) + more) == [run] + Tokenise(more)
  {
    var w := RunText(run);
    var s := w + more;
    RunChars(run);
    RunStops(w, more, run.Gap?);
    RunEndAt(s, 0, run.Gap?, |w|);
    assert s[..|w|] == w && s[|w|..] == more;
  }

  /** A well-formed run is non-empty, and its characters are whitespace exactly when it is a gap. */
  lemma RunChars(run: Run)
    requires RunOk(run)
    ensures |RunText(run)| > 0
    ensures forall i :: 0 <= i < |RunText(run)| ==> IsSpace(RunText(run)[i]) == run.Gap?
  {
  }

  lemma AlternatingTail(rs: seq<Run>)
    requires |rs| > 0 && Alternating(rs)
    ensures Alternating(rs[1..])
  {
    var t := rs[1..];
    forall i | 0 < i < |t|
      ensures t[i - 1].Gap? != t[i].Gap?
    {
      assert t[i - 1] == rs[i] && t[i] == rs[i + 1];
    }
  }

  lemma JoinRunsHead(rs: seq<Run>)
    requires |rs| > 0 && |RunText(rs[0])| > 0
    ensures |JoinRuns(rs)| > 0 && JoinRuns(rs)[0] == RunText(rs[0])[0]
  {
  }

  /** A run followed by text that starts with the other kind of character ends where the run ends. */
  lemma RunStops(w: string, more: string, space: bool)
    requires |w| > 0 && forall i :: 0 <= i < |w| ==> IsSpace(w[i]) == space
    requires |more| > 0 ==> IsSpace(more[0]) != space
    ensures forall i :: 0 <= i < |w| ==> IsSpace((w + more)[i]) == space
    ensures |w| < |w + more| ==> IsSpace((w + more)[|w|]) != space
  {
  }

  /** `RunEnd` stops at the first character of the other kind. */
  lemma {:induction false} RunEndAt(s: string, from: nat, space: bool, k: nat)
    requires from <= k <= |s|
    requires forall i :: from <= i < k ==> IsSpace(s[i]) == space
    requires k < |s| ==> IsSpace(s[k]) != space
    ensures RunEnd(s, from, space) == k
    decreases k - from
  {
    if from < k {
      RunEndAt(s, from + 1, space, k);
    }
  }
}
