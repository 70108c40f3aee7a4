/** The document parser (`parseDoc` in components/Preview.tsx): raw text is cut into lines and
    every line, or every `$$`-fenced region, becomes one typed block. */
module DocParser {
  import opened JsString

  /** `ParseBlock` of types.ts: `h` (with level `l`), `p`, `bm`, `hr` and `e`. */
  datatype ParseBlock =
    | Heading(level: nat, text: string)
    | Paragraph(text: string)
    | BlockMath(tex: string)
    | Rule
    | Blank

  /** A line that opens or closes a display-math region: `$$` once surrounding whitespace is trimmed. */
  predicate IsFence(line: string) {
    Trim(line) == "$$"
  }

  /** The heading marker of a level: `# `, `## ` or `### `. */
  function Marker(level: nat): string
    requires 1 <= level <= 3
  {
    if level == 1 then "# " else if level == 2 then "## " else "### "
  }

  /** The first fence at or after `from`, or the number of lines when the region is never closed. */
  function CloseIndex(lines: seq<string>, from: nat): (k: nat)
    requires from <= |lines|
    decreases |lines| - from
    ensures from <= k <= |lines|
    ensures k < |lines| ==> IsFence(lines[k])
    ensures forall j :: from <= j < k ==> !IsFence(lines[j])
  {
    if from == |lines| || IsFence(lines[from]) then from else CloseIndex(lines, from + 1)
  }

  /** The block a single non-fence line becomes. The line loses its trailing whitespace first; then
      the tests run in the order of the original: rule, the three heading markers, blank, and
      otherwise a paragraph holding the trimmed line. */
  function ClassifyLine(line: string): (b: ParseBlock)
    ensures var ln := TrimEnd(line);
            && (b == Rule <==> Trim(ln) == "---" || Trim(ln) == "***")
            && (b.Heading? ==> 1 <= b.level <= 3 && ln == Marker(b.level) + b.text)
            && (b.Heading? ==> |b.text| > 0 && !IsSpace(b.text[|b.text| - 1]))
            && ((b.Heading? && b.level == 1) <==> b != Rule && StartsWith(ln, "# "))
            && (b == Blank <==> IsBlank(line))
            && (b.Paragraph? ==> b.text == ln && !IsBlank(ln))
            && (b.Paragraph? ==> !StartsWith(ln, "## ") && !StartsWith(ln, "### "))
            && !b.BlockMath?
  {
    var ln := TrimEnd(line);
    TrimEndSpec(line);
    TrimEmptyIffBlank(ln);
    assert IsBlank(ln) <==> IsBlank(line);
    if Trim(ln) == "---" || Trim(ln) == "***" then Rule
    else if StartsWith(ln, "# ") then HeadingAfter(ln, 1)
    else if StartsWith(ln, "## ") then HeadingAfter(ln, 2)
    else if StartsWith(ln, "### ") then HeadingAfter(ln, 3)
    else if Trim(ln) == "" then Blank
    else Paragraph(ln)
  }

  /** The three markers exclude each other, so each heading level is recognised by its own marker
      alone, whatever order the tests run in. */
  lemma HeadingLevels(line: string)
    ensures var b := ClassifyLine(line);
            var ln := TrimEnd(line);
            && ((b.Heading? && b.level == 2) <==> b != Rule && StartsWith(ln, "## "))
            && ((b.Heading? && b.level == 3) <==> b != Rule && StartsWith(ln, "### "))
  {
    var ln := TrimEnd(line);
    if StartsWith(ln, "## ") {
      assert ln[1] == '#';
    }
    if StartsWith(ln, "### ") {
      assert ln[1] == '#' && ln[2] == '#';
    }
  }

  /** The heading of a line that starts with the marker of `level`: the rest of the line after the
      marker, which is never empty because the line has no trailing whitespace. */
  function HeadingAfter(ln: string, level: nat): (b: ParseBlock)
    requires 1 <= level <= 3 && StartsWith(ln, Marker(level))
    requires |ln| == 0 || !IsSpace(ln[|ln| - 1])
    ensures b.Heading? && b.level == level && ln == Marker(level) + b.text
    ensures |b.text| > 0 && !IsSpace(b.text[|b.text| - 1])
  {
    var m := Marker(level);
    assert ln[|m| - 1] == ' ';
    assert |ln| > |m|;
    assert ln == m + ln[|m|..];
    Heading(level, ln[|m|..])
  }

  /** One iteration of the scanning loop of `parseDoc`: the block it pushes and how many lines it
      consumes. A fence consumes its region and the closing fence; an unterminated region runs to
      the end of the input. */
  function Scan(lines: seq<string>): (r: (ParseBlock, nat))
    requires |lines| > 0
    ensures 1 <= r.1 <= |lines|
  {
    var ln := TrimEnd(lines[0]);
    if Trim(ln) == "$$" then
      var k := CloseIndex(lines, 1);
      (BlockMath(JoinLines(lines[1..k])), if k < |lines| then k + 1 else k)
    else
      (ClassifyLine(lines[0]), 1)
  }

  /** The scanning loop of `parseDoc` over the lines that remain. */
  function ParseLines(lines: seq<string>): (r: seq<ParseBlock>)
    decreases |lines|
    ensures |r| <= |lines|
    ensures |lines| > 0 ==> |r| > 0
  {
    if |lines| == 0 then []
    else
      var (b, used) := Scan(lines);
      [b] + ParseLines(lines[used..])
  }

  /** `parseDoc`: never empty, since even the empty text is one (blank) line. */
  function ParseDoc(s: string): (r: seq<ParseBlock>)
    ensures 1 <= |r| <= |SplitLines(s)|
  {
    ParseLines(SplitLines(s))
  }

  lemma TrimEndTrim(s: string)
    ensures Trim(TrimEnd(s)) == Trim(s)
  {
    TrimEndSpec(s);
    TrimEndOfTrimmed(TrimEnd(s));
  }

  /** A line that is not a fence yields exactly one block, and parsing goes on with the next line. */
  lemma OrdinaryLine(line: string, rest: seq<string>)
    requires !IsFence(line)
    ensures ParseLines([line] + rest) == [ClassifyLine(line)] + ParseLines(rest)
  {
    TrimEndTrim(line);
    assert ([line] + rest)[1..] == rest;
  }

  /** How parsing proceeds at a fence line: one display-math block up to the closing fence (or the
      end of input), then the lines after it. */
  lemma {:induction false} AtFence(lines: seq<string>)
    requires |lines| > 0 && IsFence(lines[0])
    ensures var k := CloseIndex(lines, 1);
            var next := if k < |lines| then k + 1 else k;
            ParseLines(lines) == [BlockMath(JoinLines(lines[1..k]))] + ParseLines(lines[next..])
  {
    TrimEndTrim(lines[0]);
    assert Trim(TrimEnd(lines[0])) == "$$";
  }

  /** A fenced region becomes one display-math block holding the raw inner lines joined by line
      feeds; the closing fence is consumed. */
  lemma {:induction false} FencedRegion(open: string, body: seq<string>, close: string, rest: seq<string>)
    requires IsFence(open) && IsFence(close)
    requires forall i :: 0 <= i < |body| ==> !IsFence(body[i])
    ensures ParseLines([open] + body + [close] + rest) == [BlockMath(JoinLines(body))] + ParseLines(rest)
  {
    var lines := [open] + body + [close] + rest;
    var k := |body| + 1;
    assert lines[1..k] == body;
    assert lines[k + 1..] == rest;
    assert lines[k] == close;
    NoFenceBefore(lines, body);
    CloseIndexAt(lines, 1, k);
    AtFence(lines);
  }

  /** A region whose closing fence never comes swallows the rest of the document. */
  lemma {:induction false} UnterminatedRegion(open: string, body: seq<string>)
    requires IsFence(open)
    requires forall i :: 0 <= i < |body| ==> !IsFence(body[i])
    ensures ParseLines([open] + body) == [BlockMath(JoinLines(body))]
  {
    var lines := [open] + body;
    var k := |lines|;
    assert lines[1..k] == body;
    assert lines[k..] == [];
    NoFenceBefore(lines, body);
    CloseIndexAt(lines, 1, k);
    AtFence(lines);
  }

  lemma NoFenceBefore(lines: seq<string>, body: seq<string>)
    requires 1 + |body| <= |lines| && lines[1..1 + |body|] == body
    requires forall i :: 0 <= i < |body| ==> !IsFence(body[i])
    ensures forall j :: 1 <= j < 1 + |body| ==> !IsFence(lines[j])
  {
    forall j | 1 <= j < 1 + |body|
      ensures !IsFence(lines[j])
    {
      assert lines[j] == body[j - 1];
    }
  }

  /** `CloseIndex` finds the first fence: if `k` is a fence (or the end) and nothing before it is,
      `CloseIndex` returns `k`. */
  lemma CloseIndexAt(lines: seq<string>, from: nat, k: nat)
    requires from <= k <= |lines|
    requires k < |lines| ==> IsFence(lines[k])
    requires forall j :: from <= j < k ==> !IsFence(lines[j])
    ensures CloseIndex(lines, from) == k
  {
  }

  /** The empty document is a single blank line. */
  lemma EmptyDocument()
    ensures ParseDoc("") == [Blank]
  {
    assert SplitLines("") == [""];
    TrimEmptyIffBlank("");
  }

  /** The blocks the parser can produce: heading and paragraph text is a single line without
      trailing whitespace, a paragraph line would not be read as anything else, and no inner line
      of a display-math block is a fence. */
  predicate WellFormed(b: ParseBlock) {
    match b
    case Heading(level, text) =>
      1 <= level <= 3 && |text| > 0 && !IsSpace(text[|text| - 1]) && '\n' !in text
    case Paragraph(text) =>
      && |text| > 0 && !IsSpace(text[|text| - 1]) && '\n' !in text && !IsBlank(text)
      && !IsFence(text) && Trim(text) != "---" && Trim(text) != "***"
      && !StartsWith(text, "# ") && !StartsWith(text, "## ") && !StartsWith(text, "### ")
    case BlockMath(tex) =>
      var inner := SplitLines(tex);
      forall i :: 0 <= i < |inner| ==> !IsFence(inner[i])
    case Rule => true
    case Blank => true
  }

  predicate AllWellFormed(bs: seq<ParseBlock>) {
    forall i :: 0 <= i < |bs| ==> WellFormed(bs[i])
  }

  /** The source lines of one block, as an author would write them. */
  function LinesOf(b: ParseBlock): seq<string>
    requires WellFormed(b)
  {
    match b
    case Heading(level, text) => [Marker(level) + text]
    case Paragraph(text) => [text]
    case BlockMath(tex) => ["$$"] + SplitLines(tex) + ["$$"]
    case Rule => ["---"]
    case Blank => [""]
  }

  /** A reference inverse of the parser: the lines that would parse back to `bs`. */
  function Unparse(bs: seq<ParseBlock>): seq<string>
    requires AllWellFormed(bs)
  {
    if |bs| == 0 then [] else LinesOf(bs[0]) + Unparse(bs[1..])
  }

  function UnparseDoc(bs: seq<ParseBlock>): string
    requires AllWellFormed(bs)
  {
    JoinLines(Unparse(bs))
  }

  /** The un-parse of a non-empty block list is a non-empty list of lines without line feeds. */
  lemma {:induction false} UnparseLines(bs: seq<ParseBlock>)
    requires AllWellFormed(bs)
    ensures |bs| > 0 ==> |Unparse(bs)| > 0
    ensures forall i :: 0 <= i < |Unparse(bs)| ==> '\n' !in Unparse(bs)[i]
  {
    if |bs| > 0 {
      UnparseLines(bs[1..]);
      var own := LinesOf(bs[0]);
      var more := Unparse(bs[1..]);
      LinesOfNoFeed(bs[0]);
      forall i | 0 <= i < |own + more|
        ensures '\n' !in (own + more)[i]
      {
        if i < |own| {
          assert (own + more)[i] == own[i];
        } else {
          assert (own + more)[i] == more[i - |own|];
        }
      }
    }
  }

  lemma LinesOfNoFeed(b: ParseBlock)
    requires WellFormed(b)
    ensures |LinesOf(b)| > 0
    ensures forall i :: 0 <= i < |LinesOf(b)| ==> '\n' !in LinesOf(b)[i]
  {
    match b
    case Heading(level, text) =>
      assert '\n' !in Marker(level);
    case BlockMath(tex) =>
      var inner := SplitLines(tex);
      forall i | 0 <= i < |LinesOf(b)|
        ensures '\n' !in LinesOf(b)[i]
      {
        if 0 < i <= |inner| {
          assert LinesOf(b)[i] == inner[i - 1];
        }
      }
    case _ =>
  }

  /** The display-math block of a fenced region is well formed. */
  lemma FenceBlockWellFormed(body: seq<string>)
    requires forall i :: 0 <= i < |body| ==> '\n' !in body[i] && !IsFence(body[i])
    ensures WellFormed(BlockMath(JoinLines(body)))
  {
    if |body| > 0 {
      SplitJoinLines(body);
    } else {
      assert SplitLines("") == [""];
      TrimEmptyIffBlank("");
    }
  }

  /** The block of an ordinary line is well formed. */
  lemma LineBlockWellFormed(line: string)
    requires '\n' !in line && !IsFence(line)
    ensures WellFormed(ClassifyLine(line))
  {
    var ln := TrimEnd(line);
    TrimEndSpec(line);
    TrimEndTrim(line);
    assert '\n' !in ln;
  }

  lemma ConsWellFormed(b: ParseBlock, bs: seq<ParseBlock>)
    requires WellFormed(b) && AllWellFormed(bs)
    ensures AllWellFormed([b] + bs)
  {
    var r := [b] + bs;
    forall i | 0 <= i < |r|
      ensures WellFormed(r[i])
    {
      if i > 0 {
        assert r[i] == bs[i - 1];
      }
    }
  }

  /** The block of one scanning step over line-feed-free lines is well formed. */
  lemma ScanWellFormed(lines: seq<string>)
    requires |lines| > 0
    requires forall i :: 0 <= i < |lines| ==> '\n' !in lines[i]
    ensures WellFormed(Scan(lines).0)
  {
    TrimEndTrim(lines[0]);
    if IsFence(lines[0]) {
      var k := CloseIndex(lines, 1);
      var body := lines[1..k];
      forall i | 0 <= i < |body|
        ensures '\n' !in body[i] && !IsFence(body[i])
      {
        assert body[i] == lines[i + 1];
      }
      FenceBlockWellFormed(body);
    } else {
      LineBlockWellFormed(lines[0]);
    }
  }

  /** Everything the parser produces from line-feed-free lines is well formed. */
  lemma {:induction false} ParseLinesWellFormed(lines: seq<string>)
    requires forall i :: 0 <= i < |lines| ==> '\n' !in lines[i]
    ensures AllWellFormed(ParseLines(lines))
    decreases |lines|
  {
    if |lines| > 0 {
      var (b, used) := Scan(lines);
      ScanWellFormed(lines);
      ParseLinesWellFormed(lines[used..]);
      ConsWellFormed(b, ParseLines(lines[used..]));
    }
  }

  lemma ReparseHeading(level: nat, text: string)
    requires WellFormed(Heading(level, text))
    ensures !IsFence(Marker(level) + text)
    ensures ClassifyLine(Marker(level) + text) == Heading(level, text)
  {
    var line := Marker(level) + text;
    TrimEndOfTrimmed(line);
    TrimKeepsFirst(line);
    assert Trim(line) != "---" && Trim(line) != "***";
    if level == 1 {
      assert StartsWith(line, "# ");
    } else if level == 2 {
      assert line[1] == '#';
      assert !StartsWith(line, "# ") && StartsWith(line, "## ");
    } else {
      assert line[1] == '#' && line[2] == '#';
      assert !StartsWith(line, "# ") && !StartsWith(line, "## ") && StartsWith(line, "### ");
    }
  }

  lemma ReparseParagraph(text: string)
    requires WellFormed(Paragraph(text))
    ensures ClassifyLine(text) == Paragraph(text)
  {
    TrimEndOfTrimmed(text);
    TrimEmptyIffBlank(text);
  }

  /** The first block re-parses from its own lines, and parsing continues after them. */
  lemma ReparseFirst(b: ParseBlock, rest: seq<string>)
    requires WellFormed(b)
    ensures ParseLines(LinesOf(b) + rest) == [b] + ParseLines(rest)
  {
    match b
    case Heading(level, text) =>
      ReparseHeading(level, text);
      OrdinaryLine(Marker(level) + text, rest);
    case Paragraph(text) =>
      ReparseParagraph(text);
      OrdinaryLine(text, rest);
    case BlockMath(tex) =>
      assert IsFence("$$");
      FencedRegion("$$", SplitLines(tex), "$$", rest);
    case Rule =>
      assert !IsFence("---");
      assert ClassifyLine("---") == Rule;
      OrdinaryLine("---", rest);
    case Blank =>
      assert !IsFence("");
      assert ClassifyLine("") == Blank;
      OrdinaryLine("", rest);
  }

  /** Parsing the reference un-parse of well-formed blocks gives the blocks back. */
  lemma {:induction false} ParseUnparse(bs: seq<ParseBlock>)
    requires AllWellFormed(bs)
    ensures ParseLines(Unparse(bs)) == bs
  {
    if |bs| > 0 {
      ParseUnparse(bs[1..]);
      ReparseFirst(bs[0], Unparse(bs[1..]));
      assert bs == [bs[0]] + bs[1..];
    }
  }

  /** Re-parsing the text a parse describes yields the same blocks: the parser is idempotent
      through its reference inverse. */
  lemma ParseIdempotent(s: string)
    ensures AllWellFormed(ParseDoc(s))
    ensures ParseDoc(UnparseDoc(ParseDoc(s))) == ParseDoc(s)
  {
    var bs := ParseDoc(s);
    assert bs == ParseLines(SplitLines(s));
    ParseLinesWellFormed(SplitLines(s));
    UnparseLines(bs);
    SplitJoinLines(Unparse(bs));
    ParseUnparse(bs);
  }
}
