/** The handwriting font of services/fontService.ts: building the glyph tables from an SVG font
    (`parseFontData`) and laying out the glyphs of a piece of text along an advance cursor
    (`generateSvgText`).

    The SVG text is taken as already parsed into its `font`, `font-face` and `glyph` elements. An
    attribute that is absent or empty is `None` (or the empty string); a numeric attribute that is
    present holds its integer value. Lengths are in font units throughout. */
module Font {
  import opened Wrappers
  import opened Utf16
  import JsString

  const DEFAULT_ADVANCE: int := 500
  const DEFAULT_EM: int := 1000
  const DEFAULT_ASCENT: int := 800
  const DEFAULT_DESCENT: int := -200
  const DEFAULT_FAMILY: string := "QEKunjarScript"

  /** A glyph: its SVG path data (empty when it has none) and its horizontal advance. */
  datatype Glyph = Glyph(outline: string, advance: int)

  datatype Metrics = Metrics(em: int, ascent: int, descent: int, family: string)

  /** `FontData`: glyphs by their `unicode` string, glyphs by the upper-case hexadecimal of their
      code point, the metrics, and whether a font is loaded. */
  datatype FontData = FontData(glyphs: map<Units, Glyph>, hex: map<string, Glyph>, metrics: Metrics, ready: bool)

  /** The attributes of the SVG elements the parser reads. */
  datatype GlyphElement = GlyphElement(unicode: Units, outline: string, advance: Option<int>)
  datatype FontElement = FontElement(advance: Option<int>)
  datatype FaceElement = FaceElement(em: Option<int>, ascent: Option<int>, descent: Option<int>, family: string)

  /** The parsed SVG document: unreadable, or its first `font` element, its first `font-face`
      element and all its `glyph` elements in document order. */
  datatype SvgDocument =
    | Malformed
    | Parsed(font: Option<FontElement>, face: Option<FaceElement>, glyphs: seq<GlyphElement>)

  /** The two errors `parseFontData` throws. */
  datatype FontError = ParseError | MissingFont

  /** `+(attribute || fallback)`. */
  function OrElse(o: Option<int>, fallback: int): int {
    if o.Some? then o.value else fallback
  }

  /** The glyph record made from an element, given the font's default advance. */
  function GlyphOf(e: GlyphElement, defaultAdvance: int): Glyph {
    Glyph(e.outline, OrElse(e.advance, defaultAdvance))
  }

  /** Whether a `unicode` string is also stored under a hexadecimal key: one code unit, or two
      forming a code point above 0xFFFF. */
  predicate HexKeyed(u: Units) {
    |u| == 1 || (|u| == 2 && CodePointAt(u, 0) > 0xFFFF)
  }

  function HexKey(u: Units): string
    requires |u| > 0
  {
    Hex(CodePointAt(u, 0))
  }

  datatype Tables = Tables(g: map<Units, Glyph>, h: map<string, Glyph>)

  /** One turn of the `forEach` over the glyph elements. */
  function AddGlyph(t: Tables, e: GlyphElement, defaultAdvance: int): Tables {
    if |e.unicode| == 0 then t
    else
      var glyph := GlyphOf(e, defaultAdvance);
      Tables(t.g[e.unicode := glyph], if HexKeyed(e.unicode) then t.h[HexKey(e.unicode) := glyph] else t.h)
  }

  /** The `G` and `H` tables after the glyph elements `gs`, in document order. */
  function BuildTables(gs: seq<GlyphElement>, defaultAdvance: int): Tables {
    if |gs| == 0 then Tables(map[], map[])
    else AddGlyph(BuildTables(gs[..|gs| - 1], defaultAdvance), gs[|gs| - 1], defaultAdvance)
  }

  /** The last element storing under `G[k]`, or -1: no element after it has that `unicode`. */
  function LastFor(gs: seq<GlyphElement>, k: Units): (i: int)
    ensures -1 <= i < |gs|
    ensures i == -1 <==> forall j :: 0 <= j < |gs| ==> gs[j].unicode != k
    ensures i >= 0 ==> gs[i].unicode == k && forall j :: i < j < |gs| ==> gs[j].unicode != k
  {
    if |gs| == 0 then -1
    else if gs[|gs| - 1].unicode == k then |gs| - 1
    else LastFor(gs[..|gs| - 1], k)
  }

  /** The last element storing under `H[h]`, or -1. */
  function LastForHex(gs: seq<GlyphElement>, h: string): (i: int)
    ensures -1 <= i < |gs|
    ensures i == -1 <==> forall j :: 0 <= j < |gs| ==> !HexSlot(gs[j], h)
    ensures i >= 0 ==> HexSlot(gs[i], h) && forall j :: i < j < |gs| ==> !HexSlot(gs[j], h)
  {
    if |gs| == 0 then -1
    else if HexSlot(gs[|gs| - 1], h) then |gs| - 1
    else LastForHex(gs[..|gs| - 1], h)
  }

  /** Element `e` writes `H[h]`. */
  predicate HexSlot(e: GlyphElement, h: string) {
    |e.unicode| > 0 && HexKeyed(e.unicode) && HexKey(e.unicode) == h
  }

  /** The hexadecimal key of a glyph reads back as its code point, so glyphs for different code
      points never share a key. */
  lemma HexKeyDecodes(u: Units)
    requires |u| > 0
    ensures HexValue(HexKey(u)) == CodePointAt(u, 0)
  {
    HexRoundTrip(CodePointAt(u, 0));
  }

  /** `G` holds exactly the non-empty `unicode` strings of the elements, each mapped to the glyph of
      the last element that has it; `H` holds exactly the hexadecimal keys of the single code point
      elements, each mapped to the glyph of the last element with that key. */
  lemma TablesSpec(gs: seq<GlyphElement>, d: int)
    ensures forall k :: k in BuildTables(gs, d).g <==> |k| > 0 && LastFor(gs, k) >= 0
    ensures forall k :: k in BuildTables(gs, d).g ==> BuildTables(gs, d).g[k] == GlyphOf(gs[LastFor(gs, k)], d)
    ensures forall h :: h in BuildTables(gs, d).h <==> LastForHex(gs, h) >= 0
    ensures forall h :: h in BuildTables(gs, d).h ==> BuildTables(gs, d).h[h] == GlyphOf(gs[LastForHex(gs, h)], d)
  {
    forall k {
      TableEntry(gs, d, k);
    }
    forall h {
      HexEntry(gs, d, h);
    }
  }

  lemma {:induction false} TableEntry(gs: seq<GlyphElement>, d: int, k: Units)
    ensures k in BuildTables(gs, d).g <==> |k| > 0 && LastFor(gs, k) >= 0
    ensures k in BuildTables(gs, d).g ==> BuildTables(gs, d).g[k] == GlyphOf(gs[LastFor(gs, k)], d)
    decreases |gs|
  {
    if |gs| > 0 {
      var init := gs[..|gs| - 1];
      TableEntry(init, d, k);
      if gs[|gs| - 1].unicode != k && LastFor(init, k) >= 0 {
        assert gs[LastFor(init, k)] == init[LastFor(init, k)];
      }
    }
  }

  lemma {:induction false} HexEntry(gs: seq<GlyphElement>, d: int, h: string)
    ensures h in BuildTables(gs, d).h <==> LastForHex(gs, h) >= 0
    ensures h in BuildTables(gs, d).h ==> BuildTables(gs, d).h[h] == GlyphOf(gs[LastForHex(gs, h)], d)
    decreases |gs|
  {
    if |gs| > 0 {
      var init := gs[..|gs| - 1];
      HexEntry(init, d, h);
      if !HexSlot(gs[|gs| - 1], h) && LastForHex(init, h) >= 0 {
        assert gs[LastForHex(init, h)] == init[LastForHex(init, h)];
      }
    }
  }

  /** `parseFontData`: fails on unreadable SVG and on a document without a `font` element;
      otherwise builds the tables and fills the metrics, each defaulted when its attribute is
      absent, and the result is ready. */
  function ParseFontData(doc: SvgDocument): (r: Result<FontData, FontError>)
    ensures r == Err(ParseError) <==> doc.Malformed?
    ensures r == Err(MissingFont) <==> doc.Parsed? && doc.font.None?
    ensures r.Ok? ==> r.value.ready
    ensures r.Ok? ==> forall k :: k in r.value.glyphs <==> |k| > 0 && LastFor(doc.glyphs, k) >= 0
    ensures r.Ok? ==> forall k :: k in r.value.glyphs ==>
              r.value.glyphs[k] == GlyphOf(doc.glyphs[LastFor(doc.glyphs, k)], OrElse(doc.font.value.advance, DEFAULT_ADVANCE))
    ensures r.Ok? ==> forall h :: h in r.value.hex <==> LastForHex(doc.glyphs, h) >= 0
    ensures r.Ok? ==> forall h :: h in r.value.hex ==>
              r.value.hex[h] == GlyphOf(doc.glyphs[LastForHex(doc.glyphs, h)], OrElse(doc.font.value.advance, DEFAULT_ADVANCE))
    ensures r.Ok? && doc.face.None? ==>
              r.value.metrics == Metrics(DEFAULT_EM, DEFAULT_ASCENT, DEFAULT_DESCENT, DEFAULT_FAMILY)
    ensures r.Ok? && doc.face.Some? ==>
              && r.value.metrics.em == OrElse(doc.face.value.em, DEFAULT_EM)
              && r.value.metrics.ascent == OrElse(doc.face.value.ascent, DEFAULT_ASCENT)
              && r.value.metrics.descent == OrElse(doc.face.value.descent, DEFAULT_DESCENT)
              && r.value.metrics.family == if doc.face.value.family == "" then DEFAULT_FAMILY else doc.face.value.family
  {
    match doc
    case Malformed => Err(ParseError)
    case Parsed(font, face, glyphs) =>
      if font.None? then Err(MissingFont)
      else
        var defaultAdvance := OrElse(font.value.advance, DEFAULT_ADVANCE);
        var metrics :=
          if face.None? then Metrics(DEFAULT_EM, DEFAULT_ASCENT, DEFAULT_DESCENT, DEFAULT_FAMILY)
          else Metrics(OrElse(face.value.em, DEFAULT_EM), OrElse(face.value.ascent, DEFAULT_ASCENT),
                       OrElse(face.value.descent, DEFAULT_DESCENT),
                       if face.value.family == "" then DEFAULT_FAMILY else face.value.family);
        var t := BuildTables(glyphs, defaultAdvance);
        TablesSpec(glyphs, defaultAdvance);
        Ok(FontData(t.g, t.h, metrics, true))
  }

  /** The glyph `generateSvgText` uses for a code point: the font's, or an empty glyph 500 units
      wide when the font has none. */
  function GlyphFor(font: FontData, cp: Units): Glyph {
    if cp in font.glyphs then font.glyphs[cp] else Glyph("", DEFAULT_ADVANCE)
  }

  /** The cursor before code point `n`: the sum of the advances of the code points before it. */
  function CursorAt(font: FontData, cps: seq<Units>, n: nat): int
    requires n <= |cps|
  {
    if n == 0 then 0 else CursorAt(font, cps, n - 1) + GlyphFor(font, cps[n - 1]).advance
  }

  /** The positions, in text order, of the code points among the first `n` whose glyph has an
      outline. */
  function Inked(font: FontData, cps: seq<Units>, n: nat): (r: seq<nat>)
    requires n <= |cps|
    ensures forall j :: 0 <= j < |r| ==> r[j] < n
  {
    if n == 0 then []
    else Inked(font, cps, n - 1) + (if GlyphFor(font, cps[n - 1]).outline != "" then [n - 1] else [])
  }

  /** The inked positions are strictly increasing, and are exactly the code points whose glyph has
      an outline. */
  lemma {:induction false} InkedSpec(font: FontData, cps: seq<Units>, n: nat)
    requires n <= |cps|
    ensures forall j, j' :: 0 <= j < j' < |Inked(font, cps, n)| ==> Inked(font, cps, n)[j] < Inked(font, cps, n)[j']
    ensures forall i :: 0 <= i < n ==> (i in Inked(font, cps, n) <==> GlyphFor(font, cps[i]).outline != "")
  {
    if n > 0 {
      InkedSpec(font, cps, n - 1);
      var k := Inked(font, cps, n - 1);
      var k' := Inked(font, cps, n);
      if GlyphFor(font, cps[n - 1]).outline != "" {
        assert k' == k + [n - 1];
      } else {
        assert k' == k;
      }
    }
  }

  /** A code point the font has no glyph for moves the cursor by 500 units and is never drawn. */
  lemma MissingGlyph(font: FontData, cps: seq<Units>, i: nat)
    requires i < |cps| && cps[i] !in font.glyphs
    ensures CursorAt(font, cps, i + 1) == CursorAt(font, cps, i) + DEFAULT_ADVANCE
    ensures i !in Inked(font, cps, |cps|)
  {
    InkedSpec(font, cps, |cps|);
  }

  /** A drawn glyph: its outline and the cursor it is drawn at. */
  datatype Placement = Placement(x: int, outline: string)

  /** What `generateSvgText` draws: the glyphs in order, and the final cursor that sizes the
      picture. */
  datatype TextRun = TextRun(placements: seq<Placement>, advance: int)

  /** `!text.trim()`: only whitespace. */
  predicate IsBlankUnits(text: Units) {
    forall i :: 0 <= i < |text| ==> JsString.IsWhitespaceCode(text[i] as int)
  }

  /** The glyphs drawn for the first `n` code points, one step of the loop at a time. */
  function Drawn(font: FontData, cps: seq<Units>, n: nat): seq<Placement>
    requires n <= |cps|
  {
    if n == 0 then []
    else
      var glyph := GlyphFor(font, cps[n - 1]);
      Drawn(font, cps, n - 1) + (if glyph.outline != "" then [Placement(CursorAt(font, cps, n - 1), glyph.outline)] else [])
  }

  /** Drawing code point by code point places exactly the inked code points, in text order, each at
      the cursor before it. */
  lemma {:induction false} DrawnInked(font: FontData, cps: seq<Units>, n: nat)
    requires n <= |cps|
    ensures |Drawn(font, cps, n)| == |Inked(font, cps, n)|
    ensures forall j :: 0 <= j < |Drawn(font, cps, n)| ==>
              Drawn(font, cps, n)[j] == Placement(CursorAt(font, cps, Inked(font, cps, n)[j]), GlyphFor(font, cps[Inked(font, cps, n)[j]]).outline)
  {
    if n > 0 {
      DrawnInked(font, cps, n - 1);
      var d := Drawn(font, cps, n - 1);
      var k := Inked(font, cps, n - 1);
      var d' := Drawn(font, cps, n);
      var k' := Inked(font, cps, n);
      var glyph := GlyphFor(font, cps[n - 1]);
      if glyph.outline != "" {
        assert d' == d + [Placement(CursorAt(font, cps, n - 1), glyph.outline)];
        assert k' == k + [n - 1];
        forall j | 0 <= j < |d'|
          ensures d'[j] == Placement(CursorAt(font, cps, k'[j]), GlyphFor(font, cps[k'[j]]).outline)
        {
          if j < |d| {
            assert d'[j] == d[j] && k'[j] == k[j];
          } else {
            assert d'[j] == Placement(CursorAt(font, cps, n - 1), glyph.outline) && k'[j] == n - 1;
          }
        }
      } else {
        assert d' == d;
        assert k' == k;
      }
    }
  }

  /** `generateSvgText`: nothing for blank text or when no font is loaded; otherwise one glyph per
      code point whose glyph has an outline, in text order, each at the sum of the advances before
      it, and a final cursor that is the sum of all advances. */
  method RenderText(text: Units, font: FontData) returns (r: Option<TextRun>)
    ensures r.None? <==> IsBlankUnits(text) || !font.ready
    ensures r.Some? ==> r.value.advance == CursorAt(font, CodePoints(text), |CodePoints(text)|)
    ensures r.Some? ==>
              var cps := CodePoints(text);
              var ink := Inked(font, cps, |cps|);
              && |r.value.placements| == |ink|
              && forall j :: 0 <= j < |ink| ==>
                   r.value.placements[j] == Placement(CursorAt(font, cps, ink[j]), GlyphFor(font, cps[ink[j]]).outline)
  {
    if IsBlankUnits(text) || !font.ready {
      return None;
    }
    var cps := CodePoints(text);
    var x := 0;
    var paths: seq<Placement> := [];
    var i := 0;
    while i < |cps|
      invariant 0 <= i <= |cps|
      invariant x == CursorAt(font, cps, i)
      invariant paths == Drawn(font, cps, i)
    {
      var glyph := GlyphFor(font, cps[i]);
      if glyph.outline != "" {
        paths := paths + [Placement(x, glyph.outline)];
      }
      x := x + glyph.advance;
      i := i + 1;
    }
    DrawnInked(font, cps, |cps|);
    return Some(TextRun(paths, x));
  }
}
