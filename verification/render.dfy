/** From parsed blocks to the measured layer the packer works on (`generateBlockHtml` in
    components/Preview.tsx), reduced to what pagination depends on: which child elements each
    block has, and whether it carries the `flex` class. */
module Render {
  import opened JsString
  import opened DocParser
  import opened Inline
  import Paginator

  /** The child elements of a rendered block. */
  datatype Piece =
    | WordBox(w: string)        // a paragraph word, drawn in the handwriting font
    | Spacer(ws: string)        // the fixed-width gap standing for a whitespace run
    | MathSlot(tex: string)     // a span that inline math is typeset into
    | HeadingText(c: string)    // the glyph picture of a heading's text segment
    | DisplayMath(tex: string)  // the typeset display math of a `$$` block
    | RuleLine                  // the dashed line inside a rule

  /** The source text a paragraph child stands for. */
  function PieceSource(p: Piece): string {
    match p
    case WordBox(w) => w
    case Spacer(ws) => ws
    case MathSlot(tex) => "$" + tex + "$"
    case HeadingText(c) => c
    case DisplayMath(tex) => tex
    case RuleLine => ""
  }

  function SourceOfPieces(ps: seq<Piece>): string {
    if |ps| == 0 then "" else PieceSource(ps[0]) + SourceOfPieces(ps[1..])
  }

  lemma {:induction false} SourceOfPiecesAppend(xs: seq<Piece>, ys: seq<Piece>)
    ensures SourceOfPieces(xs + ys) == SourceOfPieces(xs) + SourceOfPieces(ys)
    decreases |xs|
  {
    if |xs| > 0 {
      assert (xs + ys)[1..] == xs[1..] + ys;
      SourceOfPiecesAppend(xs[1..], ys);
    } else {
      assert xs + ys == ys;
    }
  }

  /** A whitespace run becomes a spacer, anything else a word box. */
  function RunPieces(rs: seq<Run>): seq<Piece> {
    if |rs| == 0 then []
    else (if rs[0].Gap? then [Spacer(rs[0].ws)] else [WordBox(rs[0].w)]) + RunPieces(rs[1..])
  }

  /** The children of a paragraph: word boxes and spacers for text, a slot for each inline math. */
  function ParagraphPieces(segs: seq<Segment>): seq<Piece> {
    if |segs| == 0 then []
    else
      (match segs[0]
       case Math(c) => [MathSlot(c)]
       case Text(c) => RunPieces(Tokenise(c))) + ParagraphPieces(segs[1..])
  }

  /** The children of a heading: the glyph picture of each text segment that is not blank, drawn
      only once the font is ready, and a slot for each inline math. */
  function HeadingPieces(segs: seq<Segment>, ready: bool): seq<Piece> {
    if |segs| == 0 then []
    else
      (match segs[0]
       case Math(c) => [MathSlot(c)]
       case Text(c) => if ready && !IsBlank(c) then [HeadingText(c)] else []) + HeadingPieces(segs[1..], ready)
  }

  /** The rendered block for a parsed block. Paragraphs and rules carry `flex`; headings, display
      math and blank lines do not. A display-math block's one child stands for the typeset formula
      that is filled in later; the block is never cut, so pagination sees only its height. */
  function BlockOf(b: ParseBlock, ready: bool): (r: Paginator.Block<Piece>)
    ensures r.flex <==> b.Paragraph? || b.Rule?
    ensures Paginator.Wrappable(r) ==> b.Paragraph?
    ensures b.Rule? ==> |r.tokens| == 1
    ensures b.Blank? ==> |r.tokens| == 0
  {
    match b
    case Heading(_, text) => Paginator.Block(HeadingPieces(SplitIM(text), ready), false)
    case Paragraph(text) => Paginator.Block(ParagraphPieces(SplitIM(text)), true)
    case BlockMath(tex) => Paginator.Block([DisplayMath(tex)], false)
    case Rule => Paginator.Block([RuleLine], true)
    case Blank => Paginator.Block([], false)
  }

  lemma {:induction false} RunPiecesSource(rs: seq<Run>)
    ensures SourceOfPieces(RunPieces(rs)) == JoinRuns(rs)
    decreases |rs|
  {
    if |rs| > 0 {
      var first := if rs[0].Gap? then [Spacer(rs[0].ws)] else [WordBox(rs[0].w)];
      RunPiecesSource(rs[1..]);
      SourceOfPiecesAppend(first, RunPieces(rs[1..]));
    }
  }

  lemma {:induction false} ParagraphPiecesSource(segs: seq<Segment>)
    ensures SourceOfPieces(ParagraphPieces(segs)) == Assemble(segs)
    decreases |segs|
  {
    if |segs| > 0 {
      var first := match segs[0] case Math(c) => [MathSlot(c)] case Text(c) => RunPieces(Tokenise(c));
      ParagraphPiecesSource(segs[1..]);
      SourceOfPiecesAppend(first, ParagraphPieces(segs[1..]));
      if segs[0].Text? {
        RunPiecesSource(Tokenise(segs[0].c));
        TokeniseJoin(segs[0].c);
      }
    }
  }

  /** A paragraph's children, read back as source text, give the paragraph's text: the word boxes,
      spacers and math slots lose nothing and keep their order. */
  lemma ParagraphLossless(text: string, ready: bool)
    ensures SourceOfPieces(BlockOf(Paragraph(text), ready).tokens) == text
  {
    ParagraphPiecesSource(SplitIM(text));
    SplitIMSpec(text);
  }

  function Blocks(bs: seq<ParseBlock>, ready: bool): (r: seq<Paginator.Block<Piece>>)
    ensures |r| == |bs| && forall i :: 0 <= i < |bs| ==> r[i] == BlockOf(bs[i], ready)
  {
    if |bs| == 0 then [] else [BlockOf(bs[0], ready)] + Blocks(bs[1..], ready)
  }

  /** The document pipeline: parse, render, paginate. */
  function Layout(m: Paginator.Measure<Piece>, doc: string, ready: bool): seq<Paginator.Page<Piece>> {
    Paginator.Paginate(m, Blocks(ParseDoc(doc), ready))
  }

  /** Whatever the measurements, the pages hold the rendered blocks of the document in order, and
      there is at least one non-empty page. */
  lemma LayoutSpec(m: Paginator.Measure<Piece>, doc: string, ready: bool)
    ensures Paginator.Reassemble(Paginator.Flatten(Layout(m, doc, ready))) == Blocks(ParseDoc(doc), ready)
    ensures |Layout(m, doc, ready)| > 0
    ensures forall j :: 0 <= j < |Layout(m, doc, ready)| ==> |Layout(m, doc, ready)[j]| > 0
  {
    Paginator.PaginateSpec(m, Blocks(ParseDoc(doc), ready));
  }

  /** An empty document is one page holding the one blank line it parses to. */
  lemma EmptyLayout(m: Paginator.Measure<Piece>, ready: bool)
    ensures Layout(m, "", ready) == [[Paginator.Whole(Paginator.Block([], false))]]
  {
    EmptyDocument();
    var b := Paginator.Block([], false);
    assert Blocks(ParseDoc(""), ready) == [b];
    var s0 := Paginator.State([b], [], []);
    var s1 := Paginator.Step(m, s0);
    assert s1 == Paginator.State([], [], [Paginator.Whole(b)]);
    assert Paginator.Pack(m, s0) == s1;
  }
}
