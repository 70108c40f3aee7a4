# Handwriting preview: document layout and glyph rendering, modelled in Dafny

The preview of the handwriting app turns a plain-text document into A4 pages drawn with a
custom SVG font. This project models the logic behind it and proves what that logic promises.

- **Document parser** (`parseDoc`): the text is split on line feeds. Each line becomes one block:
  a heading of level 1 to 3, a paragraph, a rule or a blank line. A `$$`-fenced region becomes one
  display-math block (module `DocParser`).
- **Inline segmenter** (`splitIM`): a line is split on `$` into text and inline-math segments.
  A paragraph's text segments are then cut into word and whitespace runs (module `Inline`).
- **Rendered blocks**: what the measuring layer holds for each parsed block is reduced to its
  child elements and whether it carries the `flex` class (module `Render`).
- **Paginator**: a greedy work-queue loop packs measured blocks into pages of 918 pixels, which
  is 27 lines of 34 pixels. When a wrappable paragraph overflows, the loop cuts it at a word and
  puts the tail back at the front of the queue (module `Paginator`). The browser's measurements
  are a parameter, `Measure`: a block's height and, for each child, the bottom the browser
  reports.
- **Font**: `parseFontData` builds the glyph tables `G` (keyed by the `unicode` string) and `H`
  (keyed by the upper-case hexadecimal code point) from the glyph elements, with its defaulting
  rules. `generateSvgText` walks the text code point by code point, chooses the glyphs to draw and
  accumulates the advance cursor in font units (modules `Font` and `Utf16`).

`Wrappers` holds `Option` and `Result`. `JsString` holds the few ECMAScript string operations
the parser relies on.

The document side works on Dafny strings, which are sequences of Unicode scalar values. The font
side works on explicit UTF-16 code units, because `u.length`, `codePointAt` and `for ... of`
differ there. `Utf16.CodePointsEncode` connects the two: on text made of scalar values, the
iteration visits exactly the encodings of the characters.

## Model

| member | source | states |
|---|---|---|
| JsString.SplitLines | components/Preview.tsx:32 | `split('\n')` yields at least one line; no line holds a line feed; joining the lines with line feeds gives the text back |
| JsString.SplitJoinLines | components/Preview.tsx:46 | splitting a join of line-feed-free lines gives the same lines back |
| JsString.TrimEndSpec | components/Preview.tsx:36 | `trimEnd` keeps a prefix that is empty or ends in a non-space, and drops only whitespace |
| JsString.TrimEmptyIffBlank | components/Preview.tsx:69 | a line trims to the empty string exactly when it is empty or all whitespace |
| JsString.IndexOf | components/Preview.tsx:85-93 | `indexOf` gives -1 exactly when the character is absent from `from` on, and otherwise its first position |
| DocParser.CloseIndex | components/Preview.tsx:41-44 | the inner scan stops at the first trimmed-`$$` line after the opener, or at the end of the input |
| DocParser.ClassifyLine | components/Preview.tsx:50-76 | a non-fence line is a rule iff its trimmed form is `---` or `***`; a level-1 heading iff it is not a rule and starts with `# `, holding the text after the marker; blank iff whitespace-only; otherwise a paragraph holding the trimEnd'd line; never display math |
| DocParser.HeadingLevels | components/Preview.tsx:56-67 | a line is a level-2 (level-3) heading exactly when it is not a rule and its trimEnd'd form starts with `## ` (`### `) |
| DocParser.Scan | components/Preview.tsx:35-77 | every turn of the loop consumes at least one line and no more than remain |
| DocParser.ParseDoc | components/Preview.tsx:30-79 | the result is never empty and has at most one block per line |
| DocParser.EmptyDocument | components/Preview.tsx:69-73 | the empty text parses to exactly one blank block |
| DocParser.OrdinaryLine | components/Preview.tsx:50-76 | a line that is not a fence yields exactly one block, and parsing continues with the next line |
| DocParser.AtFence | components/Preview.tsx:38-47 | at a fence, one display-math block of the lines up to the closing fence is pushed, and the closing fence is consumed when there is one |
| DocParser.FencedRegion | components/Preview.tsx:38-47 | opener, fence-free body and closer become one display-math block of the body joined with line feeds; parsing resumes after the closer |
| DocParser.UnterminatedRegion | components/Preview.tsx:41-46 | a region whose closing fence never comes swallows the rest of the input |
| DocParser.ParseLinesWellFormed | components/Preview.tsx:30-79 | every block the parser produces satisfies the shape invariant `WellFormed` |
| DocParser.ParseUnparse | components/Preview.tsx:30-79 | the lines `Unparse` writes for well-formed blocks parse back to the same blocks |
| DocParser.ParseIdempotent | components/Preview.tsx:30-79 | parsing the un-parse of a parse gives the same blocks |
| Inline.SplitIMSpec | components/Preview.tsx:81-102 | `splitIM` is lossless (text verbatim, math as `"$"+c+"$"`); only the empty line gives no segments; the result is canonical |
| Inline.SplitIMShape | components/Preview.tsx:84-98 | text segments are never empty; math holds no `$`; only a final unmatched text segment starting with `$` holds a `$` |
| Inline.SplitAssemble | components/Preview.tsx:81-102 | on canonical segment lists, segmenting the assembled line gives the list back |
| Inline.CanonicalUnique | components/Preview.tsx:81-102 | two canonical segment lists with the same source text are equal |
| Inline.RunEnd | components/Preview.tsx:142 | the run from `from` is maximal: all its characters are of one kind, and the next is of the other kind |
| Inline.TokeniseJoin | components/Preview.tsx:142-150 | the runs, concatenated in order, spell the text |
| Inline.TokeniseAlternating | components/Preview.tsx:142-150 | there are no runs only for the empty text; the first run is a gap exactly when the text starts with whitespace; gaps are non-empty and all whitespace, words non-empty and hold none; kinds alternate |
| Inline.TokeniseUnique | components/Preview.tsx:142-150 | any well-formed alternating run list is the tokenisation of its own text |
| Paginator.GridValues | components/Preview.tsx:17-26 | the page is 1122 px with 95 px margins; 932 px available; 27 lines of 34 px; 918 px of content |
| Paginator.FirstOver | components/Preview.tsx:251-257 | the word loop returns the first index whose bottom exceeds the room, or -1 when every word fits |
| Paginator.Decide | components/Preview.tsx:237-296 | place iff the block fits; cut iff it does not fit and is splittable; flush iff it is not splittable and the page has height; force iff it is not splittable and the page has none; a cut is at the cut point |
| Paginator.LowRoomFlushes | components/Preview.tsx:244-279 | with less than one line of room left, a block that does not fit is never cut; the page is flushed and the block retried |
| Paginator.CutPointFirst | components/Preview.tsx:246-260 | the code's split index lies strictly inside the block exactly when a cut point exists, and is then that cut point |
| Paginator.Step | components/Preview.tsx:229-297 | every turn lowers the queue weight, or keeps it and empties a page that had height |
| Paginator.Pack | components/Preview.tsx:229-298 | the loop terminates with an empty queue |
| Paginator.SplitMerges | components/Preview.tsx:261-271 | a head followed by its tail reassembles to the block that was cut |
| Paginator.ReassembleTokens | components/Preview.tsx:261-271 | gluing heads back to their tails keeps every token, in order |
| Paginator.Overfull | components/Preview.tsx:274-295 | a page over capacity ends with a whole block placed while the page had no height, and everything before it has zero height |
| Paginator.StepInv | components/Preview.tsx:229-297 | every turn keeps the invariant: the state reassembles to the input with every head next to its own tail, and finished pages are non-empty and well laid out |
| Paginator.PackInv | components/Preview.tsx:229-298 | the whole loop keeps that invariant |
| Paginator.PackedInv | components/Preview.tsx:223-298 | the invariant holds after the loop has run from the input blocks |
| Paginator.FinishInv | components/Preview.tsx:300-301 | the page being filled is kept when it is non-empty, and a run with no pages gets the single empty page |
| Paginator.PaginateSpec | components/Preview.tsx:223-301 | the pages reassemble to the input blocks; tokens are conserved; at least one page; `[[]]` iff there are no blocks; every page well laid out; no empty page otherwise; every head is followed by the rest of the block it was cut from, so a head's block is the input block it belongs to |
| Paginator.PaginateLayout | components/Preview.tsx:223-301 | the pages reassemble to the input blocks, conserve tokens, and are non-empty and well laid out whenever there are blocks |
| Paginator.PaginateLinked | components/Preview.tsx:261-271 | in the final pages each head is followed by its own tail, and the fragments from any position reassemble to a list that starts with that fragment's block |
| Paginator.CutLinked | components/Preview.tsx:261-271 | replacing the front block by a head and its tail keeps every head next to its own tail |
| Paginator.HeadReassembles | components/Preview.tsx:261-271 | where heads sit before their own tails, the fragments from a head on reassemble to the block that was cut |
| Render.BlockOf | components/Preview.tsx:109-162 | only paragraphs and rules carry `flex`; only a paragraph can be wrappable; a rule has one child, a blank line none |
| Render.ParagraphPiecesSource | components/Preview.tsx:135-152 | the children made for a segment list, read back as text, give the assembled segments |
| Render.ParagraphLossless | components/Preview.tsx:134-154 | a paragraph's word boxes, spacers and math slots, read back as text, give the paragraph's text |
| Render.LayoutSpec | components/Preview.tsx:192-301 | whatever the measurements, the pages hold the document's rendered blocks in order, and no page is empty |
| Render.EmptyLayout | components/Preview.tsx:192-301 | the empty document lays out as one page holding one blank block |
| Utf16.CodePointAt | services/fontService.ts:40-41 | `codePointAt` is above 0xFFFF exactly at a surrogate pair, and is always below 0x110000 |
| Utf16.CodePointsConcat | services/fontService.ts:60 | the pieces `for ... of` visits, concatenated, give the text back |
| Utf16.CodePointsPieces | services/fontService.ts:60 | each piece is one code unit or one surrogate pair, and a lone high surrogate is never followed by a low one |
| Utf16.DecodeChar | services/fontService.ts:40-41 | the code point read from a character's UTF-16 encoding is the character |
| Utf16.CodePointsEncode | services/fontService.ts:60 | on encoded scalar values the iteration visits exactly each character's encoding |
| Utf16.Hex | services/fontService.ts:41 | `toString(16).toUpperCase()` is non-empty, made of upper-case hex digits, with no leading zero |
| Utf16.HexRoundTrip | services/fontService.ts:41 | reading the hexadecimal text back gives the number |
| Utf16.HexInjective | services/fontService.ts:41-42 | distinct code points get distinct `H` keys |
| Font.LastFor | services/fontService.ts:28-37 | the last element with a given `unicode`, or -1 exactly when there is none |
| Font.LastForHex | services/fontService.ts:40-43 | the last element writing a given `H` key, or -1 exactly when there is none |
| Font.HexKeyDecodes | services/fontService.ts:40-42 | a glyph's `H` key reads back as its first code point |
| Font.TableEntry | services/fontService.ts:28-37 | a key is in `G` exactly when it is a non-empty `unicode` string of some element, and maps to the glyph of the last such element |
| Font.HexEntry | services/fontService.ts:39-43 | a key is in `H` exactly when some one-code-point element writes it, and maps to the glyph of the last such element |
| Font.ParseFontData | services/fontService.ts:11-49 | it fails exactly on unreadable SVG or a missing `font` element; otherwise the result is ready, the tables are as in `TableEntry` and `HexEntry` with advances defaulted to the font's and then 500, and the metrics default to 1000/800/-200/QEKunjarScript |
| Font.InkedSpec | services/fontService.ts:60-70 | the drawn positions are increasing and are exactly the code points whose glyph has an outline |
| Font.MissingGlyph | services/fontService.ts:61-71 | a code point without a glyph advances the cursor by 500 and is not drawn |
| Font.DrawnInked | services/fontService.ts:60-72 | drawing step by step places exactly the inked code points, in order, each at the cursor before it |
| Font.RenderText | services/fontService.ts:53-74 | nothing exactly for blank text or an unready font; otherwise one placement per inked code point, in order, at the cursor before it, and a final cursor equal to the sum of all advances |

## Left out

- HTML and SVG markup (`generateBlockHtml`'s strings, the `<g transform>` text, `toFixed`): only
  the structure that pagination sees (children and the `flex` class) is modelled.
- Browser layout: `offsetHeight`, `offsetTop` and the re-attaching of cloned nodes become the
  `Measure` parameter. The model takes whatever bottom the browser reports for a word. It does
  not decide which element `offsetTop` is measured from (the positioned measuring layer, not the
  paragraph), and it assumes a measurement depends only on the block measured.
- MathJax typesetting and `replaceMathJaxPaths`: these are asynchronous foreign calls whose errors
  are swallowed. A display-math block is given one `DisplayMath` child, which stands for the content
  MathJax appends to the empty `bm` div (components/Preview.tsx:157, 215-217). Without MathJax, or
  when it fails, the div stays empty. Pagination does not depend on this child, because the block
  has no `flex` class and is never cut. Their only effect on pagination is through the measured heights. The code
  resolves all inline math before all display math.
- Floating-point sizing: `scale`, the SVG width `ceil(x*scale+4)` and height `ceil(size*1.3)`,
  the heading font sizes 36/28/22, and translating positions into pixels. The grid constants are
  derived with exact reals and their integer results are stated by `GridValues`.
- SVG parsing by `DOMParser` and the numeric coercion `+(...)`: the font is taken as already
  parsed. A present numeric attribute holds an integer; a non-numeric attribute (which the code
  turns into `NaN`) is not representable.
- The `console.log` of the glyph count, the `count` variable, and React state (`setPages`,
  `setIsPaginating`, the effect's dependencies).
- `App.tsx`, `Editor.tsx`, `Toolbar.tsx`, `LoadingScreen.tsx` and `constants.ts`: these are I/O,
  timers and UI, outside the layout and rendering logic.
- Lone surrogates in the document text: Dafny strings hold scalar values only. The parser and the
  segmenter only look for characters of the Basic Multilingual Plane that are not surrogates (the
  ASCII markers and the ECMAScript whitespace set), so no pair is ever split.
- Font.RenderText: the cursor is an unbounded integer. The code's cursor is a JavaScript number,
  which is exact for integers up to 2^53, far beyond any line of text.
- An overflowing block is not guaranteed a page to itself. The code only checks that the page's
  accumulated height is 0, so fragments of zero measured height may precede the block.
  `Paginator.Overfull` states exactly this, following the code.
