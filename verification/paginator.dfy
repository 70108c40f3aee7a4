/** The page packer of components/Preview.tsx: a greedy work queue that fills A4 pages of a fixed
    content height with measured blocks, splits a wrappable paragraph between two of its word boxes
    when it does not fit, and puts the tail back at the front of the queue.

    Layout is abstracted: a `Measure` says how tall a block is and where the bottom of each of its
    tokens lies, exactly the two numbers the code reads from the browser. */
module Paginator {

  // The page grid, computed as in the source from the A4 height, a one-inch margin and a
  // millimetre-to-pixel factor, then snapped down to whole lines.
  const PAGE_HEIGHT_MM: real := 297.0
  const MARGIN_MM: real := 25.4
  const MM_TO_PX: real := 3.7795
  const PAGE_HEIGHT_PX: int := (PAGE_HEIGHT_MM * MM_TO_PX).Floor
  const MARGIN_TOP_PX: int := (MARGIN_MM * MM_TO_PX).Floor
  const MARGIN_BOTTOM_PX: int := (MARGIN_MM * MM_TO_PX).Floor
  const LINE_HEIGHT: int := 34
  const AVAILABLE_HEIGHT_RAW: int := PAGE_HEIGHT_PX - MARGIN_TOP_PX - MARGIN_BOTTOM_PX
  const LINES_PER_PAGE: int := AVAILABLE_HEIGHT_RAW / LINE_HEIGHT
  const CONTENT_HEIGHT_PX: int := LINES_PER_PAGE * LINE_HEIGHT

  /** The grid in numbers: 1122 px pages with 95 px margins leave 932 px, which is 27 lines of
      34 px, so 918 px of content per page. */
  lemma GridValues()
    ensures PAGE_HEIGHT_PX == 1122 && MARGIN_TOP_PX == 95 && MARGIN_BOTTOM_PX == 95
    ensures AVAILABLE_HEIGHT_RAW == 932 && LINES_PER_PAGE == 27
    ensures CONTENT_HEIGHT_PX == 918 && CONTENT_HEIGHT_PX % LINE_HEIGHT == 0
  {
    assert (PAGE_HEIGHT_MM * MM_TO_PX) == 1122.5115;
    assert (MARGIN_MM * MM_TO_PX) == 95.9993;
  }

  /** A rendered block: its child elements (word boxes, spacers, math slots) as opaque tokens, and
      whether it carries the `flex` class. */
  datatype Block<T> = Block(tokens: seq<T>, flex: bool)

  /** Only a flex block with more than one child may be split across pages. */
  predicate Wrappable<T>(b: Block<T>) {
    b.flex && |b.tokens| > 1
  }

  /** The block's tokens from `k` on: the clone that goes back to the queue after a cut. */
  function TailPart<T>(b: Block<T>, k: nat): Block<T>
    requires k <= |b.tokens|
  {
    Block(b.tokens[k..], b.flex)
  }

  /** What the browser reports: a block's `offsetHeight`, and for token `w` of a block its
      `offsetTop + offsetHeight`. */
  datatype Measure<!T> = Measure(height: Block<T> -> nat, bottom: (Block<T>, nat) -> int)

  /** A piece of a page: a whole block from the queue, or the first `cut` tokens of a block whose
      remaining tokens went back to the queue. */
  datatype Fragment<T> = Whole(block: Block<T>) | Head(block: Block<T>, cut: nat)

  type Page<T> = seq<Fragment<T>>

  /** The tokens a fragment shows. */
  function FragTokens<T>(f: Fragment<T>): seq<T> {
    match f
    case Whole(b) => b.tokens
    case Head(b, k) => if k <= |b.tokens| then b.tokens[..k] else b.tokens
  }

  /** The height a fragment adds to its page: a head closes its page without being counted. */
  function FragHeight<T>(m: Measure<T>, f: Fragment<T>): nat {
    if f.Whole? then m.height(f.block) else 0
  }

  /** `currentHeight`: the height accumulated by the fragments of a page. */
  function Used<T>(m: Measure<T>, p: Page<T>): nat {
    if |p| == 0 then 0 else Used(m, p[..|p| - 1]) + FragHeight(m, p[|p| - 1])
  }

  /** `k` is where the code splits `b` with `room` pixels left: the first token whose bottom lies
      below the room, and not the first token of the block. */
  predicate CutPoint<T>(m: Measure<T>, room: int, b: Block<T>, k: nat) {
    && 0 < k < |b.tokens|
    && m.bottom(b, k) > room
    && forall w :: 0 <= w < k ==> m.bottom(b, w) <= room
  }

  /** A block that does not fit can be split when it is wrappable, at least one line of room is
      left, and its first token below the room is not its first token. */
  ghost predicate Splittable<T>(m: Measure<T>, room: int, b: Block<T>) {
    Wrappable(b) && room >= LINE_HEIGHT && exists k :: CutPoint(m, room, b, k)
  }

  /** The loop over `words`: the first index from `from` on whose bottom exceeds `room`, or -1. */
  function FirstOver<T>(m: Measure<T>, b: Block<T>, room: int, from: nat): (r: int)
    decreases |b.tokens| - from
    ensures r == -1 <==> forall w :: from <= w < |b.tokens| ==> m.bottom(b, w) <= room
    ensures r != -1 ==> from <= r < |b.tokens| && m.bottom(b, r) > room
    ensures r != -1 ==> forall w :: from <= w < r ==> m.bottom(b, w) <= room
  {
    if from >= |b.tokens| then -1
    else if m.bottom(b, from) > room then from
    else FirstOver(m, b, room, from + 1)
  }

  /** `splitIndex`: 0 when less than a line is left, otherwise the first token below the room, or
      -1 when every token fits. */
  function SplitIndex<T>(m: Measure<T>, room: int, b: Block<T>): int {
    if room < LINE_HEIGHT then 0 else FirstOver(m, b, room, 0)
  }

  /** What the loop does with the block at the front of the queue. */
  datatype Action = Place | Cut(k: nat) | Flush | Force

  function Decide<T>(m: Measure<T>, used: nat, b: Block<T>): (a: Action)
    ensures a == Place <==> used + m.height(b) <= CONTENT_HEIGHT_PX
    ensures a.Cut? <==> used + m.height(b) > CONTENT_HEIGHT_PX && Splittable(m, CONTENT_HEIGHT_PX - used, b)
    ensures a.Cut? ==> CutPoint(m, CONTENT_HEIGHT_PX - used, b, a.k)
    ensures a == Flush <==>
              used + m.height(b) > CONTENT_HEIGHT_PX && !Splittable(m, CONTENT_HEIGHT_PX - used, b) && used > 0
    ensures a == Force <==>
              used + m.height(b) > CONTENT_HEIGHT_PX && !Splittable(m, CONTENT_HEIGHT_PX - used, b) && used == 0
  {
    var room := CONTENT_HEIGHT_PX - used;
    if used + m.height(b) <= CONTENT_HEIGHT_PX then Place
    else
      var k := if Wrappable(b) then SplitIndex(m, room, b) else -1;
      CutPointFirst(m, room, b, k);
      if 0 < k < |b.tokens| then Cut(k)
      else if used > 0 then Flush
      else Force
  }

  /** With less than a line of room left, a block that does not fit is never cut: the page is
      flushed and the block retried on the next one. */
  lemma LowRoomFlushes<T>(m: Measure<T>, used: nat, b: Block<T>)
    requires used + m.height(b) > CONTENT_HEIGHT_PX && CONTENT_HEIGHT_PX - used < LINE_HEIGHT
    ensures Decide(m, used, b) == Flush
  {
  }

  /** The split index found by the code is the cut point whenever there is one. */
  lemma CutPointFirst<T>(m: Measure<T>, room: int, b: Block<T>, k: int)
    requires k == if Wrappable(b) then SplitIndex(m, room, b) else -1
    ensures Splittable(m, room, b) <==> 0 < k < |b.tokens|
    ensures 0 < k < |b.tokens| ==> CutPoint(m, room, b, k)
  {
    if Splittable(m, room, b) {
      var j :| CutPoint(m, room, b, j);
      assert FirstOver(m, b, room, 0) == j;
    }
    if 0 < k < |b.tokens| {
      assert CutPoint(m, room, b, k);
    }
  }

  /** The loop's variables: the queue, the finished pages and the page being filled. */
  datatype State<T> = State(queue: seq<Block<T>>, done: seq<Page<T>>, page: Page<T>)

  /** Σ over the queue of one plus the block's token count. */
  function Weight<T>(q: seq<Block<T>>): nat {
    if |q| == 0 then 0 else 1 + |q[0].tokens| + Weight(q[1..])
  }

  /** One turn of the loop. Each turn either shrinks the queue's weight or keeps it and empties a
      page that had height, which is what makes the loop stop. */
  function Step<T>(m: Measure<T>, s: State<T>): (r: State<T>)
    requires |s.queue| > 0
    ensures Weight(r.queue) < Weight(s.queue)
            || (Weight(r.queue) == Weight(s.queue) && Used(m, s.page) > 0 && Used(m, r.page) == 0)
  {
    var b := s.queue[0];
    var rest := s.queue[1..];
    match Decide(m, Used(m, s.page), b)
    case Place => State(rest, s.done, s.page + [Whole(b)])
    case Cut(k) =>
      assert ([TailPart(b, k)] + rest)[1..] == rest;
      State([TailPart(b, k)] + rest, s.done + [s.page + [Head(b, k)]], [])
    case Flush => State(s.queue, s.done + [s.page], [])
    case Force => State(rest, s.done, s.page + [Whole(b)])
  }

  /** The loop, run until the queue is empty. */
  function Pack<T>(m: Measure<T>, s: State<T>): (r: State<T>)
    decreases Weight(s.queue), if Used(m, s.page) > 0 then 1 else 0
    ensures |r.queue| == 0
  {
    if |s.queue| == 0 then s else Pack(m, Step(m, s))
  }

  /** After the loop: the page being filled is kept if it holds anything, and a document without
      content still gets one empty page. */
  function Finish<T>(s: State<T>): seq<Page<T>> {
    var pages := if |s.page| > 0 then s.done + [s.page] else s.done;
    if |pages| == 0 then [[]] else pages
  }

  /** All fragments of a list of pages, page after page. */
  function Flatten<T>(ps: seq<Page<T>>): seq<Fragment<T>> {
    if |ps| == 0 then [] else Flatten(ps[..|ps| - 1]) + ps[|ps| - 1]
  }

  lemma FlattenAppend<T>(ps: seq<Page<T>>, p: Page<T>)
    ensures Flatten(ps + [p]) == Flatten(ps) + p
  {
    assert (ps + [p])[..|ps|] == ps;
  }

  /** Undo the splitting: a head is glued to the block that follows it. */
  function Reassemble<T>(fs: seq<Fragment<T>>): seq<Block<T>> {
    if |fs| == 0 then []
    else
      var r := Reassemble(fs[1..]);
      match fs[0]
      case Whole(b) => [b] + r
      case Head(b, _) =>
        if |r| > 0 then [Block(FragTokens(fs[0]) + r[0].tokens, b.flex)] + r[1..]
        else [Block(FragTokens(fs[0]), b.flex)]
  }

  function Wholes<T>(q: seq<Block<T>>): (r: seq<Fragment<T>>)
    ensures |r| == |q| && forall i :: 0 <= i < |q| ==> r[i] == Whole(q[i])
  {
    if |q| == 0 then [] else [Whole(q[0])] + Wholes(q[1..])
  }

  /** The tokens of a list of blocks, in order. */
  function AllTokens<T>(bs: seq<Block<T>>): seq<T> {
    if |bs| == 0 then [] else bs[0].tokens + AllTokens(bs[1..])
  }

  /** The tokens shown by a list of fragments, in order. */
  function ShownTokens<T>(fs: seq<Fragment<T>>): seq<T> {
    if |fs| == 0 then [] else FragTokens(fs[0]) + ShownTokens(fs[1..])
  }

  /** Gluing heads back on keeps every token, in order. */
  lemma {:induction false} ReassembleTokens<T>(fs: seq<Fragment<T>>)
    ensures AllTokens(Reassemble(fs)) == ShownTokens(fs)
    decreases |fs|
  {
    if |fs| > 0 {
      ReassembleTokens(fs[1..]);
      var r := Reassemble(fs[1..]);
      if fs[0].Head? && |r| > 0 {
        var g := Block(FragTokens(fs[0]) + r[0].tokens, fs[0].block.flex);
        assert ([g] + r[1..])[1..] == r[1..];
        assert AllTokens(r) == r[0].tokens + AllTokens(r[1..]);
      } else if fs[0].Head? {
        assert AllTokens([Block(FragTokens(fs[0]), fs[0].block.flex)]) == FragTokens(fs[0]);
      } else {
        assert ([fs[0].block] + r)[1..] == r;
      }
    }
  }

  /** Reassembly looks at what follows a fragment only through its reassembly. */
  lemma {:induction false} ReassembleCongruent<T>(xs: seq<Fragment<T>>, ys: seq<Fragment<T>>, zs: seq<Fragment<T>>)
    requires Reassemble(ys) == Reassemble(zs)
    ensures Reassemble(xs + ys) == Reassemble(xs + zs)
    decreases |xs|
  {
    if |xs| > 0 {
      assert (xs + ys)[1..] == xs[1..] + ys;
      assert (xs + zs)[1..] == xs[1..] + zs;
      ReassembleCongruent(xs[1..], ys, zs);
    } else {
      assert xs + ys == ys;
      assert xs + zs == zs;
    }
  }

  /** A head followed by its tail reassembles to the block that was split. */
  lemma SplitMerges<T>(b: Block<T>, k: nat, ws: seq<Fragment<T>>)
    requires k <= |b.tokens|
    ensures Reassemble([Head(b, k), Whole(TailPart(b, k))] + ws) == Reassemble([Whole(b)] + ws)
  {
    var fs := [Head(b, k), Whole(TailPart(b, k))] + ws;
    assert fs[1..] == [Whole(TailPart(b, k))] + ws;
    assert fs[1..][1..] == ws;
    assert ([Whole(b)] + ws)[1..] == ws;
    assert b.tokens[..k] + b.tokens[k..] == b.tokens;
  }

  /** How a fragment may sit on a page, given the height `used` already on it: a whole block fits,
      or the page was empty of height; a head is cut at the cut point of a wrappable block that
      did not fit, with at least a line of room left. */
  ghost predicate FragOk<T>(m: Measure<T>, used: nat, f: Fragment<T>) {
    match f
    case Whole(b) => used + m.height(b) <= CONTENT_HEIGHT_PX || used == 0
    case Head(b, k) =>
      && used + m.height(b) > CONTENT_HEIGHT_PX
      && Splittable(m, CONTENT_HEIGHT_PX - used, b)
      && CutPoint(m, CONTENT_HEIGHT_PX - used, b, k)
  }

  /** Every fragment sits well, and a head can only close its page. */
  ghost predicate PageOk<T>(m: Measure<T>, p: Page<T>) {
    && (forall i :: 0 <= i < |p| ==> FragOk(m, Used(m, p[..i]), p[i]))
    && (forall i :: 0 <= i < |p| - 1 ==> p[i].Whole?)
  }

  lemma PageOkAppend<T>(m: Measure<T>, p: Page<T>, f: Fragment<T>)
    requires PageOk(m, p) && forall i :: 0 <= i < |p| ==> p[i].Whole?
    requires FragOk(m, Used(m, p), f)
    ensures PageOk(m, p + [f])
  {
    var q := p + [f];
    forall i | 0 <= i < |q|
      ensures FragOk(m, Used(m, q[..i]), q[i])
    {
      if i < |p| {
        assert q[..i] == p[..i];
      } else {
        assert q[..i] == p;
      }
    }
  }

  /** A page over capacity is zero-height fragments followed by one whole block that was placed
      while the page had no height; the block that overflows is never followed on its page. */
  lemma {:induction false} Overfull<T>(m: Measure<T>, p: Page<T>)
    requires PageOk(m, p) && Used(m, p) > CONTENT_HEIGHT_PX
    ensures |p| > 0 && p[|p| - 1].Whole?
    ensures Used(m, p[..|p| - 1]) == 0
    ensures forall i :: 0 <= i < |p| - 1 ==> FragHeight(m, p[i]) == 0
  {
    var n := |p|;
    assert FragOk(m, Used(m, p[..n - 1]), p[n - 1]) by {
      assert p[..n] == p;
    }
    ZeroPrefix(m, p[..n - 1]);
    forall i | 0 <= i < n - 1
      ensures FragHeight(m, p[i]) == 0
    {
      assert p[i] == p[..n - 1][i];
    }
  }

  /** A page of no height has only fragments of no height. */
  lemma {:induction false} ZeroPrefix<T>(m: Measure<T>, p: Page<T>)
    requires Used(m, p) == 0
    ensures forall i :: 0 <= i < |p| ==> FragHeight(m, p[i]) == 0
    decreases |p|
  {
    if |p| > 0 {
      ZeroPrefix(m, p[..|p| - 1]);
      forall i | 0 <= i < |p| - 1
        ensures FragHeight(m, p[i]) == 0
      {
        assert p[i] == p[..|p| - 1][i];
      }
    }
  }

  /** Every head is followed by a fragment of its own tail, so the block a head was cut from is
      the block the following fragments continue. */
  ghost predicate HeadsLinked<T>(fs: seq<Fragment<T>>) {
    forall i :: 0 <= i < |fs| && fs[i].Head? ==>
      && fs[i].cut <= |fs[i].block.tokens|
      && i + 1 < |fs|
      && fs[i + 1].block == TailPart(fs[i].block, fs[i].cut)
  }

  /** Where heads are linked to their tails, the fragments from any position on reassemble to a
      list that starts with that fragment's block: a head's block is the block that was cut. */
  lemma {:induction false} HeadReassembles<T>(fs: seq<Fragment<T>>)
    requires HeadsLinked(fs)
    ensures forall i :: 0 <= i < |fs| ==> |Reassemble(fs[i..])| > 0 && Reassemble(fs[i..])[0] == fs[i].block
    decreases |fs|
  {
    if |fs| > 0 {
      var t := fs[1..];
      forall i | 0 <= i < |t| && t[i].Head?
        ensures t[i].cut <= |t[i].block.tokens| && i + 1 < |t| && t[i + 1].block == TailPart(t[i].block, t[i].cut)
      {
        assert t[i] == fs[i + 1] && t[i + 1] == fs[i + 2];
      }
      HeadReassembles(t);
      assert fs[0..] == fs;
      if fs[0].Head? {
        var b := fs[0].block;
        var k := fs[0].cut;
        assert t[0..] == t;
        assert Reassemble(t)[0] == TailPart(b, k);
        assert b.tokens[..k] + b.tokens[k..] == b.tokens;
      }
      forall i | 1 <= i < |fs|
        ensures |Reassemble(fs[i..])| > 0 && Reassemble(fs[i..])[0] == fs[i].block
      {
        assert fs[i..] == t[i - 1..];
      }
    }
  }

  /** Cutting the front block of the queue keeps every head linked to its tail. */
  lemma CutLinked<T>(x: seq<Fragment<T>>, b: Block<T>, k: nat, ws: seq<Fragment<T>>)
    requires k <= |b.tokens|
    requires HeadsLinked(x + ([Whole(b)] + ws))
    ensures HeadsLinked(x + ([Head(b, k), Whole(TailPart(b, k))] + ws))
  {
    var o := x + ([Whole(b)] + ws);
    var n := x + ([Head(b, k), Whole(TailPart(b, k))] + ws);
    forall i | 0 <= i < |n| && n[i].Head?
      ensures n[i].cut <= |n[i].block.tokens| && i + 1 < |n| && n[i + 1].block == TailPart(n[i].block, n[i].cut)
    {
      if i < |x| {
        assert n[i] == o[i];
        assert n[i + 1].block == o[i + 1].block;
      } else if i > |x| + 1 {
        assert n[i] == o[i - 1] && n[i + 1] == o[i];
      }
    }
  }

  /** The loop invariant relating a state to the blocks it started from: the finished pages, the
      current page and the queue reassemble to the input, with every head linked to its tail;
      finished pages are non-empty and laid out well; the current page holds only whole blocks. */
  ghost predicate Inv<T>(m: Measure<T>, blocks: seq<Block<T>>, s: State<T>) {
    && Reassemble(Flatten(s.done) + s.page + Wholes(s.queue)) == blocks
    && HeadsLinked(Flatten(s.done) + s.page + Wholes(s.queue))
    && (forall j :: 0 <= j < |s.done| ==> |s.done[j]| > 0 && PageOk(m, s.done[j]))
    && PageOk(m, s.page)
    && (forall i :: 0 <= i < |s.page| ==> s.page[i].Whole?)
  }

  lemma {:induction false} StepInv<T>(m: Measure<T>, blocks: seq<Block<T>>, s: State<T>)
    requires |s.queue| > 0 && Inv(m, blocks, s)
    ensures Inv(m, blocks, Step(m, s))
  {
    match Decide(m, Used(m, s.page), s.queue[0])
    case Place => PlaceInv(m, blocks, s);
    case Force => PlaceInv(m, blocks, s);
    case Flush => FlushInv(m, blocks, s);
    case Cut(k) => CutInv(m, blocks, s, k);
  }

  lemma FlushInv<T>(m: Measure<T>, blocks: seq<Block<T>>, s: State<T>)
    requires |s.queue| > 0 && Inv(m, blocks, s)
    requires Decide(m, Used(m, s.page), s.queue[0]) == Flush
    ensures Inv(m, blocks, Step(m, s))
  {
    var r := Step(m, s);
    assert r == State(s.queue, s.done + [s.page], []);
    FlattenAppend(s.done, s.page);
    assert Flatten(r.done) + r.page + Wholes(r.queue) == Flatten(s.done) + s.page + Wholes(s.queue);
    DoneAppend(m, s.done, s.page);
  }

  lemma CutInv<T>(m: Measure<T>, blocks: seq<Block<T>>, s: State<T>, k: nat)
    requires |s.queue| > 0 && Inv(m, blocks, s)
    requires Decide(m, Used(m, s.page), s.queue[0]) == Cut(k)
    ensures Inv(m, blocks, Step(m, s))
  {
    var b := s.queue[0];
    var rest := s.queue[1..];
    var closed := s.page + [Head(b, k)];
    assert Step(m, s) == State([TailPart(b, k)] + rest, s.done + [closed], []);
    assert s.queue == [b] + rest;
    CutTrail(s.done, s.page, b, k, rest);
    CutLinked(Flatten(s.done) + s.page, b, k, Wholes(rest));
    PageOkAppend(m, s.page, Head(b, k));
    DoneAppend(m, s.done, closed);
  }

  /** Closing a page with the head of `b` and queueing its tail keeps what the state reassembles to. */
  lemma CutTrail<T>(done: seq<Page<T>>, page: Page<T>, b: Block<T>, k: nat, rest: seq<Block<T>>)
    requires k <= |b.tokens|
    ensures Reassemble(Flatten(done + [page + [Head(b, k)]]) + [] + Wholes([TailPart(b, k)] + rest))
         == Reassemble(Flatten(done) + page + Wholes([b] + rest))
    ensures Flatten(done + [page + [Head(b, k)]]) + [] + Wholes([TailPart(b, k)] + rest)
         == (Flatten(done) + page) + ([Head(b, k), Whole(TailPart(b, k))] + Wholes(rest))
    ensures Flatten(done) + page + Wholes([b] + rest) == (Flatten(done) + page) + ([Whole(b)] + Wholes(rest))
  {
    var x := Flatten(done) + page;
    var ws := Wholes(rest);
    var h := Head(b, k);
    var t := Whole(TailPart(b, k));
    FlattenAppend(done, page + [h]);
    WholesCons(b, rest);
    WholesCons(TailPart(b, k), rest);
    SplitMerges(b, k, ws);
    ReassembleCongruent(x, [h, t] + ws, [Whole(b)] + ws);
    Regroup(Flatten(done), page, h, t, ws);
    assert Flatten(done) + page + ([Whole(b)] + ws) == x + ([Whole(b)] + ws);
  }

  lemma WholesCons<T>(b: Block<T>, rest: seq<Block<T>>)
    ensures Wholes([b] + rest) == [Whole(b)] + Wholes(rest)
  {
    assert ([b] + rest)[1..] == rest;
  }

  lemma Regroup<T>(f: seq<Fragment<T>>, page: Page<T>, h: Fragment<T>, t: Fragment<T>, ws: seq<Fragment<T>>)
    ensures f + (page + [h]) + [] + ([t] + ws) == (f + page) + ([h, t] + ws)
  {
  }

  lemma PlaceInv<T>(m: Measure<T>, blocks: seq<Block<T>>, s: State<T>)
    requires |s.queue| > 0 && Inv(m, blocks, s)
    requires Decide(m, Used(m, s.page), s.queue[0]) in {Place, Force}
    ensures Inv(m, blocks, Step(m, s))
  {
    var b := s.queue[0];
    var rest := s.queue[1..];
    assert Step(m, s) == State(rest, s.done, s.page + [Whole(b)]);
    assert s.queue == [b] + rest;
    WholesCons(b, rest);
    PlaceTrail(Flatten(s.done), s.page, b, Wholes(rest));
    PageOkAppend(m, s.page, Whole(b));
  }

  /** Moving the front of the queue onto the page keeps the fragment list itself. */
  lemma PlaceTrail<T>(x: seq<Fragment<T>>, page: Page<T>, b: Block<T>, ws: seq<Fragment<T>>)
    ensures x + (page + [Whole(b)]) + ws == x + page + ([Whole(b)] + ws)
  {
  }

  lemma DoneAppend<T>(m: Measure<T>, done: seq<Page<T>>, p: Page<T>)
    requires forall j :: 0 <= j < |done| ==> |done[j]| > 0 && PageOk(m, done[j])
    requires |p| > 0 && PageOk(m, p)
    ensures forall j :: 0 <= j < |done + [p]| ==> |(done + [p])[j]| > 0 && PageOk(m, (done + [p])[j])
  {
  }

  lemma {:induction false} PackInv<T>(m: Measure<T>, blocks: seq<Block<T>>, s: State<T>)
    requires Inv(m, blocks, s)
    ensures Inv(m, blocks, Pack(m, s))
    decreases Weight(s.queue), if Used(m, s.page) > 0 then 1 else 0
  {
    if |s.queue| > 0 {
      StepInv(m, blocks, s);
      PackInv(m, blocks, Step(m, s));
    }
  }

  /** The whole packer: pages of fragments for a list of measured blocks. */
  function Paginate<T>(m: Measure<T>, blocks: seq<Block<T>>): seq<Page<T>> {
    Finish(Pack(m, State(blocks, [], [])))
  }

  /** What the packer promises. Gluing every head to what follows it gives back the input blocks
      in order, so no token is lost or repeated. There is always at least one page, and only a
      document without blocks gets the single empty page. Every page is laid out within the
      capacity or by its one escape (see `Overfull`), and only a wrappable block is ever cut,
      at its cut point. Each head is followed by the rest of the very block it was cut from, so
      the fragments from a head on reassemble to a list that starts with that block. */
  lemma {:induction false} PaginateSpec<T>(m: Measure<T>, blocks: seq<Block<T>>)
    ensures Reassemble(Flatten(Paginate(m, blocks))) == blocks
    ensures HeadsLinked(Flatten(Paginate(m, blocks)))
    ensures forall i :: 0 <= i < |Flatten(Paginate(m, blocks))| ==>
      |Reassemble(Flatten(Paginate(m, blocks))[i..])| > 0 &&
      Reassemble(Flatten(Paginate(m, blocks))[i..])[0] == Flatten(Paginate(m, blocks))[i].block
    ensures ShownTokens(Flatten(Paginate(m, blocks))) == AllTokens(blocks)
    ensures |Paginate(m, blocks)| > 0
    ensures Paginate(m, blocks) == [[]] <==> |blocks| == 0
    ensures forall j :: 0 <= j < |Paginate(m, blocks)| ==> PageOk(m, Paginate(m, blocks)[j])
    ensures |blocks| > 0 ==> forall j :: 0 <= j < |Paginate(m, blocks)| ==> |Paginate(m, blocks)[j]| > 0
  {
    PaginateLayout(m, blocks);
    PaginateLinked(m, blocks);
  }

  /** The packer's pages reassemble to the input and are laid out well. */
  lemma PaginateLayout<T>(m: Measure<T>, blocks: seq<Block<T>>)
    ensures Reassemble(Flatten(Paginate(m, blocks))) == blocks
    ensures ShownTokens(Flatten(Paginate(m, blocks))) == AllTokens(blocks)
    ensures |Paginate(m, blocks)| > 0
    ensures Paginate(m, blocks) == [[]] <==> |blocks| == 0
    ensures forall j :: 0 <= j < |Paginate(m, blocks)| ==> PageOk(m, Paginate(m, blocks)[j])
    ensures |blocks| > 0 ==> forall j :: 0 <= j < |Paginate(m, blocks)| ==> |Paginate(m, blocks)[j]| > 0
  {
    var s := Pack(m, State(blocks, [], []));
    PackedInv(m, blocks);
    FinishInv(m, blocks, s);
    ReassembleTokens(Flatten(Finish(s)));
  }

  /** The invariant holds once the loop has run from the initial state. */
  lemma PackedInv<T>(m: Measure<T>, blocks: seq<Block<T>>)
    ensures Inv(m, blocks, Pack(m, State(blocks, [], [])))
  {
    var s0 := State(blocks, [], []);
    assert Flatten(s0.done) + s0.page + Wholes(s0.queue) == Wholes(blocks);
    WholesReassemble(blocks);
    PackInv(m, blocks, s0);
  }

  /** The packer's heads stay linked to their tails. */
  lemma PaginateLinked<T>(m: Measure<T>, blocks: seq<Block<T>>)
    ensures HeadsLinked(Flatten(Paginate(m, blocks)))
    ensures forall i :: 0 <= i < |Flatten(Paginate(m, blocks))| ==>
      |Reassemble(Flatten(Paginate(m, blocks))[i..])| > 0 &&
      Reassemble(Flatten(Paginate(m, blocks))[i..])[0] == Flatten(Paginate(m, blocks))[i].block
  {
    var fs := Flatten(Paginate(m, blocks));
    assert HeadsLinked(fs) by {
      PackedInv(m, blocks);
      FinishInv(m, blocks, Pack(m, State(blocks, [], [])));
    }
    HeadReassembles(fs);
  }

  /** The pages kept at the end are those of the invariant. */
  lemma FinishInv<T>(m: Measure<T>, blocks: seq<Block<T>>, s: State<T>)
    requires Inv(m, blocks, s) && |s.queue| == 0
    ensures Reassemble(Flatten(Finish(s))) == blocks
    ensures HeadsLinked(Flatten(Finish(s)))
    ensures |Finish(s)| > 0
    ensures Finish(s) == [[]] <==> |blocks| == 0
    ensures forall j :: 0 <= j < |Finish(s)| ==> PageOk(m, Finish(s)[j])
    ensures |blocks| > 0 ==> forall j :: 0 <= j < |Finish(s)| ==> |Finish(s)[j]| > 0
  {
    var pages := if |s.page| > 0 then s.done + [s.page] else s.done;
    assert Wholes(s.queue) == [];
    if |s.page| > 0 {
      FlattenAppend(s.done, s.page);
      DoneAppend(m, s.done, s.page);
      assert Flatten(s.done) + s.page + Wholes(s.queue) == Flatten(pages);
    } else {
      assert Flatten(s.done) + s.page + Wholes(s.queue) == Flatten(pages);
    }
    if |pages| == 0 {
      assert Flatten(pages) == [];
      assert PageOk(m, []);
    } else if |blocks| == 0 {
      assert |pages[0]| > 0;
      FlattenNonEmpty(pages);
    }
  }

  /** A list of pages whose first page has a fragment has fragments, so reassembles to something. */
  lemma FlattenNonEmpty<T>(ps: seq<Page<T>>)
    requires |ps| > 0 && |ps[0]| > 0
    ensures |Reassemble(Flatten(ps))| > 0
  {
    FlattenLength(ps);
    var fs := Flatten(ps);
    assert |fs| > 0;
  }

  lemma {:induction false} FlattenLength<T>(ps: seq<Page<T>>)
    requires |ps| > 0
    ensures |Flatten(ps)| >= |ps[0]|
    decreases |ps|
  {
    if |ps| > 1 {
      FlattenLength(ps[..|ps| - 1]);
    }
  }

  lemma {:induction false} WholesReassemble<T>(bs: seq<Block<T>>)
    ensures Reassemble(Wholes(bs)) == bs
    decreases |bs|
  {
    if |bs| > 0 {
      assert Wholes(bs)[1..] == Wholes(bs[1..]);
      WholesReassemble(bs[1..]);
      assert bs == [bs[0]] + bs[1..];
    }
  }
}
