/** The header-length check looks at whatever has arrived when a call enters the
    header state, so a long line passes or fails depending on the cut.  Lines
    below the limit are exactly the ones no cut can make fail. */
module MultipartLimit {
  import opened Bytes
  import opened Multipart
  import opened MultipartProperties
  import opened MultipartSplits

  ghost predicate LineOk(cb: Callbacks, line: Bytes)
  {
    line != [] && !Occurs(line, CRLF) && cb.line(line)
  }

  /** A part that fits but for the length of its header lines. */
  ghost predicate PartOk(s: Setup, p: Part)
  {
    (forall l | l in p.lines :: LineOk(s.cb, l)) && !Occurs(p.content, s.closing)
  }

  predicate LinesShort(p: Part)
  {
    forall l | l in p.lines :: |l| < HEADER_MAX_LENGTH
  }

  // The result -----------------------------------------------------------------------------

  /** For parts that fit but for the length of their lines: every cut gives the
      parts back if and only if every header line is below the limit. */
  lemma EveryCutWorksIffLinesAreShort(s: Setup, parts: seq<Part>)
    requires Written(s, parts)
    requires forall p | p in parts :: PartOk(s, p)
    ensures (forall blocks | Concat(blocks) == Serialized(s.boundary, parts) :: GivesBack(s, parts, blocks))
       <==> (forall p | p in parts :: LinesShort(p))
  {
    if forall p | p in parts :: LinesShort(p) {
      forall p | p in parts
        ensures PartFits(s, p)
      {
        ShortLinesFit(s, p);
      }
      forall blocks | Concat(blocks) == Serialized(s.boundary, parts)
        ensures GivesBack(s, parts, blocks)
      {
        AnySplitGivesThePartsBack(s, parts, blocks);
      }
    } else {
      FirstLongLine(parts);
      var k: nat, j: nat :| FirstLong(parts, k, j);
      var p := parts[k];
      forall q | q in parts[..k]
        ensures PartFits(s, q)
      {
        ShortLinesFit(s, q);
      }
      forall l | l in p.lines[..j]
        ensures LineFits(s.cb, l)
      {
        assert PartOk(s, p) && l in p.lines;
        assert LineOk(s.cb, l);
      }
      var blocks := LongLineHasABadCut(s, parts[..k], p, parts[k + 1..], j);
      assert parts[..k] + [p] + parts[k + 1..] == parts;
      assert !GivesBack(s, parts, blocks);
    }
  }

  /** Nothing unread, and a header line comes next. */
  predicate AtALine(c: Config)
  {
    c.win == [] && (c.state.NewEntry? || c.state.HeaderLines?)
  }

  /** A line of 8192 bytes or more, with a block that ends 8193 bytes into it. */
  lemma LongLineFails(s: Setup, c: Config, line: Bytes)
    requires AtALine(c)
    requires !Occurs(line, CRLF) && HEADER_MAX_LENGTH <= |line|
    ensures !Feed(s, c, (line + CRLF)[..HEADER_MAX_LENGTH + 1]).1
  {
    var w, rest := (line + CRLF)[..HEADER_MAX_LENGTH + 1], (line + CRLF)[HEADER_MAX_LENGTH + 1..];
    assert w + rest == line + CRLF + [];
    FindInWindow(w, rest, line, CRLF, []);
    assert [] + w == w;
    var fed := c.(win := w);
    assert c.(win := c.win + w) == fed;
    if c.state.NewEntry? {
      var entered := fed.(lines := [], state := HeaderLines);
      assert Step(s, fed) == (entered, Continue);
      assert Step(s, entered).1 == Stop(false);
      assert !Run(s, entered).1;
      assert Run(s, fed) == Run(s, entered);
    } else {
      assert Step(s, fed).1 == Stop(false);
    }
  }

  // Up to a long line ----------------------------------------------------------------------

  /** The body up to the header lines of the part after `done`, and the first
      `lines` of these. */
  function Before(b: Bytes, done: seq<Part>, lines: seq<Bytes>): Bytes
  {
    if done == [] then DASHES + b + CRLF + Lines(lines)
    else DASHES + b + CRLF + Lines(done[0].lines) + CRLF + done[0].content + CRLF + Before(b, done[1..], lines)
  }

  lemma {:induction false} LinesConcat(l1: seq<Bytes>, l2: seq<Bytes>)
    ensures Lines(l1 + l2) == Lines(l1) + Lines(l2)
  {
    if l1 == [] {
      assert l1 + l2 == l2;
    } else {
      LinesConcat(l1[1..], l2);
      assert (l1 + l2)[1..] == l1[1..] + l2;
    }
  }

  lemma {:induction false} BodySplitsAtLine(
    s: Setup, done: seq<Part>, l1: seq<Bytes>, l2: seq<Bytes>, content: Bytes, more: seq<Part>)
    requires s == SetupFor(s.boundary, s.cb)
    ensures Serialized(s.boundary, done + [Part(l1 + l2, content)] + more)
         == Before(s.boundary, done, l1) + Remaining(s, InLines(l2, content, more))
    decreases |done|
  {
    var b, d := s.boundary, s.closing;
    var parts := done + [Part(l1 + l2, content)] + more;
    if done == [] {
      LinesConcat(l1, l2);
      assert parts[0] == Part(l1 + l2, content) && parts[1..] == more;
      var rest := CRLF + (content + d + After(d, more));
      assert Entry(d, parts) == Lines(l1) + Lines(l2) + rest;
      assert Serialized(b, parts) == DASHES + b + (CRLF + Entry(d, parts));
      assert Before(b, done, l1) + (Lines(l2) + rest) == DASHES + b + CRLF + Lines(l1) + (Lines(l2) + rest);
    } else {
      assert parts[0] == done[0] && parts[1..] == done[1..] + [Part(l1 + l2, content)] + more;
      SerializedUnfolds(b, parts);
      BodySplitsAtLine(s, done[1..], l1, l2, content, more);
    }
  }

  /** What is left of the body once the lines kept have been read. */
  function LeftOver(s: Setup): Bytes
  {
    Remaining(s, InLines([], [], []))
  }

  /** A parser that has been fed everything up to the end of a header line, and
      waits for more, has read all of it. */
  lemma WaitsForALine(s: Setup, done: seq<Part>, lines: seq<Bytes>, c: Config, cur: Cursor)
    requires Tracks(s, done + [Part(lines, [])], c, LeftOver(s), cur) && Starved(s, c.win, cur)
    ensures AtALine(c)
  {
    assert |LeftOver(s)| == |s.closing| + 6;
    var total := done + [Part(lines, [])];
    assert total[|total| - 1] == Part(lines, []);
    match cur
    case AtStart(_, parts) =>
      AfterLength(s.closing, parts);
    case AtEntry(_) =>
    case InLines(todo, content, more) =>
      AfterLength(s.closing, more);
      if more == [] {
        assert (Assemble(c.events) + [Part(c.lines + todo, content)])[|total| - 1].content == content;
      }
    case InContent(content, more) =>
      AfterLength(s.closing, more);
    case AtBoundary(more) =>
      AfterLength(s.closing, more);
    case Closed(_) =>
    case Finished =>
  }

  /** Everything before a long line is taken, and the long line fails. */
  lemma LongLineHasABadCut(s: Setup, done: seq<Part>, p: Part, more: seq<Part>, j: nat) returns (blocks: seq<Bytes>)
    requires s == SetupFor(s.boundary, s.cb) && CR !in s.boundary && ReceiversAccept(s.cb)
    requires (forall q | q in done :: PartFits(s, q)) && PartOk(s, p)
    requires j < |p.lines| && HEADER_MAX_LENGTH <= |p.lines[j]|
    requires forall l | l in p.lines[..j] :: LineFits(s.cb, l)
    ensures Concat(blocks) == Serialized(s.boundary, done + [p] + more)
    ensures !FeedAll(s, INITIAL, blocks).1
  {
    var b, line := s.boundary, p.lines[j];
    var start := Before(b, done, p.lines[..j]);
    var rest := Remaining(s, InLines(p.lines[j + 1..], p.content, more));
    BodySplitsAtLine(s, done, p.lines[..j], p.lines[j..], p.content, more);
    assert p.lines[..j] + p.lines[j..] == p.lines && p == Part(p.lines, p.content);
    assert p.lines[j..] == [line] + p.lines[j + 1..];
    assert Remaining(s, InLines(p.lines[j..], p.content, more)) == line + CRLF + rest;
    var cut := (line + CRLF)[..HEADER_MAX_LENGTH + 1];
    var tail := (line + CRLF)[HEADER_MAX_LENGTH + 1..];
    blocks := [start, cut, tail + rest];
    assert Concat(blocks[1..]) == cut + (tail + rest) by {
      assert blocks[1..] == [cut, tail + rest] && [cut, tail + rest][1..] == [tail + rest];
      assert Concat([tail + rest]) == tail + rest + Concat([]);
    }
    assert cut + (tail + rest) == line + CRLF + rest;

    KeptLinesAreRead(s, done, p.lines[..j]);
    var next: Config :| Feed(s, INITIAL, start) == (next, true) && AtALine(next);
    assert LineOk(s.cb, line);
    LongLineFails(s, next, line);
    assert blocks[1..][0] == cut;
    assert !FeedAll(s, next, blocks[1..]).1;
  }

  /** The lines kept, as a body of their own. */
  lemma KeptLinesTrack(s: Setup, done: seq<Part>, lines: seq<Bytes>)
    requires s == SetupFor(s.boundary, s.cb) && CR !in s.boundary && ReceiversAccept(s.cb)
    requires AllFit(s, done) && (forall l | l in lines :: LineFits(s.cb, l))
    ensures var kept := done + [Part(lines, [])];
            && Fits(s)
            && Tracks(s, kept, Plus(INITIAL, Before(s.boundary, done, lines)), LeftOver(s), AtStart([], kept))
  {
    var kept := done + [Part(lines, [])];
    assert PartFits(s, Part(lines, [])) by {
      assert !Occurs([], s.closing);
    }
    BodySplitsAtLine(s, done, lines, [], [], []);
    assert lines + [] == lines && kept + [] == kept && [] + kept == kept;
    BoundaryFits(s, kept);
    NoPreambleFits(s.opening);
    assert [] + Before(s.boundary, done, lines) == Before(s.boundary, done, lines);
  }

  lemma KeptLinesAreRead(s: Setup, done: seq<Part>, lines: seq<Bytes>)
    requires s == SetupFor(s.boundary, s.cb) && CR !in s.boundary && ReceiversAccept(s.cb)
    requires AllFit(s, done) && (forall l | l in lines :: LineFits(s.cb, l))
    ensures exists next :: Feed(s, INITIAL, Before(s.boundary, done, lines)) == (next, true) && AtALine(next)
  {
    var kept := done + [Part(lines, [])];
    var c := Plus(INITIAL, Before(s.boundary, done, lines));
    KeptLinesTrack(s, done, lines);
    RunTracks(s, kept, c, LeftOver(s), AtStart([], kept));
    var next := Run(s, c).0;
    var cur :| Tracks(s, kept, next, LeftOver(s), cur) && Starved(s, next.win, cur);
    WaitsForALine(s, done, lines, next, cur);
  }

  /** The first part and line that are too long. */
  predicate FirstLong(parts: seq<Part>, k: nat, j: nat)
  {
    && k < |parts| && j < |parts[k].lines| && HEADER_MAX_LENGTH <= |parts[k].lines[j]|
    && (forall p | p in parts[..k] :: LinesShort(p))
    && (forall l | l in parts[k].lines[..j] :: |l| < HEADER_MAX_LENGTH)
  }

  lemma FirstLongLine(parts: seq<Part>)
    requires exists p | p in parts :: !LinesShort(p)
    ensures exists k: nat, j: nat :: FirstLong(parts, k, j)
  {
    var k := 0;
    while LinesShort(parts[k])
      invariant k < |parts|
      invariant forall p | p in parts[..k] :: LinesShort(p)
      invariant exists p | p in parts[k..] :: !LinesShort(p)
      decreases |parts| - k
    {
      assert parts[k..] == [parts[k]] + parts[k + 1..];
      k := k + 1;
    }
    var lines := parts[k].lines;
    var j := 0;
    while |lines[j]| < HEADER_MAX_LENGTH
      invariant j < |lines|
      invariant forall l | l in lines[..j] :: |l| < HEADER_MAX_LENGTH
      invariant exists l | l in lines[j..] :: |l| >= HEADER_MAX_LENGTH
      decreases |lines| - j
    {
      assert lines[j..] == [lines[j]] + lines[j + 1..];
      j := j + 1;
    }
    assert FirstLong(parts, k, j);
  }

  lemma ShortLinesFit(s: Setup, p: Part)
    requires PartOk(s, p) && LinesShort(p)
    ensures PartFits(s, p)
  {
    forall l | l in p.lines
      ensures LineFits(s.cb, l)
    {
      assert LineOk(s.cb, l);
    }
  }
}
