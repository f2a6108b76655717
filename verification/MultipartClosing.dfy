/** A whole body with anything behind its closing `--`. */
module MultipartClosing {
  import opened Bytes
  import opened Common
  import opened Multipart
  import opened MultipartProperties
  import opened MultipartSplits
  import opened MultipartEpilogue

  /** A preamble, the body up to its last "--boundary", the closing and an
      epilogue. */
  function Whole(s: Setup, pre: Bytes, parts: seq<Part>, e: Bytes): Bytes
  {
    pre + Opened(s.boundary, parts) + (DASHES + e)
  }

  /** For fitting parts, and any preamble: every cut of the body and its epilogue
      gives the parts back if and only if what follows each CRLF in the epilogue is
      a nonempty header line below the limit that is taken or, after the last one,
      no more than the limit. */
  lemma EpilogueIsHarmlessIff(s: Setup, pre: Bytes, parts: seq<Part>, e: Bytes)
    requires Written(s, parts) && AllFit(s, parts) && PreambleFits(s.opening, pre)
    ensures (forall blocks | Concat(blocks) == Whole(s, pre, parts, e) :: GivesBack(s, parts, blocks))
       <==> Harmless(s.cb, e)
  {
    if Harmless(s.cb, e) {
      forall blocks | Concat(blocks) == Whole(s, pre, parts, e)
        ensures GivesBack(s, parts, blocks)
      {
        HarmlessGivesBack(s, pre, parts, e, blocks);
      }
    } else {
      var k :| OccursAt(e, CRLF, k) && !QuietLine(s.cb, e[k + 2..]);
      var blocks := HarmfulCut(s, pre, parts, e, k);
    }
  }

  /** Without the line end, as other writers leave the body: every cut works. */
  lemma NoFinalLineEnd(s: Setup, parts: seq<Part>, blocks: seq<Bytes>)
    requires Written(s, parts) && AllFit(s, parts)
    requires Concat(blocks) == Opened(s.boundary, parts) + DASHES
    ensures GivesBack(s, parts, blocks)
  {
    FinalCrlfIsHarmless(s.cb);
    NoPreambleFits(s.opening);
    assert Whole(s, [], parts, []) == Opened(s.boundary, parts) + DASHES;
    HarmlessGivesBack(s, [], parts, [], blocks);
  }

  // Up to the closing ------------------------------------------------------------------

  /** In front of the closing `--`, everything read. */
  ghost predicate AtTheClosing(all: seq<Part>, c: Config)
  {
    c.state.AfterBoundary? && c.win == [] && !c.valid && Assemble(c.events) == all
  }

  /** A parser that waits, with no more to come than the closing, has read the rest. */
  lemma NothingElseLeft(s: Setup, all: seq<Part>, c: Config, cur: Cursor)
    requires Tracks(s, all, c, DASHES + CRLF, cur) && Starved(s, c.win, cur)
    ensures AtTheClosing(all, c)
  {
    match cur
    case AtStart(_, parts) => AfterLength(s.closing, parts);
    case AtEntry(parts) => AfterLength(s.closing, parts);
    case InLines(todo, content, more) => AfterLength(s.closing, more);
    case InContent(content, more) => AfterLength(s.closing, more);
    case AtBoundary(more) =>
      AfterLength(s.closing, more);
      assert Assemble(c.events) + [] == Assemble(c.events);
    case Closed(_) =>
    case Finished =>
  }

  /** The loop does not stop in front of the closing with nothing left. */
  lemma StopsElsewhere(s: Setup, c: Config)
    requires c.win != [] && Step(s, c).1 == Stop(true)
    ensures var next := Step(s, c).0; next.state.AfterBoundary? ==> next.win != []
  {
    if c.state.HeaderLines? {
      HeadersAhead(s.cb, c, []);
    }
  }

  lemma TakesTheClosing(s: Setup, c: Config)
    ensures c.state.AfterBoundary? && DASHES <= c.win ==> Run(s, c).0.valid
  {
    if c.state.AfterBoundary? && DASHES <= c.win {
      assert c.win[0] == DASHES[0];
      RunOnwards(s, c, c.(win := [], valid := true));
    }
  }

  /** More input behind what ends in front of the closing is read from there. */
  lemma {:induction false} ReadsOn(s: Setup, c: Config, y: Bytes)
    requires Run(s, c).1
    requires var next := Run(s, c).0; next.state.AfterBoundary? && next.win == [] && !next.valid
    ensures Run(s, Plus(c, y)) == Run(s, Plus(Run(s, c).0, y))
    decreases |c.win|, if c.state.NewEntry? then 1 else 0
  {
    if c.win != [] {
      var (next, status) := Step(s, c);
      if status.Continue? {
        if c.state.HeaderLines? {
          FindStays(c.win, y, CRLF);
        }
        assert c.state.AfterBoundary? && DASHES <= c.win ==> Run(s, c).0.valid by {
          TakesTheClosing(s, c);
        }
        ContinueAhead(s, c, y);
        ReadsOn(s, next, y);
      } else {
        StopsElsewhere(s, c);
      }
    }
  }

  /** Fed with all that is left in front of the closing, it gets there. */
  lemma GetsThere(s: Setup, all: seq<Part>, c: Config, rest: Bytes, cur: Cursor)
    requires Fits(s) && Tracks(s, all, c, rest + (DASHES + CRLF), cur)
    ensures Feed(s, c, rest).1 && AtTheClosing(all, Feed(s, c, rest).0)
  {
    var fed := Plus(c, rest);
    assert fed.win + (DASHES + CRLF) == c.win + (rest + (DASHES + CRLF));
    RunTracks(s, all, fed, DASHES + CRLF, cur);
    var next := Run(s, fed).0;
    var cur' :| Tracks(s, all, next, DASHES + CRLF, cur') && Starved(s, next.win, cur');
    NothingElseLeft(s, all, next, cur');
  }

  lemma FeedAllFirst(s: Setup, c: Config, blocks: seq<Bytes>, next: Config, y: Bytes)
    requires blocks != [] && Feed(s, c, blocks[0]) == Feed(s, next, y)
    ensures FeedAll(s, c, blocks) == FeedAll(s, next, [y] + blocks[1..])
  {
    FeedFirst(s, next, y, blocks[1..]);
  }

  /** The first block goes beyond the last "--boundary" by y. */
  lemma BlockGoesBeyond(s: Setup, all: seq<Part>, c: Config, rest: Bytes, cur: Cursor, y: Bytes)
    requires Fits(s) && Tracks(s, all, c, rest + (DASHES + CRLF), cur)
    ensures Feed(s, c, rest + y) == Feed(s, Feed(s, c, rest).0, y)
  {
    GetsThere(s, all, c, rest, cur);
    ReadsOn(s, Plus(c, rest), y);
    assert Plus(Plus(c, rest), y) == Plus(c, rest + y);
  }

  lemma ConcatFirst(b: Bytes, others: seq<Bytes>)
    ensures Concat([b] + others) == b + Concat(others)
  {
    assert ([b] + others)[1..] == others;
  }

  lemma FirstBlockEnds(b: Bytes, others: Bytes, rest: Bytes, tail: Bytes)
    requires b + others == rest + tail
    ensures |b| <= |rest| ==> b + rest[|b|..] == rest && others == rest[|b|..] + tail
    ensures |b| > |rest| ==> rest + b[|rest|..] == b && b[|rest|..] + others == tail
  {
    if |b| <= |rest| {
      assert b == (b + others)[..|b|] == (rest + tail)[..|b|] == rest[..|b|];
      assert others == (b + others)[|b|..] == (rest + tail)[|b|..];
    } else {
      assert rest == (rest + tail)[..|rest|] == (b + others)[..|rest|] == b[..|rest|];
      assert tail == (rest + tail)[|rest|..] == (b + others)[|rest|..];
    }
  }

  ghost predicate Returns(r: (Config, bool), all: seq<Part>)
  {
    r.1 && r.0.valid && Assemble(r.0.events) == all
  }

  /** The block with the closing in it, and what comes after. */
  lemma ClosingBlocks(s: Setup, all: seq<Part>, c: Config, blocks: seq<Bytes>, rest: Bytes, e: Bytes, cur: Cursor)
    requires Fits(s) && Harmless(s.cb, e) && Tracks(s, all, c, rest + (DASHES + CRLF), cur)
    requires blocks != [] && |rest| < |blocks[0]| && Concat(blocks) == rest + (DASHES + e)
    ensures Returns(FeedAll(s, c, blocks), all)
  {
    FirstBlockEnds(blocks[0], Concat(blocks[1..]), rest, DASHES + e);
    var y, next := blocks[0][|rest|..], Feed(s, c, rest).0;
    GetsThere(s, all, c, rest, cur);
    BlockGoesBeyond(s, all, c, rest, cur, y);
    FeedAllFirst(s, c, blocks, next, y);
    ConcatFirst(y, blocks[1..]);
    FromTheClosingOn(s, next, e);
    assert Unharmed(FeedAll(s, next, [y] + blocks[1..]), next.events);
  }

  lemma {:induction false} BlocksGoThrough(
    s: Setup, all: seq<Part>, c: Config, blocks: seq<Bytes>, rest: Bytes, e: Bytes, cur: Cursor)
    requires Fits(s) && Harmless(s.cb, e) && Tracks(s, all, c, rest + (DASHES + CRLF), cur)
    requires Concat(blocks) == rest + (DASHES + e)
    ensures Returns(FeedAll(s, c, blocks), all)
    decreases |blocks|
  {
    assert blocks != [];
    var b := blocks[0];
    if |rest| < |b| {
      ClosingBlocks(s, all, c, blocks, rest, e, cur);
    } else {
      var left := rest[|b|..];
      FirstBlockEnds(b, Concat(blocks[1..]), rest, DASHES + e);
      var fed := Plus(c, b);
      Regroup(c.win, b, left, DASHES + CRLF);
      assert b + left == rest;
      RunTracks(s, all, fed, left + (DASHES + CRLF), cur);
      var next := Run(s, fed).0;
      var cur' :| Tracks(s, all, next, left + (DASHES + CRLF), cur') && Starved(s, next.win, cur');
      BlocksGoThrough(s, all, next, blocks[1..], left, e, cur');
    }
  }

  lemma BeforeTheClosing(s: Setup, pre: Bytes, parts: seq<Part>)
    requires Written(s, parts) && AllFit(s, parts) && PreambleFits(s.opening, pre)
    ensures Fits(s)
    ensures Tracks(s, parts, INITIAL, pre + Opened(s.boundary, parts) + (DASHES + CRLF), AtStart(pre, parts))
  {
    MultipartProperties.AtTheStart(s, pre, parts);
    OpenedIsClosed(s.boundary, parts);
    Reassociate(pre, Opened(s.boundary, parts), DASHES + CRLF);
  }

  lemma HarmlessGivesBack(s: Setup, pre: Bytes, parts: seq<Part>, e: Bytes, blocks: seq<Bytes>)
    requires Written(s, parts) && AllFit(s, parts) && PreambleFits(s.opening, pre) && Harmless(s.cb, e)
    requires Concat(blocks) == Whole(s, pre, parts, e)
    ensures GivesBack(s, parts, blocks)
  {
    BeforeTheClosing(s, pre, parts);
    BlocksGoThrough(s, parts, INITIAL, blocks, pre + Opened(s.boundary, parts), e, AtStart(pre, parts));
  }

  /** A cut that shows the harm. */
  lemma HarmfulCut(s: Setup, pre: Bytes, parts: seq<Part>, e: Bytes, k: nat) returns (blocks: seq<Bytes>)
    requires Written(s, parts) && AllFit(s, parts) && PreambleFits(s.opening, pre)
    requires OccursAt(e, CRLF, k) && !QuietLine(s.cb, e[k + 2..])
    ensures Concat(blocks) == Whole(s, pre, parts, e) && !GivesBack(s, parts, blocks)
  {
    var open := pre + Opened(s.boundary, parts);
    BeforeTheClosing(s, pre, parts);
    GetsThere(s, parts, INITIAL, open, AtStart(pre, parts));
    var next := Feed(s, INITIAL, open).0;
    var others := HarmfulPlace(s, next, e, k);
    blocks := [open] + others;
    ConcatFirst(open, others);
    FeedFirst(s, INITIAL, open, others);
  }
}
