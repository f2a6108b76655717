/** Input of any kind: a condition on its bytes alone under which the cut into
    blocks makes no difference. */
module MultipartAnyInput {
  import opened Bytes
  import opened Multipart
  import opened MultipartProperties
  import opened MultipartSplits

  // The condition ----------------------------------------------------------------------

  /** An entry may start at k, right behind a delimiter line. */
  ghost predicate EntryStarts(s: Setup, t: Bytes, k: nat)
  {
    OccursAt(t, s.opening, k - |s.opening|) || OccursAt(t, s.closing + CRLF, k - |s.closing + CRLF|)
  }

  ghost predicate PlainLines(lines: seq<Bytes>)
  {
    forall l | l in lines :: l != [] && !Occurs(l, CRLF)
  }

  ghost predicate LinesBetween(s: Setup, t: Bytes, j: nat, k: nat, lines: seq<Bytes>)
  {
    j <= k <= |t| && EntryStarts(s, t, j) && PlainLines(lines) && t[j..k] == Lines(lines)
  }

  /** A header line may start at k: there are only nonempty lines between a
      delimiter line and this place. */
  ghost predicate LineStarts(s: Setup, t: Bytes, k: nat)
  {
    exists j: nat, lines :: LinesBetween(s, t, j, k, lines)
  }

  /** The line at k is below the limit, or all that is left is within it. */
  ghost predicate ShortAt(t: Bytes, k: nat)
  {
    k <= |t| && var p := Find(t[k..], CRLF);
    if p == |t| - k then p <= HEADER_MAX_LENGTH else p < HEADER_MAX_LENGTH
  }

  ghost predicate HeadersShort(s: Setup, t: Bytes)
  {
    forall k: nat | LineStarts(s, t, k) :: ShortAt(t, k)
  }

  // The result -------------------------------------------------------------------------

  /** For any input in which no header line is too long: every cut whose last
      block completes the first closing delimiter, if there is one, has the result
      of one call with all of the input. */
  lemma ShortHeadersMakeCutsEqual(s: Setup, blocks: seq<Bytes>)
    requires ContentSteady(s.cb) && blocks != []
    requires HeadersShort(s, Concat(blocks))
    requires !Occurs(Concat(blocks[..|blocks| - 1]), s.closing + DASHES)
    ensures SameResult(FeedAll(s, INITIAL, blocks), Feed(s, INITIAL, Concat(blocks)))
  {
    var t := Concat(blocks);
    assert [] + t == t && t[0..] == t;
    assert At(s, t, INITIAL, t, 0);
    FrontOf(blocks);
    CutIsRegular(s, t, INITIAL, blocks, 0);
    EveryRegularCutIsTheSame(s, INITIAL, blocks);
  }

  /** So all cuts into nonempty blocks agree if the closing delimiter comes at the
      end of the input or not at all. */
  lemma AllCutsAgree(s: Setup, t: Bytes, blocks: seq<Bytes>)
    requires ContentSteady(s.cb) && t != []
    requires HeadersShort(s, t) && !Occurs(t[..|t| - 1], s.closing + DASHES)
    requires Concat(blocks) == t && forall b | b in blocks :: b != []
    ensures SameResult(FeedAll(s, INITIAL, blocks), Feed(s, INITIAL, t))
  {
    FrontOf(blocks);
    var front, last := Concat(blocks[..|blocks| - 1]), blocks[|blocks| - 1];
    assert last in blocks && t == front + last;
    assert t[..|t| - 1] == front + last[..|last| - 1];
    FrontIsFree(front, last[..|last| - 1], s.closing + DASHES);
    ShortHeadersMakeCutsEqual(s, blocks);
  }

  lemma FrontOf(blocks: seq<Bytes>)
    requires blocks != []
    ensures var n := |blocks| - 1;
            && Concat(blocks) == Concat(blocks[..n]) + blocks[n]
            && Concat(blocks)[..|Concat(blocks)| - |blocks[n]|] == Concat(blocks[..n])
  {
    var n := |blocks| - 1;
    assert blocks == blocks[..n] + [blocks[n]];
    ConcatSplits(blocks[..n], [blocks[n]]);
    assert Concat([blocks[n]]) == blocks[n] + Concat([blocks[n]][1..]);
  }

  lemma {:induction false} ConcatSplits(a: seq<Bytes>, b: seq<Bytes>)
    ensures Concat(a + b) == Concat(a) + Concat(b)
  {
    if a == [] {
      assert a + b == b;
    } else {
      assert (a + b)[1..] == a[1..] + b;
      ConcatSplits(a[1..], b);
    }
  }

  lemma FrontIsFree(a: Bytes, b: Bytes, d: Bytes)
    requires !Occurs(a + b, d)
    ensures !Occurs(a, d)
  {
    forall i
      ensures !OccursAt(a, d, i)
    {
      if i + |d| <= |a| {
        OccursInExtension(a, b, d, i);
        assert !OccursAt(a + b, d, i);
      }
    }
  }

  // Where the parser stands ----------------------------------------------------------------

  ghost predicate At(s: Setup, t: Bytes, c: Config, future: Bytes, k: nat)
  {
    && k <= |t| && c.win + future == t[k..]
    && match c.state
       case Preamble => true
       case NewEntry => EntryStarts(s, t, k)
       case HeaderLines => LineStarts(s, t, k)
       case Body => true
       case AfterBoundary => OccursAt(t, s.closing, k - |s.closing|)
  }

  ghost predicate Somewhere(s: Setup, t: Bytes, c: Config, future: Bytes)
  {
    exists k :: At(s, t, c, future, k)
  }

  /** n bytes of the window are gone. */
  lemma Behind(t: Bytes, k: nat, w: Bytes, future: Bytes, n: nat)
    requires k <= |t| && w + future == t[k..] && n <= |w|
    ensures k + n <= |t| && w[n..] + future == t[k + n..] && w[..n] == t[k..k + n]
  {
    assert (w + future)[n..] == w[n..] + future && (w + future)[..n] == w[..n];
  }

  lemma OccursInWindow(t: Bytes, k: nat, w: Bytes, future: Bytes, d: Bytes, pos: nat)
    requires k <= |t| && w + future == t[k..] && OccursAt(w, d, pos)
    ensures OccursAt(t, d, k + pos)
  {
    OccursInExtension(w, future, d, pos);
    OccursBehind(t, k, d, pos);
  }

  lemma FindOccurs(w: Bytes, d: Delimiter)
    requires Find(w, d) < |w|
    ensures OccursAt(w, d, Find(w, d))
  {
    FindMeans(w, d);
  }

  lemma PreambleMoves(s: Setup, t: Bytes, c: Config, future: Bytes, k: nat)
    requires At(s, t, c, future, k) && c.state.Preamble?
    ensures Somewhere(s, t, PreambleStep(s.opening, c).0, future)
  {
    var pos := Find(c.win, s.opening);
    if pos < |c.win| {
      FindOccurs(c.win, s.opening);
      OccursInWindow(t, k, c.win, future, s.opening, pos);
      Behind(t, k, c.win, future, pos + |s.opening|);
      assert At(s, t, PreambleStep(s.opening, c).0, future, k + pos + |s.opening|);
    } else {
      assert At(s, t, PreambleStep(s.opening, c).0, future, k);
    }
  }

  lemma LinesSnoc(lines: seq<Bytes>, line: Bytes)
    ensures Lines(lines + [line]) == Lines(lines) + (line + CRLF)
  {
    if lines == [] {
      assert [line][1..] == [] && Lines([line]) == line + CRLF + Lines([]);
      assert lines + [line] == [line];
    } else {
      assert (lines + [line])[1..] == lines[1..] + [line];
      LinesSnoc(lines[1..], line);
    }
  }

  lemma NextLineStarts(s: Setup, t: Bytes, k: nat, line: Bytes)
    requires LineStarts(s, t, k) && line != [] && !Occurs(line, CRLF)
    requires k + |line| + 2 <= |t| && t[k..k + |line| + 2] == line + CRLF
    ensures LineStarts(s, t, k + |line| + 2)
  {
    var j: nat, lines: seq<Bytes> :| LinesBetween(s, t, j, k, lines);
    LinesSnoc(lines, line);
    assert t[j..k + |line| + 2] == t[j..k] + t[k..k + |line| + 2];
    assert LinesBetween(s, t, j, k + |line| + 2, lines + [line]);
  }

  lemma LineIsPlain(w: Bytes)
    requires 0 < Find(w, CRLF) < |w|
    ensures var pos := Find(w, CRLF);
            pos + 2 <= |w| && w[..pos + 2] == w[..pos] + CRLF && !Occurs(w[..pos], CRLF)
  {
    var pos := Find(w, CRLF);
    FindMeans(w, CRLF);
    assert w[pos..pos + 2] == CRLF;
    forall i
      ensures !OccursAt(w[..pos], CRLF, i)
    {
      if 0 <= i && i + 2 <= pos {
        assert !OccursAt(w, CRLF, i) && w[..pos][i..i + 2] == w[i..i + 2];
      }
    }
  }

  /** The configuration behind the line at the front of the window. */
  function BehindLine(c: Config, pos: nat): Config
    requires pos + 2 <= |c.win|
  {
    c.(win := c.win[pos + 2..], lines := c.lines + [c.win[..pos]])
  }

  lemma LineMoves(s: Setup, t: Bytes, c: Config, future: Bytes, k: nat)
    requires At(s, t, c, future, k) && c.state.HeaderLines? && 0 < Find(c.win, CRLF) < |c.win|
    ensures var pos := Find(c.win, CRLF);
            pos + 2 <= |c.win| && At(s, t, BehindLine(c, pos), future, k + pos + 2)
  {
    var pos := Find(c.win, CRLF);
    LineIsPlain(c.win);
    Behind(t, k, c.win, future, pos + 2);
    NextLineStarts(s, t, k, c.win[..pos]);
  }

  lemma EmptyLineMoves(s: Setup, t: Bytes, c: Config, future: Bytes, k: nat)
    requires At(s, t, c, future, k) && c.state.HeaderLines? && 0 == Find(c.win, CRLF) < |c.win|
    ensures ReadHeaders(s.cb, c).1 != Stop(false) ==> Somewhere(s, t, ReadHeaders(s.cb, c).0, future)
  {
    Behind(t, k, c.win, future, 2);
    assert ReadHeaders(s.cb, c).1 != Stop(false) ==> At(s, t, ReadHeaders(s.cb, c).0, future, k + 2);
  }

  lemma {:induction false} HeadersMove(s: Setup, t: Bytes, c: Config, future: Bytes, k: nat)
    requires At(s, t, c, future, k) && c.state.HeaderLines?
    ensures ReadHeaders(s.cb, c).1 != Stop(false) ==> Somewhere(s, t, ReadHeaders(s.cb, c).0, future)
    decreases |c.win|
  {
    var pos := Find(c.win, CRLF);
    if pos == |c.win| {
      assert At(s, t, ReadHeaders(s.cb, c).0, future, k);
    } else if pos == 0 {
      EmptyLineMoves(s, t, c, future, k);
    } else if s.cb.line(c.win[..pos]) {
      LineMoves(s, t, c, future, k);
      assert ReadHeaders(s.cb, c) == ReadHeaders(s.cb, BehindLine(c, pos));
      HeadersMove(s, t, BehindLine(c, pos), future, k + pos + 2);
    }
  }

  lemma DelimiterMoves(s: Setup, t: Bytes, c: Config, future: Bytes, k: nat)
    requires At(s, t, c, future, k) && Find(c.win, s.closing) < |c.win|
    ensures var pos := Find(c.win, s.closing);
            Somewhere(s, t, Delivered(c, PartData(c.win[..pos]), c.win[pos + |s.closing|..], AfterBoundary), future)
  {
    var d, pos := s.closing, Find(c.win, s.closing);
    FindOccurs(c.win, d);
    OccursInWindow(t, k, c.win, future, d, pos);
    Behind(t, k, c.win, future, pos + |d|);
    assert At(s, t, Delivered(c, PartData(c.win[..pos]), c.win[pos + |d|..], AfterBoundary), future, k + pos + |d|);
  }

  lemma ContentMoves(s: Setup, t: Bytes, c: Config, future: Bytes, k: nat, n: nat)
    requires At(s, t, c, future, k) && n <= |c.win|
    ensures Somewhere(s, t, Delivered(c, PartData(c.win[..n]), c.win[n..], Body), future)
  {
    Behind(t, k, c.win, future, n);
    assert At(s, t, Delivered(c, PartData(c.win[..n]), c.win[n..], Body), future, k + n);
  }

  lemma BodyMoves(s: Setup, t: Bytes, c: Config, future: Bytes, k: nat)
    requires At(s, t, c, future, k) && c.state.Body?
    ensures BodyStep(s.cb, s.closing, c).1 != Stop(false) ==> Somewhere(s, t, BodyStep(s.cb, s.closing, c).0, future)
  {
    var d, pos := s.closing, Find(c.win, s.closing);
    if |d| <= |c.win| && pos < |c.win| {
      DeliverTaken(s.cb, c, pos, |d|, AfterBoundary, Continue);
      DelimiterMoves(s, t, c, future, k);
    } else if |d| < |c.win| {
      DeliverTaken(s.cb, c, |c.win| - |d|, 0, Body, Stop(true));
      ContentMoves(s, t, c, future, k, |c.win| - |d|);
    } else {
      assert At(s, t, BodyStep(s.cb, s.closing, c).0, future, k);
    }
  }

  /** The two bytes behind a delimiter, as far as they have arrived. */
  lemma DelimiterGoesOn(s: Setup, t: Bytes, c: Config, future: Bytes, k: nat, two: Bytes)
    requires At(s, t, c, future, k) && c.state.AfterBoundary? && |two| == 2 && two <= c.win
    ensures OccursAt(t[..|t| - |future|], s.closing + two, k - |s.closing|)
    ensures OccursAt(t, s.closing + two, k - |s.closing|)
  {
    var i, u := k - |s.closing|, t[..|t| - |future|];
    Behind(t, k, c.win, future, 2);
    assert |t| - k == |c.win| + |future|;
    assert t[i..k + 2] == t[i..k] + t[k..k + 2] == s.closing + two;
    assert u[i..k + 2] == t[i..k + 2];
  }

  lemma BoundaryMoves(s: Setup, t: Bytes, c: Config, future: Bytes, k: nat)
    requires At(s, t, c, future, k) && c.state.AfterBoundary? && !(DASHES <= c.win)
    ensures Somewhere(s, t, BoundaryStep(c).0, future)
  {
    if CRLF <= c.win {
      DelimiterGoesOn(s, t, c, future, k, CRLF);
      Behind(t, k, c.win, future, 2);
      assert At(s, t, BoundaryStep(c).0, future, k + 2);
    } else {
      assert At(s, t, BoundaryStep(c).0, future, k);
    }
  }

  /** Every turn that does not close the form or fail keeps the place. */
  lemma StepMoves(s: Setup, t: Bytes, c: Config, future: Bytes, k: nat)
    requires At(s, t, c, future, k) && c.win != []
    requires !(c.state.AfterBoundary? && DASHES <= c.win)
    ensures Step(s, c).1 != Stop(false) ==> Somewhere(s, t, Step(s, c).0, future)
  {
    match c.state
    case Preamble => PreambleMoves(s, t, c, future, k);
    case NewEntry => EntryMoves(s, t, c, future, k);
    case HeaderLines => HeadersMove(s, t, c, future, k);
    case Body => BodyMoves(s, t, c, future, k);
    case AfterBoundary => BoundaryMoves(s, t, c, future, k);
  }

  lemma EntryMoves(s: Setup, t: Bytes, c: Config, future: Bytes, k: nat)
    requires At(s, t, c, future, k) && c.state.NewEntry? && c.win != []
    ensures Somewhere(s, t, Step(s, c).0, future)
  {
    assert LinesBetween(s, t, k, k, []);
    assert At(s, t, Step(s, c).0, future, k);
  }

  // Runs -------------------------------------------------------------------------------------

  lemma LineIsShort(s: Setup, t: Bytes, c: Config, future: Bytes, k: nat)
    requires HeadersShort(s, t) && At(s, t, c, future, k) && c.state.HeaderLines?
    ensures Find(c.win, CRLF) <= HEADER_MAX_LENGTH
  {
    assert ShortAt(t, k);
    FindInPrefix(c.win, future, CRLF);
  }

  /** Behind the closing `--` a call has nothing left to do. */
  lemma ClosedIsWithinLimit(s: Setup, c: Config)
    requires c.state.AfterBoundary? && DASHES <= c.win && c.win != []
    ensures WithinLimit(s, c)
  {
    assert c.win[0] == DASHES[0];
    assert Step(s, c).0.win == [];
  }

  lemma {:induction false} RunIsWithinLimit(s: Setup, t: Bytes, c: Config, future: Bytes, k: nat)
    requires HeadersShort(s, t) && At(s, t, c, future, k)
    ensures WithinLimit(s, c)
    decreases |c.win|, if c.state.NewEntry? then 1 else 0
  {
    if c.win != [] {
      if c.state.AfterBoundary? && DASHES <= c.win {
        ClosedIsWithinLimit(s, c);
      } else {
        StepMoves(s, t, c, future, k);
        if c.state.HeaderLines? {
          LineIsShort(s, t, c, future, k);
        }
        var (next, status) := Step(s, c);
        if status.Continue? {
          var k' :| At(s, t, next, future, k');
          RunIsWithinLimit(s, t, next, future, k');
        }
      }
    }
  }

  lemma {:induction false} RunStaysOpen(s: Setup, t: Bytes, c: Config, future: Bytes, k: nat)
    requires At(s, t, c, future, k)
    requires !Occurs(t[..|t| - |future|], s.closing + DASHES)
    ensures StaysOpen(s, c)
    ensures Run(s, c).1 ==> Somewhere(s, t, Run(s, c).0, future)
    decreases |c.win|, if c.state.NewEntry? then 1 else 0
  {
    if c.win == [] {
      assert At(s, t, Run(s, c).0, future, k);
    } else {
      NotClosedYet(s, t, c, future, k);
      StepMoves(s, t, c, future, k);
      var (next, status) := Step(s, c);
      if status.Continue? {
        var k' :| At(s, t, next, future, k');
        RunStaysOpen(s, t, next, future, k');
      }
    }
  }

  lemma NotClosedYet(s: Setup, t: Bytes, c: Config, future: Bytes, k: nat)
    requires At(s, t, c, future, k) && !Occurs(t[..|t| - |future|], s.closing + DASHES)
    ensures !(c.state.AfterBoundary? && DASHES <= c.win)
  {
    if c.state.AfterBoundary? && DASHES <= c.win {
      DelimiterGoesOn(s, t, c, future, k, DASHES);
    }
  }

  /** A call with the first block, and the same call with everything that is left. */
  lemma CallIsWithinLimit(s: Setup, t: Bytes, c: Config, b: Bytes, future: Bytes, k: nat)
    requires HeadersShort(s, t) && At(s, t, c, b + future, k)
    ensures WithinLimit(s, Plus(c, b)) && WithinLimit(s, Plus(c, b + future))
    ensures At(s, t, Plus(c, b), future, k)
  {
    assert c.win + b + future == c.win + (b + future) == c.win + (b + future) + [];
    RunIsWithinLimit(s, t, Plus(c, b), future, k);
    RunIsWithinLimit(s, t, Plus(c, b + future), [], k);
  }

  /** What comes after the last block is not looked at before it. */
  ghost predicate OpenBefore(s: Setup, t: Bytes, blocks: seq<Bytes>)
    requires blocks != []
  {
    var last := |blocks[|blocks| - 1]|;
    last <= |t| && !Occurs(t[..|t| - last], s.closing + DASHES)
  }

  /** A call that is not the last. */
  lemma CallStaysOpen(s: Setup, t: Bytes, c: Config, b: Bytes, rest: seq<Bytes>, k: nat)
    requires At(s, t, Plus(c, b), Concat(rest), k)
    requires rest != [] && OpenBefore(s, t, rest)
    ensures StaysOpen(s, Plus(c, b))
    ensures Feed(s, c, b).1 ==> Somewhere(s, t, Feed(s, c, b).0, Concat(rest))
  {
    LastIsLeft(rest);
    ShorterIsFree(t, |Concat(rest)|, |rest[|rest| - 1]|, s.closing + DASHES);
    RunStaysOpen(s, t, Plus(c, b), Concat(rest), k);
  }

  lemma {:induction false} CutIsRegular(s: Setup, t: Bytes, c: Config, blocks: seq<Bytes>, k: nat)
    requires HeadersShort(s, t) && blocks != []
    requires At(s, t, c, Concat(blocks), k) && OpenBefore(s, t, blocks)
    ensures Regular(s, c, blocks)
    decreases |blocks|
  {
    var b, rest := blocks[0], blocks[1..];
    CallIsWithinLimit(s, t, c, b, Concat(rest), k);
    if rest == [] {
      assert Regular(s, Feed(s, c, b).0, rest);
    } else {
      assert rest[|rest| - 1] == blocks[|blocks| - 1];
      CallStaysOpen(s, t, c, b, rest, k);
      if Feed(s, c, b).1 {
        var k' :| At(s, t, Feed(s, c, b).0, Concat(rest), k');
        CutIsRegular(s, t, Feed(s, c, b).0, rest, k');
      }
    }
  }

  lemma {:induction false} LastIsLeft(blocks: seq<Bytes>)
    requires blocks != []
    ensures |blocks[|blocks| - 1]| <= |Concat(blocks)|
  {
    if |blocks| > 1 {
      LastIsLeft(blocks[1..]);
    }
  }

  lemma ShorterIsFree(t: Bytes, n: nat, m: nat, d: Bytes)
    requires m <= n <= |t| && !Occurs(t[..|t| - m], d)
    ensures !Occurs(t[..|t| - n], d)
  {
    assert t[..|t| - m] == t[..|t| - n] + t[|t| - n..|t| - m];
    FrontIsFree(t[..|t| - n], t[|t| - n..|t| - m], d);
  }
}
