/** What follows the closing `--`.  The parser drops it if it comes in the same
    block and reads it as a further entry if it comes later; here is exactly
    which epilogues do no harm whatever the cut. */
module MultipartEpilogue {
  import opened Bytes
  import opened Multipart
  import opened MultipartGrowth
  import opened MultipartSplits

  /** What follows a CRLF is a header line that is taken, or the end of the
      input. */
  ghost predicate QuietLine(cb: Callbacks, u: Bytes)
  {
    var p := Find(u, CRLF);
    if p == |u| then |u| <= HEADER_MAX_LENGTH else 0 < p < HEADER_MAX_LENGTH && cb.line(u[..p])
  }

  ghost predicate Harmless(cb: Callbacks, epilogue: Bytes)
  {
    forall k | OccursAt(epilogue, CRLF, k) :: QuietLine(cb, epilogue[k + 2..])
  }

  /** The form is valid and has the parts it had. */
  ghost predicate Unharmed(r: (Config, bool), events: seq<Event>)
  {
    r.1 && r.0.valid && Assemble(r.0.events) == Assemble(events)
  }

  // Harmless epilogues -----------------------------------------------------------------------

  /** Where the parser stands: in front of the `--`, at position k behind it
      waiting for CRLF or `--`, or at a line that starts there. */
  datatype Place = Closing | Behind(k: nat) | AtLine(k: nat)

  ghost predicate Stands(e: Bytes, c: Config, future: Bytes, at: Place)
  {
    match at
    case Closing => c.state.AfterBoundary? && c.win + future == DASHES + e
    case Behind(k) => c.valid && c.state.AfterBoundary? && k <= |e| && c.win + future == e[k..]
    case AtLine(k) =>
      && c.valid && (c.state.NewEntry? || c.state.HeaderLines?)
      && 2 <= k <= |e| && OccursAt(e, CRLF, k - 2) && c.win + future == e[k..]
  }

  /** A turn that tells the receivers nothing and leaves the parser somewhere in
      the epilogue; in front of the `--` only while that has not arrived. */
  ghost predicate Stays(e: Bytes, c: Config, turn: (Config, Status), future: Bytes)
  {
    exists at :: Stands(e, turn.0, future, at)
      && turn.0.events == c.events && (turn.1.Continue? || turn.1 == Stop(true))
      && (at.Closing? ==> |turn.0.win| < 2 && turn.1.Stop?)
  }

  /** The line at k never trips the length check. */
  lemma LineIsShort(cb: Callbacks, e: Bytes, c: Config, future: Bytes, k: nat)
    requires Harmless(cb, e) && Stands(e, c, future, AtLine(k))
    ensures Find(c.win, CRLF) <= HEADER_MAX_LENGTH
  {
    assert QuietLine(cb, e[k - 2 + 2..]);
    FindInPrefix(c.win, future, CRLF);
  }

  /** The line at k, once it has arrived. */
  lemma LineInWindow(cb: Callbacks, e: Bytes, c: Config, future: Bytes, k: nat)
    requires Harmless(cb, e) && Stands(e, c, future, AtLine(k)) && Find(c.win, CRLF) < |c.win|
    ensures var pos := Find(c.win, CRLF);
            && 0 < pos && pos + 2 <= |c.win| && cb.line(c.win[..pos])
            && OccursAt(e, CRLF, k + pos) && c.win[pos + 2..] + future == e[k + pos + 2..]
  {
    var pos := Find(c.win, CRLF);
    assert QuietLine(cb, e[k - 2 + 2..]);
    FindInPrefix(c.win, future, CRLF);
    FindMeans(e[k..], CRLF);
    OccursBehind(e, k, CRLF, pos);
    Fronts(c.win, future, pos);
    Fronts(c.win, future, pos + 2);
  }

  lemma Fronts(w: Bytes, future: Bytes, n: nat)
    requires n <= |w|
    ensures (w + future)[..n] == w[..n] && (w + future)[n..] == w[n..] + future
  {
  }

  lemma {:induction false} HeadersStand(cb: Callbacks, e: Bytes, c: Config, future: Bytes, k: nat)
    requires Harmless(cb, e) && Stands(e, c, future, AtLine(k)) && c.state.HeaderLines?
    ensures Stays(e, c, ReadHeaders(cb, c), future)
    decreases |c.win|
  {
    var pos := Find(c.win, CRLF);
    if pos < |c.win| {
      LineInWindow(cb, e, c, future, k);
      var c' := c.(win := c.win[pos + 2..], lines := c.lines + [c.win[..pos]]);
      assert ReadHeaders(cb, c) == ReadHeaders(cb, c');
      HeadersStand(cb, e, c', future, k + pos + 2);
    } else {
      assert Stands(e, ReadHeaders(cb, c).0, future, AtLine(k));
    }
  }

  lemma BoundaryStands(e: Bytes, c: Config, future: Bytes, k: nat)
    requires Stands(e, c, future, Behind(k))
    ensures Stays(e, c, BoundaryStep(c), future)
  {
    var next := BoundaryStep(c).0;
    if |c.win| >= 2 && CRLF <= c.win {
      assert e[k..][..2] == CRLF;
      assert OccursAt(e, CRLF, k);
      assert c.win[2..] + future == e[k + 2..];
      assert Stands(e, next, future, AtLine(k + 2));
    } else if |c.win| >= 2 && DASHES <= c.win {
      assert [] + future == e[|e| - |future|..];
      assert Stands(e, next, future, Behind(|e| - |future|));
    } else {
      assert Stands(e, next, future, Behind(k));
    }
  }

  lemma ClosingStands(e: Bytes, c: Config, future: Bytes)
    requires Stands(e, c, future, Closing)
    ensures Stays(e, c, BoundaryStep(c), future)
  {
    var next := BoundaryStep(c).0;
    if |c.win| >= 2 {
      assert c.win[0] == (DASHES + e)[0] == 45 && c.win[1] == (DASHES + e)[1] == 45;
      assert (c.win + future)[|c.win|..] == future;
      assert (DASHES + e)[|c.win|..] == e[|c.win| - 2..];
      assert [] + future == e[|c.win| - 2..];
      assert Stands(e, next, future, Behind(|c.win| - 2));
    } else {
      assert Stands(e, next, future, Closing);
    }
  }

  lemma StepStands(s: Setup, e: Bytes, c: Config, future: Bytes, at: Place)
    requires Harmless(s.cb, e) && Stands(e, c, future, at) && c.win != []
    ensures Stays(e, c, Step(s, c), future)
  {
    match at
    case Closing => ClosingStands(e, c, future);
    case Behind(k) => BoundaryStands(e, c, future, k);
    case AtLine(k) =>
      if c.state.HeaderLines? {
        LineIsShort(s.cb, e, c, future, k);
        HeadersStand(s.cb, e, c, future, k);
      } else {
        assert Stands(e, Step(s, c).0, future, at);
      }
  }

  /** The same for a whole call. */
  ghost predicate CallStays(e: Bytes, c: Config, r: (Config, bool), future: Bytes)
  {
    exists at :: Stands(e, r.0, future, at)
      && r.1 && r.0.events == c.events && (at.Closing? ==> |r.0.win| < 2)
  }

  lemma {:induction false} RunStands(s: Setup, e: Bytes, c: Config, future: Bytes, at: Place)
    requires Harmless(s.cb, e) && Stands(e, c, future, at)
    ensures CallStays(e, c, Run(s, c), future)
    decreases |c.win|, if c.state.NewEntry? then 1 else 0
  {
    if c.win == [] {
      assert Stands(e, c, future, at);
    } else {
      StepStands(s, e, c, future, at);
      var (next, status) := Step(s, c);
      var at' :| Stands(e, next, future, at') && (at'.Closing? ==> |next.win| < 2 && status.Stop?);
      if status.Continue? {
        RunOnwards(s, c, next);
        RunStands(s, e, next, future, at');
      }
    }
  }

  lemma {:induction false} BlocksStand(s: Setup, e: Bytes, c: Config, blocks: seq<Bytes>, at: Place)
    requires Harmless(s.cb, e) && Stands(e, c, Concat(blocks), at) && blocks != []
    ensures Unharmed(FeedAll(s, c, blocks), c.events)
    decreases |blocks|
  {
    var future := Concat(blocks[1..]);
    var fed := c.(win := c.win + blocks[0]);
    assert fed.win + future == c.win + Concat(blocks);
    RunStands(s, e, fed, future, at);
    var next := Feed(s, c, blocks[0]).0;
    var at' :| Stands(e, next, future, at') && (at'.Closing? ==> |next.win| < 2);
    if blocks[1..] != [] {
      BlocksStand(s, e, next, blocks[1..], at');
    }
  }

  // Harmful ones -----------------------------------------------------------------------------------

  /** The closing delimiter together with what follows: all of it is dropped. */
  lemma DroppedInTheSameBlock(s: Setup, c: Config, epilogue: Bytes)
    requires c.state.AfterBoundary? && c.win == []
    ensures Feed(s, c, DASHES + epilogue) == (c.(valid := true), true)
  {
    var fed := c.(win := [] + (DASHES + epilogue));
    assert fed.win[0] == 45;
    RunOnwards(s, fed, c.(win := [], valid := true));
  }

  /** A CRLF in a later block opens an entry. */
  lemma OpensAnEntry(s: Setup, c: Config, w: Bytes)
    requires c.state.AfterBoundary? && c.win == [] && w != []
    ensures Feed(s, c, CRLF + w) == Run(s, c.(state := HeaderLines, win := w, lines := []))
  {
    var fed := c.(win := [] + (CRLF + w));
    assert fed.win[..2] == CRLF && fed.win[2..] == w;
    RunOnwards(s, fed, c.(state := NewEntry, win := w));
    RunOnwards(s, c.(state := NewEntry, win := w), c.(state := HeaderLines, win := w, lines := []));
  }

  /** Input in the header state that starts with an empty line, a line that is
      not taken, or more than the length check allows. */
  lemma HarmedByLine(s: Setup, c: Config)
    requires c.state.HeaderLines? && c.win != []
    requires var pos := Find(c.win, CRLF);
             pos > HEADER_MAX_LENGTH || (pos < |c.win| && (pos == 0 || !s.cb.line(c.win[..pos])))
    ensures !Unharmed(Run(s, c), c.events)
  {
    var pos := Find(c.win, CRLF);
    if pos <= HEADER_MAX_LENGTH && pos == 0 {
      EmptyLineAddsAPart(s, c);
    }
  }

  lemma EmptyLineAddsAPart(s: Setup, c: Config)
    requires c.state.HeaderLines? && c.win != [] && Find(c.win, CRLF) == 0
    ensures !Unharmed(Run(s, c), c.events)
  {
    var events := c.events + [PartHeader(c.lines)];
    AssembleSnoc(c.events, PartHeader(c.lines));
    if s.cb.header(Assemble(events)) {
      var next := c.(win := c.win[2..], state := Body, events := events);
      RunOnwards(s, c, next);
      PartsGrow(s, next);
    }
  }

  /** How much of the epilogue to give in the block that does the harm. */
  function BadBlock(u: Bytes): Bytes
  {
    if |u| > HEADER_MAX_LENGTH then u[..HEADER_MAX_LENGTH + 1] else u
  }

  lemma HarmInOneBlock(s: Setup, c: Config, u: Bytes)
    requires c.state.AfterBoundary? && c.win == [] && !QuietLine(s.cb, u)
    ensures var whole, part := Feed(s, c, CRLF + u), Feed(s, c, CRLF + BadBlock(u));
            !Unharmed(whole, c.events) || !part.1
  {
    var p, w := Find(u, CRLF), BadBlock(u);
    FindMeans(u, CRLF);
    OpensAnEntry(s, c, u);
    OpensAnEntry(s, c, w);
    if p < HEADER_MAX_LENGTH {
      HarmedByLine(s, c.(state := HeaderLines, win := u, lines := []));
    } else {
      assert w + u[|w|..] == u;
      FindInPrefix(w, u[|w|..], CRLF);
    }
  }

  lemma FeedFirst(s: Setup, c: Config, b: Bytes, others: seq<Bytes>)
    ensures FeedAll(s, c, [b] + others) ==
            if Feed(s, c, b).1 then FeedAll(s, Feed(s, c, b).0, others) else (Feed(s, c, b).0, false)
  {
    assert ([b] + others)[1..] == others;
  }

  lemma FeedDropped(s: Setup, c: Config, front: Bytes, others: seq<Bytes>)
    requires c.state.AfterBoundary? && c.win == []
    ensures FeedAll(s, c, [DASHES + front] + others) == FeedAll(s, c.(valid := true), others)
  {
    DroppedInTheSameBlock(s, c, front);
    FeedFirst(s, c, DASHES + front, others);
  }

  lemma FeedOne(s: Setup, c: Config, b: Bytes)
    ensures FeedAll(s, c, [b]) == Feed(s, c, b)
  {
    assert [b] == [b] + [];
    FeedFirst(s, c, b, []);
  }

  /** A place in the epilogue that is not quiet, and a cut that shows it. */
  lemma HarmfulPlace(s: Setup, c: Config, e: Bytes, k: nat) returns (blocks: seq<Bytes>)
    requires c.state.AfterBoundary? && c.win == []
    requires OccursAt(e, CRLF, k) && !QuietLine(s.cb, e[k + 2..])
    ensures Concat(blocks) == DASHES + e && !Unharmed(FeedAll(s, c, blocks), c.events)
  {
    var u := e[k + 2..];
    var w, next := BadBlock(u), c.(valid := true);
    var bad, rest := CRLF + w, u[|w|..];
    HarmInOneBlock(s, next, u);
    CutBehind(e, k, |w|);
    if !Feed(s, next, bad).1 {
      blocks := [DASHES + e[..k]] + [bad, rest];
      FeedDropped(s, c, e[..k], [bad, rest]);
      assert [bad, rest] == [bad] + [rest];
      FeedFirst(s, next, bad, [rest]);
    } else {
      blocks := [DASHES + e[..k]] + [CRLF + u];
      FeedDropped(s, c, e[..k], [CRLF + u]);
      FeedOne(s, next, CRLF + u);
    }
  }

  lemma CutBehind(e: Bytes, k: nat, n: nat)
    requires OccursAt(e, CRLF, k) && n <= |e| - k - 2
    ensures var u := e[k + 2..];
            && Concat([DASHES + e[..k]] + [CRLF + u[..n], u[n..]]) == DASHES + e
            && Concat([DASHES + e[..k]] + [CRLF + u]) == DASHES + e
  {
    var front, u := DASHES + e[..k], e[k + 2..];
    assert e == e[..k] + (CRLF + u) && u == u[..n] + u[n..];
    ConcatOfThree(front, CRLF + u[..n], u[n..]);
    ConcatOfThree(front, CRLF + u, []);
    assert [front] + [CRLF + u[..n], u[n..]] == [front, CRLF + u[..n], u[n..]];
    assert [front] + [CRLF + u] == [front, CRLF + u];
    Flatten(DASHES, e[..k], CRLF, u[..n], u[n..]);
  }

  lemma Flatten(a: Bytes, b: Bytes, c: Bytes, d: Bytes, e: Bytes)
    ensures a + b + (c + d) + e == a + (b + (c + (d + e)))
    ensures a + b + (c + (d + e)) == a + (b + (c + (d + e)))
  {
  }

  lemma ConcatOfThree(a: Bytes, b: Bytes, c: Bytes)
    ensures Concat([a, b, c]) == a + b + c
    ensures Concat([a, b]) == a + b
  {
    assert [a, b, c][1..] == [b, c] && [b, c][1..] == [c] && [a, b][1..] == [b];
    assert Concat([c]) == c + Concat([]) && Concat([b]) == b + Concat([]);
  }

  /** From where the parser stands in front of the closing `--`: every cut of it
      and what follows leaves the form valid and its parts alone if and only if
      the epilogue is harmless. */
  lemma FromTheClosingOn(s: Setup, c: Config, epilogue: Bytes)
    requires c.state.AfterBoundary? && c.win == []
    ensures (forall blocks | Concat(blocks) == DASHES + epilogue :: Unharmed(FeedAll(s, c, blocks), c.events))
       <==> Harmless(s.cb, epilogue)
  {
    if Harmless(s.cb, epilogue) {
      forall blocks | Concat(blocks) == DASHES + epilogue
        ensures Unharmed(FeedAll(s, c, blocks), c.events)
      {
        assert [] + Concat(blocks) == Concat(blocks);
        BlocksStand(s, epilogue, c, blocks, Closing);
      }
    } else {
      var k :| OccursAt(epilogue, CRLF, k) && !QuietLine(s.cb, epilogue[k + 2..]);
      var blocks := HarmfulPlace(s, c, epilogue, k);
    }
  }

  /** Nothing, and a final CRLF, are harmless. */
  lemma FinalCrlfIsHarmless(cb: Callbacks)
    ensures Harmless(cb, []) && Harmless(cb, CRLF)
  {
    forall k | OccursAt(CRLF, CRLF, k)
      ensures QuietLine(cb, CRLF[k + 2..])
    {
      assert CRLF[k + 2..] == [];
    }
  }

  /** An epilogue with an empty line in it is not. */
  lemma EmptyLineIsHarmful(cb: Callbacks, front: Bytes, rest: Bytes)
    ensures !Harmless(cb, front + CRLF + CRLF + rest)
  {
    var e := front + CRLF + CRLF + rest;
    var u := CRLF + rest;
    assert e[|front|..|front| + 2] == CRLF && e[|front| + 2..] == u;
    assert OccursAt(e, CRLF, |front|);
    assert u[0..2] == CRLF;
    FindIs(u, CRLF, 0);
  }
}
