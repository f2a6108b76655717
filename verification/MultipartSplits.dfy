/** How far the parser's result is independent of the cut, for any input at all,
    and exactly when it is for the bodies the serialiser writes. */
module MultipartSplits {
  import opened Bytes
  import opened Multipart
  import opened MultipartProperties

  // Any input --------------------------------------------------------------------

  /** Equal up to how the content was portioned out to the receiver. */
  ghost predicate Same(c: Config, c': Config)
  {
    Shape(c) == Shape(c')
  }

  /** Everything but the portions. */
  function Shape(c: Config): (State, Bytes, bool, seq<Bytes>, seq<Part>)
  {
    (c.state, c.win, c.valid, c.lines, Assemble(c.events))
  }

  ghost predicate SameResult(r: (Config, bool), r': (Config, bool))
  {
    r.1 == r'.1 && (r.1 ==> Same(r.0, r'.0))
  }

  ghost predicate SameTurn(r: (Config, Status), r': (Config, Status))
  {
    r.1 == r'.1 && (r.1 == Stop(false) || Same(r.0, r'.0))
  }

  /** No turn of `Run(s, c)` fails on the length of a header line. */
  ghost predicate WithinLimit(s: Setup, c: Config)
    decreases |c.win|, if c.state.NewEntry? then 1 else 0
  {
    c.win == [] ||
    var (next, status) := Step(s, c);
    && (c.state.HeaderLines? ==> Find(c.win, CRLF) <= HEADER_MAX_LENGTH)
    && (status.Continue? ==> WithinLimit(s, next))
  }

  /** No turn of `Run(s, c)` takes the closing delimiter. */
  ghost predicate StaysOpen(s: Setup, c: Config)
    decreases |c.win|, if c.state.NewEntry? then 1 else 0
  {
    c.win == [] ||
    var (next, status) := Step(s, c);
    && !(c.state.AfterBoundary? && DASHES <= c.win)
    && (status.Continue? ==> StaysOpen(s, next))
  }

  /** The answer depends on the parts put together so far, not on the portions. */
  ghost predicate AnswersAlike(cb: Callbacks, es: seq<Event>, es': seq<Event>)
  {
    Assemble(es) == Assemble(es') ==> cb.content(es) == cb.content(es')
  }

  /** More content is refused where less is. */
  ghost predicate StaysRefused(cb: Callbacks, es: seq<Event>, a: Bytes, ab: Bytes)
  {
    a <= ab && !cb.content(es + [PartData(a)]) ==> !cb.content(es + [PartData(ab)])
  }

  /** A content receiver that takes everything, or for instance up to some limit. */
  ghost predicate ContentSteady(cb: Callbacks)
  {
    (forall es, es' :: AnswersAlike(cb, es, es')) && (forall es, a, ab :: StaysRefused(cb, es, a, ab))
  }

  lemma TakingAllIsSteady(cb: Callbacks)
    requires forall es :: cb.content(es)
    ensures ContentSteady(cb)
  {
  }

  /** A limit on the content of a part is one such. */
  lemma LimitIsSteady(cb: Callbacks, most: nat)
    requires forall es :: cb.content(es) == WithinSize(Assemble(es), most)
    ensures ContentSteady(cb)
  {
    forall es, a, ab
      ensures StaysRefused(cb, es, a, ab)
    {
      AssembleSnoc(es, PartData(a));
      AssembleSnoc(es, PartData(ab));
      if a <= ab && WithinSize(Extend(Assemble(es), PartData(ab)), most) {
        SizeGrows(Assemble(es), a, ab, most);
      }
    }
  }

  lemma SizeGrows(parts: seq<Part>, a: Bytes, ab: Bytes, most: nat)
    requires |a| <= |ab| && WithinSize(Extend(parts, PartData(ab)), most)
    ensures WithinSize(Extend(parts, PartData(a)), most)
  {
  }

  predicate WithinSize(parts: seq<Part>, most: nat)
  {
    parts != [] ==> |parts[|parts| - 1].content| <= most
  }

  function Plus(c: Config, b: Bytes): Config { c.(win := c.win + b) }

  lemma {:induction false} SameHeaders(cb: Callbacks, c: Config, c': Config)
    requires Same(c, c') && c.state.HeaderLines?
    ensures SameTurn(ReadHeaders(cb, c), ReadHeaders(cb, c'))
    decreases |c.win|
  {
    var pos := Find(c.win, CRLF);
    AssembleSnoc(c.events, PartHeader(c.lines));
    AssembleSnoc(c'.events, PartHeader(c.lines));
    if 0 < pos < |c.win| && cb.line(c.win[..pos]) {
      var lines := c.lines + [c.win[..pos]];
      SameHeaders(cb, c.(win := c.win[pos + 2..], lines := lines), c'.(win := c.win[pos + 2..], lines := lines));
    }
  }

  function Delivered(c: Config, e: Event, rest: Bytes, next: State): Config
  {
    c.(win := rest, state := next, events := c.events + [e])
  }

  lemma DeliverTaken(cb: Callbacks, c: Config, n: nat, skip: nat, next: State, onwards: Status)
    requires n + skip <= |c.win|
    ensures Deliver(cb, c, n, skip, next, onwards) ==
            if cb.content(c.events + [PartData(c.win[..n])])
            then (Delivered(c, PartData(c.win[..n]), c.win[n + skip..], next), onwards)
            else (c.(valid := false), Stop(false))
  {
  }

  /** The same answer for events that amount to the same parts. */
  lemma SameAnswer(cb: Callbacks, es: seq<Event>, es': seq<Event>)
    requires ContentSteady(cb) && Assemble(es) == Assemble(es')
    ensures cb.content(es) == cb.content(es')
  {
    assert AnswersAlike(cb, es, es');
  }

  lemma SameDelivered(c: Config, c': Config, e: Event, rest: Bytes, next: State)
    requires Same(c, c')
    ensures Same(Delivered(c, e, rest, next), Delivered(c', e, rest, next))
  {
    AssembleSnoc(c.events, e);
    AssembleSnoc(c'.events, e);
  }

  lemma SameDeliver(cb: Callbacks, c: Config, c': Config, n: nat, skip: nat, next: State, onwards: Status)
    requires ContentSteady(cb) && Same(c, c') && n + skip <= |c.win|
    ensures SameTurn(Deliver(cb, c, n, skip, next, onwards), Deliver(cb, c', n, skip, next, onwards))
  {
    var e := PartData(c.win[..n]);
    DeliverTaken(cb, c, n, skip, next, onwards);
    DeliverTaken(cb, c', n, skip, next, onwards);
    AssembleSnoc(c.events, e);
    AssembleSnoc(c'.events, e);
    SameAnswer(cb, c.events + [e], c'.events + [e]);
    SameDelivered(c, c', PartData(c.win[..n]), c.win[n + skip..], next);
  }

  lemma SameBody(cb: Callbacks, d: Delimiter, c: Config, c': Config)
    requires ContentSteady(cb) && Same(c, c')
    ensures SameTurn(BodyStep(cb, d, c), BodyStep(cb, d, c'))
  {
    var pos := Find(c.win, d);
    if |d| <= |c.win| && pos < |c.win| {
      assert BodyStep(cb, d, c) == Deliver(cb, c, pos, |d|, AfterBoundary, Continue);
      assert BodyStep(cb, d, c') == Deliver(cb, c', pos, |d|, AfterBoundary, Continue);
      SameDeliver(cb, c, c', pos, |d|, AfterBoundary, Continue);
    } else if |d| < |c.win| {
      var n := |c.win| - |d|;
      assert BodyStep(cb, d, c) == Deliver(cb, c, n, 0, Body, Stop(true));
      assert BodyStep(cb, d, c') == Deliver(cb, c', n, 0, Body, Stop(true));
      SameDeliver(cb, c, c', n, 0, Body, Stop(true));
    } else {
      assert BodyStep(cb, d, c) == (c, Stop(true)) && BodyStep(cb, d, c') == (c', Stop(true));
    }
  }

  lemma SameStep(s: Setup, c: Config, c': Config)
    requires ContentSteady(s.cb) && Same(c, c') && c.win != []
    ensures SameTurn(Step(s, c), Step(s, c'))
  {
    match c.state
    case Preamble =>
    case NewEntry =>
    case HeaderLines => SameHeaders(s.cb, c, c');
    case Body => SameBody(s.cb, s.closing, c, c');
    case AfterBoundary =>
  }

  lemma {:induction false} SameRun(s: Setup, c: Config, c': Config)
    requires ContentSteady(s.cb) && Same(c, c')
    ensures SameResult(Run(s, c), Run(s, c'))
    decreases |c.win|, if c.state.NewEntry? then 1 else 0
  {
    if c.win != [] {
      SameStep(s, c, c');
      if Step(s, c).1.Continue? {
        SameRun(s, Step(s, c).0, Step(s, c').0);
      }
    }
  }

  lemma FindStays(w: Bytes, b: Bytes, d: Delimiter)
    requires Find(w, d) < |w|
    ensures Find(w + b, d) == Find(w, d) <= |w| - |d|
  {
    FindInPrefix(w, b, d);
  }

  /** More input behind the window does not change the header lines already
      complete; where they run out, the rest can be read later. */
  lemma {:induction false} HeadersAhead(cb: Callbacks, c: Config, b: Bytes)
    requires c.state.HeaderLines?
    ensures var (next, status) := ReadHeaders(cb, c);
            var ahead := ReadHeaders(cb, Plus(c, b));
            match status
            case Continue => ahead == (Plus(next, b), Continue)
            case Stop(ok) =>
              if ok then next.state.HeaderLines? && ahead == ReadHeaders(cb, Plus(next, b))
              else ahead.1 == Stop(false)
    decreases |c.win|
  {
    var pos := Find(c.win, CRLF);
    if pos < |c.win| {
      FindStays(c.win, b, CRLF);
      assert (c.win + b)[pos + 2..] == c.win[pos + 2..] + b;
      if pos != 0 {
        var line := c.win[..pos];
        assert (c.win + b)[..pos] == line;
        if cb.line(line) {
          var c' := c.(win := c.win[pos + 2..], lines := c.lines + [line]);
          assert ReadHeaders(cb, c) == ReadHeaders(cb, c');
          assert ReadHeaders(cb, Plus(c, b)) == ReadHeaders(cb, Plus(c', b));
          HeadersAhead(cb, c', b);
        }
      }
    }
  }

  lemma PreambleAhead(d: Delimiter, c: Config, b: Bytes)
    requires PreambleStep(d, c).1.Continue?
    ensures PreambleStep(d, Plus(c, b)) == (Plus(PreambleStep(d, c).0, b), Continue)
  {
    var pos := Find(c.win, d);
    FindStays(c.win, b, d);
    assert (c.win + b)[pos + |d|..] == c.win[pos + |d|..] + b;
  }

  lemma BodyAhead(cb: Callbacks, d: Delimiter, c: Config, b: Bytes)
    requires BodyStep(cb, d, c).1.Continue?
    ensures BodyStep(cb, d, Plus(c, b)) == (Plus(BodyStep(cb, d, c).0, b), Continue)
  {
    var pos := Find(c.win, d);
    FindStays(c.win, b, d);
    assert (c.win + b)[..pos] == c.win[..pos];
    assert (c.win + b)[pos + |d|..] == c.win[pos + |d|..] + b;
  }

  lemma BoundaryAhead(c: Config, b: Bytes)
    requires BoundaryStep(c).1.Continue? && !(DASHES <= c.win)
    ensures BoundaryStep(Plus(c, b)) == (Plus(BoundaryStep(c).0, b), Continue)
  {
    assert (c.win + b)[2..] == c.win[2..] + b;
  }

  /** A turn that goes on does the same with more input behind it. */
  lemma ContinueAhead(s: Setup, c: Config, b: Bytes)
    requires c.win != []
    requires c.state.HeaderLines? ==>
               Find(c.win, CRLF) <= HEADER_MAX_LENGTH && Find(c.win + b, CRLF) <= HEADER_MAX_LENGTH
    requires !(c.state.AfterBoundary? && DASHES <= c.win)
    requires Step(s, c).1.Continue?
    ensures Step(s, Plus(c, b)) == (Plus(Step(s, c).0, b), Continue)
  {
    match c.state
    case Preamble => PreambleAhead(s.opening, c, b);
    case NewEntry =>
    case HeaderLines => HeadersAhead(s.cb, c, b);
    case Body => BodyAhead(s.cb, s.closing, c, b);
    case AfterBoundary => BoundaryAhead(c, b);
  }

  lemma FindInSuffix(t: Bytes, d: Delimiter, n: nat)
    requires n <= Find(t, d)
    ensures Find(t[n..], d) == Find(t, d) - n
  {
    var k := Find(t, d);
    FindMeans(t, d);
    forall j: nat
      ensures OccursAt(t[n..], d, j) <==> OccursAt(t, d, n + j)
    {
      if n + j + |d| <= |t| {
        assert t[n..][j..j + |d|] == t[n + j..n + j + |d|];
      }
    }
    FindIs(t[n..], d, k - n);
  }

  lemma Joined(events: seq<Event>, a: Bytes, b: Bytes, ab: Bytes)
    requires ab == a + b
    ensures Assemble(events + [PartData(a)] + [PartData(b)]) == Assemble(events + [PartData(ab)])
  {
    AssembleSnoc(events, PartData(a));
    AssembleSnoc(events + [PartData(a)], PartData(b));
    AssembleSnoc(events, PartData(ab));
    ExtendTwice(Assemble(events), a, b);
  }

  /** The configuration after `n` bytes of content went to the receiver early. */
  function Early(c: Config, n: nat): Config
    requires n <= |c.win|
  {
    c.(win := c.win[n..], events := c.events + [PartData(c.win[..n])])
  }

  lemma CutTwice(w: Bytes, n: nat, m: nat, skip: nat)
    requires n <= m && m + skip <= |w|
    ensures w[n..][..m - n] == w[n..m] && w[n..][m - n + skip..] == w[m + skip..]
    ensures w[..n] + w[n..m] == w[..m]
  {
  }

  lemma DeliverTwice(cb: Callbacks, c: Config, n: nat, m: nat, skip: nat, next: State, onwards: Status)
    requires ContentSteady(cb) && n <= m && m + skip <= |c.win|
    ensures SameTurn(Deliver(cb, Early(c, n), m - n, skip, next, onwards), Deliver(cb, c, m, skip, next, onwards))
  {
    CutTwice(c.win, n, m, skip);
    DeliverTaken(cb, Early(c, n), m - n, skip, next, onwards);
    DeliverTaken(cb, c, m, skip, next, onwards);
    Joined(c.events, c.win[..n], c.win[n..m], c.win[..m]);
    SameAnswer(cb, Early(c, n).events + [PartData(c.win[n..m])], c.events + [PartData(c.win[..m])]);
  }

  /** The loop that sees the whole window at once hands on the same bytes. */
  lemma BodySplit(cb: Callbacks, d: Delimiter, c: Config, n: nat)
    requires ContentSteady(cb) && c.state.Body?
    requires 0 < n < Find(c.win, d) && n + |d| <= |c.win| && cb.content(c.events + [PartData(c.win[..n])])
    ensures SameTurn(BodyStep(cb, d, Early(c, n)), BodyStep(cb, d, c))
  {
    FindInSuffix(c.win, d, n);
    var k, early := Find(c.win, d), Early(c, n);
    if k < |c.win| {
      assert BodyStep(cb, d, c) == Deliver(cb, c, k, |d|, AfterBoundary, Continue);
      assert BodyStep(cb, d, early) == Deliver(cb, early, k - n, |d|, AfterBoundary, Continue);
      DeliverTwice(cb, c, n, k, |d|, AfterBoundary, Continue);
    } else if n + |d| < |c.win| {
      var m := |c.win| - |d|;
      assert BodyStep(cb, d, c) == Deliver(cb, c, m, 0, Body, Stop(true));
      assert BodyStep(cb, d, early) == Deliver(cb, early, m - n, 0, Body, Stop(true));
      DeliverTwice(cb, c, n, m, 0, Body, Stop(true));
    } else {
      assert BodyStep(cb, d, c) == Deliver(cb, c, n, 0, Body, Stop(true)) == (early, Stop(true));
      assert BodyStep(cb, d, early) == (early, Stop(true));
    }
  }

  lemma EarlyIsBodyStep(cb: Callbacks, d: Delimiter, c: Config, b: Bytes)
    requires c.state.Body? && BodyStep(cb, d, c).1 == Stop(true)
    requires |d| < |c.win| && Find(c.win, d) == |c.win|
    ensures BodyStep(cb, d, c) == (Early(c, |c.win| - |d|), Stop(true))
    ensures Plus(Early(c, |c.win| - |d|), b) == Early(Plus(c, b), |c.win| - |d|)
    ensures |c.win| - |d| < Find(c.win + b, d)
    ensures cb.content(c.events + [PartData((c.win + b)[..|c.win| - |d|])])
  {
    var n := |c.win| - |d|;
    assert (c.win + b)[..n] == c.win[..n] && (c.win + b)[n..] == c.win[n..] + b;
    FindInPrefix(c.win, b, d);
  }

  /** A refusal stays one when there is more content. */
  lemma BodyRefused(cb: Callbacks, d: Delimiter, c: Config, b: Bytes)
    requires ContentSteady(cb) && BodyStep(cb, d, c).1 == Stop(false)
    ensures BodyStep(cb, d, Plus(c, b)).1 == Stop(false)
  {
    var w, pos, ahead := c.win + b, Find(c.win, d), Find(c.win + b, d);
    FindInPrefix(c.win, b, d);
    if pos < |c.win| {
      FindStays(c.win, b, d);
      assert w[..pos] == c.win[..pos];
    } else {
      var n := |c.win| - |d|;
      var m := if ahead < |w| then ahead else |w| - |d|;
      assert n <= m && w[..m][..n] == c.win[..n];
      assert StaysRefused(cb, c.events, c.win[..n], w[..m]);
    }
  }

  /** Content that was handed on before its delimiter came. */
  lemma BodyStopAhead(cb: Callbacks, d: Delimiter, c: Config, b: Bytes)
    requires ContentSteady(cb) && c.state.Body? && BodyStep(cb, d, c).1 == Stop(true)
    ensures var next := BodyStep(cb, d, c).0;
            next == c || SameTurn(BodyStep(cb, d, Plus(next, b)), BodyStep(cb, d, Plus(c, b)))
    ensures var next := BodyStep(cb, d, c).0;
            next == c || (next.state.Body? && next.win != [])
  {
    if |c.win| > |d| {
      var n := |c.win| - |d|;
      if Find(c.win, d) == |c.win| {
        EarlyIsBodyStep(cb, d, c, b);
        BodySplit(cb, d, Plus(c, b), n);
        assert BodyStep(cb, d, c).0 == Early(c, n) && |Early(c, n).win| == |d|;
      }
    }
  }

  /** A turn that stops for want of input: taking it again with more behind the
      window does what it would have done with all of it. */
  lemma TurnAhead(s: Setup, c: Config, b: Bytes)
    requires ContentSteady(s.cb) && c.win != [] && Step(s, c).1 == Stop(true)
    requires var next := Step(s, c).0;
             c.state.HeaderLines? && next.win + b != [] ==>
               Find(c.win + b, CRLF) <= HEADER_MAX_LENGTH && Find(next.win + b, CRLF) <= HEADER_MAX_LENGTH
    ensures var next := Step(s, c).0;
            || Plus(next, b) == Plus(c, b)
            || (next.win + b == [] && b == [])
            || (next.win + b != [] && SameTurn(Step(s, Plus(next, b)), Step(s, Plus(c, b))))
  {
    match c.state
    case Preamble =>
    case NewEntry =>
    case HeaderLines => HeadersAhead(s.cb, c, b);
    case Body => BodyStopAhead(s.cb, s.closing, c, b);
    case AfterBoundary =>
  }

  lemma SameAfterTurn(s: Setup, c: Config, c': Config)
    requires ContentSteady(s.cb) && c.win != [] && c'.win != []
    requires SameTurn(Step(s, c), Step(s, c'))
    ensures SameResult(Run(s, c), Run(s, c'))
  {
    if Step(s, c).1.Continue? {
      SameRun(s, Step(s, c).0, Step(s, c').0);
    }
  }

  lemma StopAhead(s: Setup, c: Config, b: Bytes)
    requires ContentSteady(s.cb) && c.win != []
    requires Step(s, c).1 == Stop(true)
    requires WithinLimit(s, Plus(c, b)) && WithinLimit(s, Plus(Step(s, c).0, b))
    ensures SameResult(Run(s, Plus(Step(s, c).0, b)), Run(s, Plus(c, b)))
  {
    var next := Step(s, c).0;
    if c.state.HeaderLines? {
      HeadersAhead(s.cb, c, b);
    }
    TurnAhead(s, c, b);
    if next.win + b == [] && b == [] {
      assert Plus(c, b) == c && Plus(next, b) == next;
    } else if Plus(next, b) != Plus(c, b) {
      SameAfterTurn(s, Plus(next, b), Plus(c, b));
    }
  }

  /** One block cut in two: as long as no header line is too long for a call and
      the first piece does not already hold the closing delimiter, the two calls
      amount to the one. */
  lemma {:induction false} CutInTwo(s: Setup, c: Config, b: Bytes)
    requires ContentSteady(s.cb)
    requires WithinLimit(s, c) && StaysOpen(s, c) && WithinLimit(s, Plus(c, b))
    requires Run(s, c).1 ==> WithinLimit(s, Plus(Run(s, c).0, b))
    ensures Run(s, c).1 ==> SameResult(Run(s, Plus(Run(s, c).0, b)), Run(s, Plus(c, b)))
    ensures !Run(s, c).1 ==> !Run(s, Plus(c, b)).1
    decreases |c.win|, if c.state.NewEntry? then 1 else 0
  {
    if c.win != [] {
      var (next, status) := Step(s, c);
      if status.Continue? {
        ContinueAhead(s, c, b);
        CutInTwo(s, next, b);
      } else if status == Stop(true) {
        StopAhead(s, c, b);
      } else if c.state.HeaderLines? {
        HeadersAhead(s.cb, c, b);
      } else {
        BodyRefused(s.cb, s.closing, c, b);
      }
    }
  }

  /** No call trips the length check, neither on its own block nor if it were
      given all that is left, and only the last block may close the form. */
  ghost predicate Regular(s: Setup, c: Config, blocks: seq<Bytes>)
    decreases |blocks|
  {
    blocks == [] ||
    var (next, ok) := Feed(s, c, blocks[0]);
    && WithinLimit(s, Plus(c, blocks[0]))
    && WithinLimit(s, Plus(c, Concat(blocks)))
    && (|blocks| > 1 ==> StaysOpen(s, Plus(c, blocks[0])))
    && (ok ==> Regular(s, next, blocks[1..]))
  }

  /** Every regular cut of any input, well formed or not, has the result of
      feeding the input in one call. */
  lemma {:induction false} EveryRegularCutIsTheSame(s: Setup, c: Config, blocks: seq<Bytes>)
    requires ContentSteady(s.cb) && blocks != []
    requires Regular(s, c, blocks)
    ensures SameResult(FeedAll(s, c, blocks), Feed(s, c, Concat(blocks)))
    decreases |blocks|
  {
    var rest := blocks[1..];
    var (next, ok) := Feed(s, c, blocks[0]);
    if rest == [] {
      assert Concat(blocks) == blocks[0];
    } else {
      assert Plus(Plus(c, blocks[0]), Concat(rest)) == Plus(c, Concat(blocks));
      CutInTwo(s, Plus(c, blocks[0]), Concat(rest));
      if ok {
        EveryRegularCutIsTheSame(s, next, rest);
      }
    }
  }

  lemma RunOnwards(s: Setup, c: Config, next: Config)
    requires c.win != [] && Step(s, c) == (next, Continue)
    ensures Run(s, c) == Run(s, next)
  {
  }
}
