/** When a call of the parser fails: what it is told by the parties it calls, and
    nothing else, and what it has told them until then. */
module MultipartRefusals {
  import opened Bytes
  import opened Multipart
  import opened MultipartSplits

  /** Did the receiver concerned accept the last of these calls? */
  predicate LastAccepted(cb: Callbacks, events: seq<Event>)
    requires events != []
  {
    match events[|events| - 1]
    case PartHeader(_) => cb.header(Assemble(events))
    case PartData(_) => cb.content(events)
  }

  predicate AllAccepted(cb: Callbacks, events: seq<Event>)
  {
    forall i | 0 < i <= |events| :: LastAccepted(cb, events[..i])
  }

  lemma OneMoreAccepted(cb: Callbacks, events: seq<Event>, e: Event)
    requires AllAccepted(cb, events) && LastAccepted(cb, events + [e])
    ensures AllAccepted(cb, events + [e])
  {
    var all := events + [e];
    forall i | 0 < i <= |all|
      ensures LastAccepted(cb, all[..i])
    {
      if i == |all| {
        assert all[..i] == all;
      } else {
        assert all[..i] == events[..i];
      }
    }
  }

  lemma {:induction false} HeadersAccepted(cb: Callbacks, c: Config)
    requires AllAccepted(cb, c.events) && c.state.HeaderLines?
    ensures AllAccepted(cb, ReadHeaders(cb, c).0.events)
    decreases |c.win|
  {
    var pos := Find(c.win, CRLF);
    if pos == 0 && c.win != [] && cb.header(Assemble(c.events + [PartHeader(c.lines)])) {
      OneMoreAccepted(cb, c.events, PartHeader(c.lines));
    } else if 0 < pos < |c.win| && cb.line(c.win[..pos]) {
      HeadersAccepted(cb, c.(win := c.win[pos + 2..], lines := c.lines + [c.win[..pos]]));
    }
  }

  lemma DeliverAccepted(cb: Callbacks, c: Config, n: nat, skip: nat, next: State, onwards: Status)
    requires AllAccepted(cb, c.events) && n + skip <= |c.win|
    ensures AllAccepted(cb, Deliver(cb, c, n, skip, next, onwards).0.events)
  {
    if cb.content(c.events + [PartData(c.win[..n])]) {
      OneMoreAccepted(cb, c.events, PartData(c.win[..n]));
    }
  }

  lemma StepAccepted(s: Setup, c: Config)
    requires AllAccepted(s.cb, c.events) && c.win != []
    ensures AllAccepted(s.cb, Step(s, c).0.events)
  {
    var d, pos := s.closing, Find(c.win, s.closing);
    if c.state.HeaderLines? {
      HeadersAccepted(s.cb, c);
    } else if c.state.Body? && |d| <= |c.win| && pos < |c.win| {
      DeliverAccepted(s.cb, c, pos, |d|, AfterBoundary, Continue);
    } else if c.state.Body? && |d| < |c.win| {
      DeliverAccepted(s.cb, c, |c.win| - |d|, 0, Body, Stop(true));
    }
  }

  lemma {:induction false} RunAccepted(s: Setup, c: Config)
    requires AllAccepted(s.cb, c.events)
    ensures AllAccepted(s.cb, Run(s, c).0.events)
    decreases |c.win|, if c.state.NewEntry? then 1 else 0
  {
    if c.win != [] {
      StepAccepted(s, c);
      if Step(s, c).1.Continue? {
        RunAccepted(s, Step(s, c).0);
      }
    }
  }

  /** However the input is cut: everything that reaches a receiver and stays with it
      was accepted by it, call by call.  What is refused ends the call. */
  lemma {:induction false} OnlyAcceptedCallsCount(s: Setup, c: Config, blocks: seq<Bytes>)
    requires AllAccepted(s.cb, c.events)
    ensures AllAccepted(s.cb, FeedAll(s, c, blocks).0.events)
    decreases |blocks|
  {
    if blocks != [] {
      RunAccepted(s, c.(win := c.win + blocks[0]));
      OnlyAcceptedCallsCount(s, Feed(s, c, blocks[0]).0, blocks[1..]);
    }
  }

  // Failing --------------------------------------------------------------------------------

  ghost predicate NobodyRefuses(cb: Callbacks)
  {
    (forall l :: cb.line(l)) && (forall ps :: cb.header(ps)) && (forall es :: cb.content(es))
  }

  lemma {:induction false} HeadersDoNotFail(cb: Callbacks, c: Config)
    requires NobodyRefuses(cb) && c.state.HeaderLines?
    ensures ReadHeaders(cb, c).1 != Stop(false)
    decreases |c.win|
  {
    var pos := Find(c.win, CRLF);
    if 0 < pos < |c.win| {
      HeadersDoNotFail(cb, c.(win := c.win[pos + 2..], lines := c.lines + [c.win[..pos]]));
    }
  }

  /** A call on any input fails only if a header line trips the length check or
      somebody refuses. */
  lemma {:induction false} NoRefusalNoFailure(s: Setup, c: Config)
    requires NobodyRefuses(s.cb) && WithinLimit(s, c)
    ensures Run(s, c).1
    decreases |c.win|, if c.state.NewEntry? then 1 else 0
  {
    if c.win != [] {
      if c.state.HeaderLines? {
        HeadersDoNotFail(s.cb, c);
      }
      if Step(s, c).1.Continue? {
        NoRefusalNoFailure(s, Step(s, c).0);
      }
    }
  }

  lemma {:induction false} RefusedHeadersInvalidate(cb: Callbacks, c: Config)
    requires c.state.HeaderLines?
    ensures ReadHeaders(cb, c).1 == Stop(false) ==> !ReadHeaders(cb, c).0.valid
    decreases |c.win|
  {
    var pos := Find(c.win, CRLF);
    if 0 < pos < |c.win| && cb.line(c.win[..pos]) {
      RefusedHeadersInvalidate(cb, c.(win := c.win[pos + 2..], lines := c.lines + [c.win[..pos]]));
    }
  }

  /** A refusal takes back that the form was valid. */
  lemma {:induction false} RefusalInvalidates(s: Setup, c: Config)
    requires WithinLimit(s, c) && !Run(s, c).1
    ensures !Run(s, c).0.valid
    decreases |c.win|, if c.state.NewEntry? then 1 else 0
  {
    if c.win != [] {
      if c.state.HeaderLines? {
        RefusedHeadersInvalidate(s.cb, c);
      }
      if Step(s, c).1.Continue? {
        RefusalInvalidates(s, Step(s, c).0);
      }
    }
  }

  // Input that leads nowhere ---------------------------------------------------------------

  /** As long as the first delimiter line has not come, nothing is told to anybody and
      nothing fails. */
  lemma {:induction false} NoDelimiterNothingHappens(s: Setup, c: Config, blocks: seq<Bytes>)
    requires c.state.Preamble? && Find(c.win + Concat(blocks), s.opening) == |c.win + Concat(blocks)|
    ensures FeedAll(s, c, blocks) == (c.(win := c.win + Concat(blocks)), true)
    decreases |blocks|
  {
    if blocks == [] {
      assert c.win + [] == c.win;
    } else {
      var future := Concat(blocks[1..]);
      var fed := c.(win := c.win + blocks[0]);
      assert fed.win + future == c.win + Concat(blocks);
      FindInPrefix(fed.win, future, s.opening);
      assert Run(s, fed) == (fed, true);
      NoDelimiterNothingHappens(s, fed, blocks[1..]);
    }
  }

  /** A delimiter with something else than CRLF or `--` behind it is never got past. */
  predicate Stuck(c: Config)
  {
    c.state.AfterBoundary? && |c.win| >= 2 && !(CRLF <= c.win) && !(DASHES <= c.win)
  }

  lemma {:induction false} StuckForEver(s: Setup, c: Config, blocks: seq<Bytes>)
    requires Stuck(c)
    ensures FeedAll(s, c, blocks) == (c.(win := c.win + Concat(blocks)), true)
    decreases |blocks|
  {
    if blocks == [] {
      assert c.win + [] == c.win;
    } else {
      var fed := c.(win := c.win + blocks[0]);
      assert fed.win[0] == c.win[0] && fed.win[1] == c.win[1];
      assert !(CRLF <= fed.win) && !(DASHES <= fed.win);
      assert Step(s, fed) == (fed, Stop(true));
      StuckForEver(s, fed, blocks[1..]);
      assert fed.win + Concat(blocks[1..]) == c.win + Concat(blocks);
    }
  }

  // Every part is told of ------------------------------------------------------------------

  /** Behind a part, and before the next one, the content receiver has been called,
      for an empty part with no bytes. */
  predicate ToldOfContent(c: Config)
  {
    && (c.state.Body? ==> c.events != [])
    && (!c.state.Body? ==> c.events == [] || c.events[|c.events| - 1].PartData?)
  }

  lemma {:induction false} HeadersTell(cb: Callbacks, c: Config)
    requires ToldOfContent(c) && c.state.HeaderLines?
    ensures ReadHeaders(cb, c).1 != Stop(false) ==> ToldOfContent(ReadHeaders(cb, c).0)
    decreases |c.win|
  {
    var pos := Find(c.win, CRLF);
    if 0 < pos < |c.win| && cb.line(c.win[..pos]) {
      HeadersTell(cb, c.(win := c.win[pos + 2..], lines := c.lines + [c.win[..pos]]));
    }
  }

  lemma StepTells(s: Setup, c: Config)
    requires ToldOfContent(c) && c.win != []
    ensures Step(s, c).1 != Stop(false) ==> ToldOfContent(Step(s, c).0)
  {
    if c.state.HeaderLines? {
      HeadersTell(s.cb, c);
    }
  }

  lemma {:induction false} RunTells(s: Setup, c: Config)
    requires ToldOfContent(c)
    ensures Run(s, c).1 ==> ToldOfContent(Run(s, c).0)
    decreases |c.win|, if c.state.NewEntry? then 1 else 0
  {
    if c.win != [] {
      StepTells(s, c);
      if Step(s, c).1.Continue? {
        RunTells(s, Step(s, c).0);
      }
    }
  }

  lemma {:induction false} EveryPartIsTold(s: Setup, c: Config, blocks: seq<Bytes>)
    requires ToldOfContent(c)
    ensures FeedAll(s, c, blocks).1 ==> ToldOfContent(FeedAll(s, c, blocks).0)
    decreases |blocks|
  {
    if blocks != [] {
      RunTells(s, c.(win := c.win + blocks[0]));
      if Feed(s, c, blocks[0]).1 {
        EveryPartIsTold(s, Feed(s, c, blocks[0]).0, blocks[1..]);
      }
    }
  }
}
