/** No input ever takes a part back. */
module MultipartGrowth {
  import opened Bytes
  import opened Multipart
  import opened MultipartSplits

  lemma ExtendGrows(parts: seq<Part>, e: Event)
    ensures |Extend(parts, e)| == |parts| + if e.PartHeader? then 1 else 0
  {
  }

  lemma {:induction false} HeadersGrow(cb: Callbacks, c: Config)
    requires c.state.HeaderLines?
    ensures |Assemble(ReadHeaders(cb, c).0.events)| >= |Assemble(c.events)|
    decreases |c.win|
  {
    var pos := Find(c.win, CRLF);
    AssembleSnoc(c.events, PartHeader(c.lines));
    if 0 < pos < |c.win| && cb.line(c.win[..pos]) {
      HeadersGrow(cb, c.(win := c.win[pos + 2..], lines := c.lines + [c.win[..pos]]));
    }
  }

  lemma DeliverGrows(cb: Callbacks, c: Config, n: nat, skip: nat, next: State, onwards: Status)
    requires n + skip <= |c.win|
    ensures |Assemble(Deliver(cb, c, n, skip, next, onwards).0.events)| >= |Assemble(c.events)|
  {
    AssembleSnoc(c.events, PartData(c.win[..n]));
    ExtendGrows(Assemble(c.events), PartData(c.win[..n]));
  }

  lemma BodyGrows(cb: Callbacks, d: Delimiter, c: Config)
    ensures |Assemble(BodyStep(cb, d, c).0.events)| >= |Assemble(c.events)|
  {
    var pos := Find(c.win, d);
    if |d| <= |c.win| {
      if pos < |c.win| {
        DeliverGrows(cb, c, pos, |d|, AfterBoundary, Continue);
      } else {
        DeliverGrows(cb, c, |c.win| - |d|, 0, Body, Stop(true));
      }
    }
  }

  lemma TurnGrows(s: Setup, c: Config)
    requires c.win != []
    ensures |Assemble(Step(s, c).0.events)| >= |Assemble(c.events)|
  {
    if c.state.HeaderLines? {
      HeadersGrow(s.cb, c);
    } else if c.state.Body? {
      BodyGrows(s.cb, s.closing, c);
    }
  }

  /** No part is ever taken back. */
  lemma {:induction false} PartsGrow(s: Setup, c: Config)
    ensures |Assemble(Run(s, c).0.events)| >= |Assemble(c.events)|
    decreases |c.win|, if c.state.NewEntry? then 1 else 0
  {
    if c.win != [] {
      TurnGrows(s, c);
      var (next, status) := Step(s, c);
      if status.Continue? {
        RunOnwards(s, c, next);
        PartsGrow(s, next);
      }
    }
  }
}
