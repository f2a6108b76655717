/** The incremental multipart/form-data parser, and the functions on values that
    say what one call of it does.  `FormDataParser` keeps its unread input in a
    sliding window of a growable buffer; the functions below see only the
    contents of that window. */
module Multipart {
  import opened Bytes

  /** A part: its header lines without the line ends, and its content. */
  datatype Part = Part(lines: seq<Bytes>, content: Bytes)

  /** What the two receivers of the parser are told, call by call. */
  datatype Event = PartHeader(lines: seq<Bytes>) | PartData(data: Bytes)

  /** The parts a list of events amounts to: a header opens a part, data extends
      the last one. */
  function Assemble(events: seq<Event>): seq<Part>
  {
    if events == [] then []
    else Extend(Assemble(events[..|events| - 1]), events[|events| - 1])
  }

  function Extend(parts: seq<Part>, e: Event): seq<Part>
  {
    match e
    case PartHeader(lines) => parts + [Part(lines, [])]
    case PartData(data) =>
      if parts == [] then []
      else
        var last := parts[|parts| - 1];
        parts[..|parts| - 1] + [last.(content := last.content + data)]
  }

  lemma AssembleSnoc(events: seq<Event>, e: Event)
    ensures Assemble(events + [e]) == Extend(Assemble(events), e)
  {
    assert (events + [e])[..|events|] == events;
  }

  /** The parties the parser calls.  `line` is the fixed treatment of one header
      line; the header receiver may look at all parts seen so far; the content
      receiver may look at every call made so far. */
  datatype Callbacks = Callbacks(
    line: Bytes -> bool,
    header: seq<Part> -> bool,
    content: seq<Event> -> bool)

  type Delimiter = d: Bytes | d != [] witness [0]

  /** A boundary, the two delimiters made from it, and the parties to call. */
  datatype Setup = Setup(boundary: Bytes, opening: Delimiter, closing: Delimiter, cb: Callbacks)

  function SetupFor(boundary: Bytes, cb: Callbacks): Setup
  {
    Setup(boundary, DASHES + boundary + CRLF, CRLF + DASHES + boundary, cb)
  }

  /** States 0 to 4 of the parser, in this order. */
  datatype State = Preamble | NewEntry | HeaderLines | Body | AfterBoundary

  datatype Config = Config(
    state: State,
    win: Bytes,
    valid: bool,
    lines: seq<Bytes>,
    events: seq<Event>)

  const INITIAL := Config(Preamble, [], false, [], [])

  datatype Status = Continue | Stop(ok: bool)

  /** State 2 after its length check: take lines until the empty one. */
  ghost function ReadHeaders(cb: Callbacks, c: Config): (r: (Config, Status))
    requires c.state.HeaderLines?
    ensures r.1.Continue? ==> |r.0.win| < |c.win| && r.0.state.Body?
    decreases |c.win|
  {
    var pos := Find(c.win, CRLF);
    if pos == |c.win| then (c, Stop(true))
    else if pos == 0 then
      var events := c.events + [PartHeader(c.lines)];
      if !cb.header(Assemble(events)) then (c.(valid := false), Stop(false))
      else (c.(win := c.win[2..], state := Body, events := events), Continue)
    else if !cb.line(c.win[..pos]) then (c.(valid := false), Stop(false))
    else ReadHeaders(cb, c.(win := c.win[pos + 2..], lines := c.lines + [c.win[..pos]]))
  }

  /** Hand `n` bytes to the content receiver, then drop `n + skip` bytes. */
  ghost function Deliver(cb: Callbacks, c: Config, n: nat, skip: nat, next: State, onwards: Status): (Config, Status)
    requires n + skip <= |c.win|
  {
    var events := c.events + [PartData(c.win[..n])];
    if !cb.content(events) then (c.(valid := false), Stop(false))
    else (c.(win := c.win[n + skip..], state := next, events := events), onwards)
  }

  /** State 0: everything up to the first delimiter line is skipped. */
  ghost function PreambleStep(d: Delimiter, c: Config): (Config, Status)
  {
    var pos := Find(c.win, d);
    if pos == |c.win| then (c, Stop(true))
    else (c.(win := c.win[pos + |d|..], state := NewEntry), Continue)
  }

  /** State 2. */
  ghost function HeadersStep(cb: Callbacks, c: Config): (Config, Status)
    requires c.state.HeaderLines?
  {
    if Find(c.win, CRLF) > HEADER_MAX_LENGTH then (c, Stop(false)) else ReadHeaders(cb, c)
  }

  /** State 3. */
  ghost function BodyStep(cb: Callbacks, d: Delimiter, c: Config): (Config, Status)
  {
    if |d| > |c.win| then (c, Stop(true))
    else
      var pos := Find(c.win, d);
      if pos < |c.win| then Deliver(cb, c, pos, |d|, AfterBoundary, Continue)
      else if |c.win| > |d| then Deliver(cb, c, |c.win| - |d|, 0, Body, Stop(true))
      else (c, Stop(true))
  }

  /** State 4. */
  ghost function BoundaryStep(c: Config): (Config, Status)
  {
    if |c.win| < 2 then (c, Stop(true))
    else if CRLF <= c.win then (c.(win := c.win[2..], state := NewEntry), Continue)
    else if DASHES <= c.win then (c.(win := [], valid := true), Continue)
    else (c, Stop(true))
  }

  /** One turn of the loop in `Parse`. */
  ghost function Step(s: Setup, c: Config): (r: (Config, Status))
    requires c.win != []
    ensures r.1.Continue? ==>
              |r.0.win| < |c.win| || (|r.0.win| == |c.win| && c.state.NewEntry? && !r.0.state.NewEntry?)
  {
    match c.state
    case Preamble => PreambleStep(s.opening, c)
    case NewEntry => (c.(lines := [], state := HeaderLines), Continue)
    case HeaderLines => HeadersStep(s.cb, c)
    case Body => BodyStep(s.cb, s.closing, c)
    case AfterBoundary => BoundaryStep(c)
  }

  /** The loop of `Parse`. */
  ghost function Run(s: Setup, c: Config): (Config, bool)
    decreases |c.win|, if c.state.NewEntry? then 1 else 0
  {
    if c.win == [] then (c, true)
    else
      var (next, status) := Step(s, c);
      if status.Stop? then (next, status.ok) else Run(s, next)
  }

  /** One call of `Parse` with one block of input. */
  ghost function Feed(s: Setup, c: Config, block: Bytes): (Config, bool)
  {
    Run(s, c.(win := c.win + block))
  }

  /** Call after call, until one of them fails. */
  ghost function FeedAll(s: Setup, c: Config, blocks: seq<Bytes>): (Config, bool)
    decreases |blocks|
  {
    if blocks == [] then (c, true)
    else
      var (next, ok) := Feed(s, c, blocks[0]);
      if !ok then (next, false) else FeedAll(s, next, blocks[1..])
  }

  class FormDataParser {
    var boundary: Bytes
    var dashBoundaryCrlf: Delimiter
    var crlfDashBoundary: Delimiter
    var state: State
    var isValid: bool
    /** The header lines taken into the current form-data entry. */
    var lines: seq<Bytes>
    /** The calls made on the receivers. */
    var events: seq<Event>
    var buf: array<byte>
    var spos: nat
    var epos: nat

    ghost predicate Valid()
      reads this
    {
      && spos <= epos <= buf.Length
      && dashBoundaryCrlf == DASHES + boundary + CRLF
      && crlfDashBoundary == CRLF + DASHES + boundary
    }

    ghost function Window(): Bytes
      reads this, buf
      requires Valid()
    {
      buf[spos..epos]
    }

    ghost function View(): Config
      reads this, buf
      requires Valid()
    {
      Config(state, Window(), isValid, lines, events)
    }

    constructor ()
      ensures Valid() && fresh(buf)
      ensures View() == INITIAL && boundary == []
    {
      boundary := [];
      dashBoundaryCrlf := DASHES + CRLF;
      crlfDashBoundary := CRLF + DASHES;
      state := Preamble;
      isValid := false;
      lines := [];
      events := [];
      buf := new byte[0];
      spos := 0;
      epos := 0;
    }

    method SetBoundary(b: Bytes)
      requires Valid()
      modifies this
      ensures Valid() && boundary == b && buf == old(buf) && View() == old(View())
    {
      boundary := b;
      dashBoundaryCrlf := DASHES + b + CRLF;
      crlfDashBoundary := CRLF + DASHES + b;
    }

    /** Does `s` stand at position `from` of the buffer? */
    method StartWith(from: nat, s: Bytes) returns (r: bool)
      requires Valid() && spos <= from <= epos
      ensures r == (s <= buf[from..epos])
    {
      if epos - from < |s| {
        return false;
      }
      for i := 0 to |s|
        invariant buf[from..from + i] == s[..i]
      {
        if buf[from + i] != s[i] {
          assert buf[from..epos][i] == buf[from + i];
          return false;
        }
      }
      assert buf[from..epos][..|s|] == buf[from..from + |s|];
      return true;
    }

    method BufFind(s: Bytes) returns (r: nat)
      requires Valid() && s != []
      ensures r == Find(Window(), s)
    {
      var c := s[0];
      var off := spos;
      ghost var w := Window();
      while off < epos
        invariant spos <= off <= epos
        invariant NoneBefore(w, s, off - spos)
      {
        var pos := off;
        while true
          invariant off <= pos <= epos
          invariant NoneBefore(w, s, pos - spos)
          decreases epos - pos
        {
          if pos == epos {
            FoundNowhere(w, s, pos - spos);
            return epos - spos;
          }
          assert w[pos - spos] == buf[pos];
          if buf[pos] == c {
            break;
          }
          NotHere(w, s, pos - spos);
          pos := pos + 1;
        }
        var remaining := epos - pos;
        if |s| > remaining {
          FoundNowhere(w, s, pos - spos);
          return epos - spos;
        }
        var here := StartWith(pos, s);
        assert w[pos - spos..] == buf[pos..epos];
        if here {
          FoundHere(w, s, pos - spos);
          return pos - spos;
        }
        NotHere(w, s, pos - spos);
        off := pos + 1;
      }
      FoundNowhere(w, s, off - spos);
      return epos - spos;
    }

    /** Slide the window to the front of the buffer. */
    method Slide()
      requires Valid()
      modifies this`spos, this`epos, buf
      ensures Valid() && spos == 0
      ensures Window() == old(Window())
    {
      ghost var w := Window();
      var remaining := epos - spos;
      if remaining > 0 && spos > 0 {
        for i := 0 to remaining
          modifies buf
          invariant buf[..i] == w[..i]
          invariant forall k | i <= k < remaining :: buf[spos + k] == w[k]
        {
          buf[i] := buf[spos + i];
        }
      }
      spos := 0;
      epos := remaining;
    }

    /** Make room for `n` more bytes behind the window. */
    method Reserve(n: nat)
      requires Valid() && spos == 0
      modifies this`buf
      ensures Valid() && (buf == old(buf) || fresh(buf))
      ensures epos + n <= buf.Length
      ensures Window() == old(Window())
    {
      if epos + n > buf.Length {
        var bigger := new byte[epos + n];
        for i := 0 to buf.Length
          modifies bigger
          invariant bigger[..i] == buf[..i]
        {
          bigger[i] := buf[i];
        }
        assert bigger[..epos] == buf[..epos];
        buf := bigger;
      }
    }

    method CopyIn(data: Bytes)
      requires Valid() && spos == 0 && epos + |data| <= buf.Length
      modifies this`epos, buf
      ensures Valid()
      ensures Window() == old(Window()) + data
    {
      ghost var w := buf[..epos];
      for i := 0 to |data|
        modifies buf
        invariant buf[..epos] == w
        invariant buf[epos..epos + i] == data[..i]
      {
        buf[epos + i] := data[i];
      }
      epos := epos + |data|;
    }

    /** Put `data` behind the window. */
    method BufAppend(data: Bytes)
      requires Valid()
      modifies this`buf, this`spos, this`epos, buf
      ensures Valid() && (buf == old(buf) || fresh(buf))
      ensures Window() == old(Window()) + data
    {
      Slide();
      Reserve(|data|);
      CopyIn(data);
    }

    method BufErase(n: nat)
      requires Valid() && n <= epos - spos
      modifies this`spos
      ensures Valid() && Window() == old(Window())[n..]
    {
      spos := spos + n;
    }

    /** The line of length `pos` at the front of the window. */
    method TakeLine(cb: Callbacks, pos: nat) returns (status: Status)
      requires Valid() && state.HeaderLines?
      requires pos == Find(Window(), CRLF) < epos - spos
      modifies this`spos, this`state, this`isValid, this`lines, this`events
      ensures Valid()
      ensures (View(), status) ==
              if pos != 0 && status.Continue? then
                (old(View()).(win := old(Window())[pos + 2..], lines := old(lines) + [old(Window())[..pos]]), Continue)
              else ReadHeaders(cb, old(View()))
      ensures pos != 0 && status.Continue? ==> cb.line(old(Window())[..pos])
    {
      if pos == 0 {
        if !cb.header(Assemble(events + [PartHeader(lines)])) {
          isValid := false;
          return Stop(false);
        }
        events := events + [PartHeader(lines)];
        BufErase(2);
        state := Body;
        return Continue;
      }
      var line := buf[spos..spos + pos];
      assert line == Window()[..pos];
      if !cb.line(line) {
        isValid := false;
        return Stop(false);
      }
      lines := lines + [line];
      BufErase(pos + 2);
      return Continue;
    }

    /** State 2: the length check and the inner loop over header lines. */
    method ParseHeaders(cb: Callbacks) returns (status: Status)
      requires Valid() && state.HeaderLines? && Window() != []
      modifies this`spos, this`state, this`isValid, this`lines, this`events
      ensures Valid() && (View(), status) == HeadersStep(cb, old(View()))
    {
      var pos := BufFind(CRLF);
      if pos > HEADER_MAX_LENGTH {
        return Stop(false);
      }
      ghost var result := ReadHeaders(cb, View());
      while pos < epos - spos
        invariant Valid() && state.HeaderLines?
        invariant pos == Find(Window(), CRLF)
        invariant ReadHeaders(cb, View()) == result
        decreases epos - spos
      {
        ghost var before := View();
        var empty := pos == 0;
        status := TakeLine(cb, pos);
        if empty || status.Stop? {
          return;
        }
        assert ReadHeaders(cb, before) == ReadHeaders(cb, View());
        pos := BufFind(CRLF);
      }
      return Stop(true);
    }

    /** Hand over `n` bytes of content, then drop them and `skip` more. */
    method Hand(cb: Callbacks, n: nat, skip: nat, next: State, onwards: Status) returns (status: Status)
      requires Valid() && n + skip <= epos - spos
      modifies this`spos, this`state, this`isValid, this`events
      ensures Valid()
      ensures (View(), status) == Deliver(cb, old(View()), n, skip, next, onwards)
    {
      var data := buf[spos..spos + n];
      assert data == Window()[..n];
      if !cb.content(events + [PartData(data)]) {
        isValid := false;
        return Stop(false);
      }
      events := events + [PartData(data)];
      BufErase(n + skip);
      state := next;
      return onwards;
    }

    /** State 3. */
    method ParseBody(cb: Callbacks) returns (status: Status)
      requires Valid() && state.Body? && Window() != []
      modifies this`spos, this`state, this`isValid, this`events
      ensures Valid() && (View(), status) == BodyStep(cb, crlfDashBoundary, old(View()))
    {
      if |crlfDashBoundary| > epos - spos {
        return Stop(true);
      }
      var pos := BufFind(crlfDashBoundary);
      if pos < epos - spos {
        status := Hand(cb, pos, |crlfDashBoundary|, AfterBoundary, Continue);
      } else if epos - spos > |crlfDashBoundary| {
        status := Hand(cb, epos - spos - |crlfDashBoundary|, 0, Body, Stop(true));
      } else {
        status := Stop(true);
      }
    }

    /** State 4. */
    method ParseAfterBoundary() returns (status: Status)
      requires Valid() && state.AfterBoundary? && Window() != []
      modifies this`spos, this`state, this`isValid
      ensures Valid() && (View(), status) == BoundaryStep(old(View()))
    {
      if epos - spos < 2 {
        return Stop(true);
      }
      var crlf := StartWith(spos, CRLF);
      if crlf {
        BufErase(2);
        state := NewEntry;
        return Continue;
      }
      var dash := StartWith(spos, DASHES);
      if dash {
        BufErase(2);
        isValid := true;
        BufErase(epos - spos);
        assert Window() == [];
        return Continue;
      }
      return Stop(true);
    }

    /** State 0. */
    method ParsePreamble() returns (status: Status)
      requires Valid() && state.Preamble? && Window() != []
      modifies this`spos, this`state
      ensures Valid() && (View(), status) == PreambleStep(dashBoundaryCrlf, old(View()))
    {
      var pos := BufFind(dashBoundaryCrlf);
      if pos == epos - spos {
        return Stop(true);
      }
      BufErase(pos + |dashBoundaryCrlf|);
      state := NewEntry;
      return Continue;
    }

    /** One turn of the loop. */
    method Turn(cb: Callbacks) returns (status: Status)
      requires Valid() && Window() != []
      modifies this`spos, this`state, this`isValid, this`lines, this`events
      ensures Valid() && (View(), status) == Step(Setup(boundary, dashBoundaryCrlf, crlfDashBoundary, cb), old(View()))
    {
      match state {
        case Preamble =>
          status := ParsePreamble();
        case NewEntry =>
          lines := [];
          state := HeaderLines;
          status := Continue;
        case HeaderLines =>
          status := ParseHeaders(cb);
        case Body =>
          status := ParseBody(cb);
        case AfterBoundary =>
          status := ParseAfterBoundary();
      }
    }

    method Parse(data: Bytes, cb: Callbacks) returns (ok: bool)
      requires Valid()
      modifies this`buf, this`spos, this`epos, this`state, this`isValid, this`lines, this`events, buf
      ensures Valid() && (buf == old(buf) || fresh(buf))
      ensures (View(), ok) == Feed(SetupFor(boundary, cb), old(View()), data)
    {
      ghost var s := Setup(boundary, dashBoundaryCrlf, crlfDashBoundary, cb);
      assert s == SetupFor(boundary, cb);
      BufAppend(data);
      while epos - spos > 0
        modifies this`spos, this`state, this`isValid, this`lines, this`events
        invariant Valid()
        invariant Run(s, View()) == Feed(s, old(View()), data)
        decreases epos - spos, if state.NewEntry? then 1 else 0
      {
        ghost var before := View();
        var status := Turn(cb);
        assert (View(), status) == Step(s, before);
        if status.Stop? {
          return status.ok;
        }
      }
      return true;
    }
  }
}
