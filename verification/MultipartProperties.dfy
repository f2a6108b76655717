/** What the multipart parser does with the body its own serialiser writes, no
    matter how that body is cut into blocks. */
module MultipartProperties {
  import opened Bytes
  import opened Common
  import opened Multipart

  // The serialised body --------------------------------------------------------

  /** Header lines, each with its line end. */
  function Lines(lines: seq<Bytes>): Bytes
  {
    if lines == [] then [] else lines[0] + CRLF + Lines(lines[1..])
  }

  /** The line for a content type, if there is one. */
  function TypeLines(contentType: Bytes): seq<Bytes>
  {
    if contentType == [] then [] else [CONTENT_TYPE + contentType]
  }

  /** What follows a "--boundary": the next entries, or the closing "--".
      `d` is the delimiter between entries. */
  function After(d: Bytes, parts: seq<Part>): Bytes
    decreases |parts|, 1
  {
    if parts == [] then DASHES + CRLF else CRLF + Entry(d, parts)
  }

  function Entry(d: Bytes, parts: seq<Part>): Bytes
    requires parts != []
    decreases |parts|, 0
  {
    Lines(parts[0].lines) + (CRLF + (parts[0].content + d + After(d, parts[1..])))
  }

  lemma AfterLength(d: Bytes, more: seq<Part>)
    ensures |After(d, more)| >= if more == [] then 4 else |d| + 8
  {
    if more != [] {
      assert |After(d, more[1..])| >= 4;
    }
  }

  function Serialized(b: Bytes, parts: seq<Part>): Bytes
  {
    DASHES + b + After(CRLF + DASHES + b, parts)
  }

  lemma SerializedUnfolds(b: Bytes, parts: seq<Part>)
    requires parts != []
    ensures Serialized(b, parts) ==
            DASHES + b + CRLF + Lines(parts[0].lines) + CRLF + parts[0].content + CRLF + Serialized(b, parts[1..])
  {
    var d := CRLF + DASHES + b;
    var lines, content, rest := Lines(parts[0].lines), parts[0].content, After(d, parts[1..]);
    assert After(d, parts) == CRLF + (lines + (CRLF + (content + d + rest)));
    assert DASHES + b + After(d, parts) == DASHES + b + CRLF + lines + CRLF + content + CRLF + (DASHES + b + rest);
  }

  /** The body up to its last "--boundary". */
  function Opened(b: Bytes, parts: seq<Part>): Bytes
  {
    if parts == [] then DASHES + b
    else
      DASHES + b + CRLF + Lines(parts[0].lines) + CRLF + parts[0].content + CRLF + Opened(b, parts[1..])
  }

  lemma {:induction false} OpenedIsClosed(b: Bytes, parts: seq<Part>)
    ensures Serialized(b, parts) == Opened(b, parts) + (DASHES + CRLF)
  {
    if parts != [] {
      SerializedUnfolds(b, parts);
      OpenedIsClosed(b, parts[1..]);
      var front := DASHES + b + CRLF + Lines(parts[0].lines) + CRLF + parts[0].content + CRLF;
      Reassociate(front, Opened(b, parts[1..]), DASHES + CRLF);
    }
  }

  // What is asked of the parts and of the receivers ----------------------------

  ghost predicate LineFits(cb: Callbacks, line: Bytes)
  {
    line != [] && |line| < HEADER_MAX_LENGTH && !Occurs(line, CRLF) && cb.line(line)
  }

  ghost predicate PartFits(s: Setup, p: Part)
  {
    && (forall l | l in p.lines :: LineFits(s.cb, l))
    && !Occurs(p.content, s.closing)
  }

  /** Text in front of the first delimiter line, in which that line does not start
      early. */
  ghost predicate PreambleFits(d: Delimiter, pre: Bytes)
  {
    Find(pre + d, d) == |pre|
  }

  ghost predicate ReceiversAccept(cb: Callbacks)
  {
    (forall parts :: cb.header(parts)) && (forall events :: cb.content(events))
  }

  // Where in the body the parser stands ----------------------------------------

  datatype Cursor =
    | AtStart(pre: Bytes, parts: seq<Part>)
    | AtEntry(parts: seq<Part>)
    | InLines(todo: seq<Bytes>, content: Bytes, more: seq<Part>)
    | InContent(content: Bytes, more: seq<Part>)
    | AtBoundary(more: seq<Part>)
    | Closed(tail: Bytes)
    | Finished

  predicate Done(cur: Cursor) { cur.Closed? || cur.Finished? }

  function StateOf(cur: Cursor): State
  {
    match cur
    case AtStart(_, _) => Preamble
    case AtEntry(_) => NewEntry
    case InLines(_, _, _) => HeaderLines
    case InContent(_, _) => Body
    case AtBoundary(_) => AfterBoundary
    case Closed(_) => AfterBoundary
    case Finished => NewEntry
  }

  /** The input not yet consumed. */
  function Remaining(s: Setup, cur: Cursor): Bytes
  {
    match cur
    case AtStart(pre, parts) => pre + (s.opening + (if parts == [] then [] else Entry(s.closing, parts)))
    case AtEntry(parts) => if parts == [] then [] else Entry(s.closing, parts)
    case InLines(todo, content, more) => Lines(todo) + (CRLF + (content + s.closing + After(s.closing, more)))
    case InContent(content, more) => content + s.closing + After(s.closing, more)
    case AtBoundary(more) => After(s.closing, more)
    case Closed(tail) => tail
    case Finished => []
  }

  /** All parts, put together from what was handed out and what is to come. */
  function Total(parts: seq<Part>, lines: seq<Bytes>, cur: Cursor): seq<Part>
  {
    match cur
    case AtStart(_, todo) => parts + todo
    case AtEntry(todo) => parts + todo
    case InLines(todo, content, more) => parts + [Part(lines + todo, content)] + more
    case InContent(content, more) => Extend(parts, PartData(content)) + more
    case AtBoundary(more) => parts + more
    case Closed(_) => parts
    case Finished => parts
  }

  ghost predicate CursorFits(s: Setup, cur: Cursor)
  {
    match cur
    case AtStart(pre, parts) =>
      PreambleFits(s.opening, pre) && parts != [] && forall p | p in parts :: PartFits(s, p)
    case AtEntry(parts) => parts != [] && forall p | p in parts :: PartFits(s, p)
    case InLines(todo, content, more) =>
      && (forall l | l in todo :: LineFits(s.cb, l))
      && !Occurs(content, s.closing)
      && forall p | p in more :: PartFits(s, p)
    case InContent(content, more) =>
      && !Occurs(content, s.closing)
      && forall p | p in more :: PartFits(s, p)
    case AtBoundary(more) => forall p | p in more :: PartFits(s, p)
    case Closed(tail) => tail == CRLF || tail == [LF] || tail == []
    case Finished => true
  }

  /** The parser stands at `cur` of a body made of the parts `all`, `future`
      being the input that has not been fed yet. */
  ghost predicate Tracks(s: Setup, all: seq<Part>, c: Config, future: Bytes, cur: Cursor)
  {
    && c.state == StateOf(cur)
    && c.valid == Done(cur)
    && (cur.InContent? ==> Assemble(c.events) != [])
    && c.win + future == Remaining(s, cur)
    && CursorFits(s, cur)
    && Total(Assemble(c.events), c.lines, cur) == all
  }

  /** The window is too short for what the parser waits for at `cur`. */
  predicate Starved(s: Setup, win: Bytes, cur: Cursor)
  {
    match cur
    case AtStart(pre, _) => |win| < |pre| + |s.opening|
    case AtEntry(_) => win == []
    case InLines(todo, _, _) => |win| < 2 + (if todo == [] then 0 else |todo[0]|)
    case InContent(content, _) => |win| < |content| + |s.closing|
    case AtBoundary(_) => |win| < 2
    case Closed(_) => true
    case Finished => true
  }

  /** A turn that leaves the parser somewhere in the body, and stops only for
      want of input. */
  ghost predicate OnTrack(s: Setup, all: seq<Part>, turn: (Config, Status), future: Bytes)
  {
    exists cur :: Tracks(s, all, turn.0, future, cur)
      && (turn.1.Continue? || (turn.1 == Stop(true) && Starved(s, turn.0.win, cur)))
  }

  ghost predicate Fits(s: Setup)
  {
    s.closing[0] !in s.closing[1..] && ReceiversAccept(s.cb)
  }

  // Cutting prefixes --------------------------------------------------------------

  lemma Cut(w: Bytes, future: Bytes, a: Bytes, rest: Bytes)
    requires w + future == a + rest && |a| <= |w|
    ensures a <= w && w[|a|..] + future == rest
  {
    assert w == (a + rest)[..|w|];
    assert w[|a|..] + future == (w + future)[|a|..] == (a + rest)[|a|..];
  }

  /** Where the window contents end the search for the delimiter closing `text`. */
  lemma FindInWindow(w: Bytes, future: Bytes, text: Bytes, d: Delimiter, rest: Bytes)
    requires d[0] !in d[1..] && !Occurs(text, d)
    requires w + future == text + d + rest
    ensures Find(w, d) == if |text| + |d| <= |w| then |text| else |w|
    ensures |text| + |d| <= |w| ==> text <= w && w[|text| + |d|..] + future == rest
  {
    FindAfter(text, d, rest);
    FindInPrefix(w, future, d);
    if |text| + |d| <= |w| {
      Cut(w, future, text + d, rest);
      assert w[..|text|] == (text + d)[..|text|] == text;
    }
  }

  /** A boundary without CR makes delimiters the parser can rely on. */
  lemma BoundaryFits(s: Setup, parts: seq<Part>)
    requires Written(s, parts)
    ensures Fits(s)
    ensures Serialized(s.boundary, parts) == Remaining(s, AtStart([], parts))
    ensures forall pre :: pre + Serialized(s.boundary, parts) == Remaining(s, AtStart(pre, parts))
  {
    var rest := s.opening + Entry(s.closing, parts);
    assert [] + rest == rest;
    assert s.closing == [CR] + ([LF] + DASHES + s.boundary);
    assert s.closing[1..] == [LF] + DASHES + s.boundary;
    assert DASHES + s.boundary + (CRLF + Entry(s.closing, parts)) == s.opening + Entry(s.closing, parts);
  }

  lemma ExtendTwice(parts: seq<Part>, a: Bytes, b: Bytes)
    ensures Extend(Extend(parts, PartData(a)), PartData(b)) == Extend(parts, PartData(a + b))
  {
    if parts != [] {
      var last := parts[|parts| - 1];
      assert last.content + a + b == last.content + (a + b);
    }
  }

  // One turn of the loop ------------------------------------------------------------

  /** The first delimiter line is found where the preamble ends. */
  lemma FindBehindPreamble(w: Bytes, future: Bytes, pre: Bytes, d: Delimiter, rest: Bytes)
    requires PreambleFits(d, pre) && w + future == pre + (d + rest)
    ensures Find(w, d) == if |pre| + |d| <= |w| then |pre| else |w|
    ensures |pre| + |d| <= |w| ==> w[|pre| + |d|..] + future == rest
  {
    assert pre + (d + rest) == pre + d + rest;
    FindInPrefix(pre + d, rest, d);
    FindInPrefix(w, future, d);
    if |pre| + |d| <= |w| {
      Cut(w, future, pre + d, rest);
    }
  }

  lemma StepAtStart(s: Setup, all: seq<Part>, c: Config, future: Bytes, cur: Cursor)
    requires Fits(s) && Tracks(s, all, c, future, cur) && cur.AtStart? && c.win != []
    ensures OnTrack(s, all, Step(s, c), future)
  {
    var n := |cur.pre| + |s.opening|;
    DelimiterIsFound(s, c, future, cur);
    assert Step(s, c) == PreambleStep(s.opening, c);
    if n <= |c.win| {
      FirstEntryOpens(s, all, c, future, cur);
    } else {
      StaysPut(s, all, c, future, cur);
    }
  }

  lemma DelimiterIsFound(s: Setup, c: Config, future: Bytes, cur: Cursor)
    requires cur.AtStart? && PreambleFits(s.opening, cur.pre)
    requires cur.parts != [] && c.win + future == Remaining(s, cur)
    ensures var n := |cur.pre| + |s.opening|;
            if n <= |c.win| then
              && PreambleStep(s.opening, c) == (c.(win := c.win[n..], state := NewEntry), Continue)
              && c.win[n..] + future == Remaining(s, AtEntry(cur.parts))
            else PreambleStep(s.opening, c) == (c, Stop(true))
  {
    FindBehindPreamble(c.win, future, cur.pre, s.opening, Entry(s.closing, cur.parts));
  }

  lemma StaysPut(s: Setup, all: seq<Part>, c: Config, future: Bytes, cur: Cursor)
    requires Tracks(s, all, c, future, cur) && Starved(s, c.win, cur)
    ensures OnTrack(s, all, (c, Stop(true)), future)
  {
  }

  /** The first delimiter is there. */
  lemma FirstEntryOpens(s: Setup, all: seq<Part>, c: Config, future: Bytes, cur: Cursor)
    requires Tracks(s, all, c, future, cur) && cur.AtStart?
    requires |cur.pre| + |s.opening| <= |c.win|
    requires c.win[|cur.pre| + |s.opening|..] + future == Remaining(s, AtEntry(cur.parts))
    ensures OnTrack(s, all, (c.(win := c.win[|cur.pre| + |s.opening|..], state := NewEntry), Continue), future)
  {
    var next := c.(win := c.win[|cur.pre| + |s.opening|..], state := NewEntry);
    assert Tracks(s, all, next, future, AtEntry(cur.parts));
  }

  /** The empty line that ends the header lines. */
  lemma EmptyLineTracks(s: Setup, all: seq<Part>, c: Config, future: Bytes, cur: Cursor)
    requires Fits(s) && Tracks(s, all, c, future, cur) && cur.InLines? && cur.todo == []
    ensures OnTrack(s, all, ReadHeaders(s.cb, c), future)
  {
    var tail := Remaining(s, InContent(cur.content, cur.more));
    NoLineLeft(s, cur);
    FindInWindow(c.win, future, [], CRLF, tail);
    if 2 <= |c.win| {
      PartOpens(s, all, c, future, cur);
    } else {
      assert ReadHeaders(s.cb, c) == (c, Stop(true));
      assert Tracks(s, all, c, future, cur) && Starved(s, c.win, cur);
    }
  }

  /** The empty line is there. */
  lemma PartOpens(s: Setup, all: seq<Part>, c: Config, future: Bytes, cur: Cursor)
    requires Fits(s) && Tracks(s, all, c, future, cur) && cur.InLines? && cur.todo == []
    requires |c.win| >= 2 && Find(c.win, CRLF) == 0
    requires c.win[2..] + future == Remaining(s, InContent(cur.content, cur.more))
    ensures OnTrack(s, all, ReadHeaders(s.cb, c), future)
  {
    var e := PartHeader(c.lines);
    var next := c.(win := c.win[2..], state := Body, events := c.events + [e]);
    assert ReadHeaders(s.cb, c) == (next, Continue);
    AssembleSnoc(c.events, e);
    OpenedPart(Assemble(c.events), c.lines, cur.content);
    assert Tracks(s, all, next, future, InContent(cur.content, cur.more));
  }

  lemma NoLineLeft(s: Setup, cur: Cursor)
    requires cur.InLines? && cur.todo == []
    ensures Remaining(s, cur) == [] + CRLF + Remaining(s, InContent(cur.content, cur.more))
  {
  }

  lemma OpenedPart(parts: seq<Part>, lines: seq<Bytes>, content: Bytes)
    ensures Extend(Extend(parts, PartHeader(lines)), PartData(content)) == parts + [Part(lines + [], content)]
  {
    assert lines + [] == lines && [] + content == content;
  }

  lemma {:induction false} HeadersTrack(s: Setup, all: seq<Part>, c: Config, future: Bytes, cur: Cursor)
    requires Fits(s) && Tracks(s, all, c, future, cur) && cur.InLines?
    ensures OnTrack(s, all, ReadHeaders(s.cb, c), future)
    decreases |c.win|
  {
    if cur.todo == [] {
      EmptyLineTracks(s, all, c, future, cur);
    } else {
      var line := cur.todo[0];
      var rest := Remaining(s, cur.(todo := cur.todo[1..]));
      assert LineFits(s.cb, line);
      assert Remaining(s, cur) == line + CRLF + rest;
      FindInWindow(c.win, future, line, CRLF, rest);
      if |line| + 2 <= |c.win| {
        assert c.win[..|line|] == line;
        assert c.lines + [line] + cur.todo[1..] == c.lines + cur.todo;
        var c' := c.(win := c.win[|line| + 2..], lines := c.lines + [line]);
        assert ReadHeaders(s.cb, c) == ReadHeaders(s.cb, c');
        HeadersTrack(s, all, c', future, cur.(todo := cur.todo[1..]));
      } else {
        assert Tracks(s, all, ReadHeaders(s.cb, c).0, future, cur);
      }
    }
  }

  /** No header line of a fitting part trips the length check. */
  lemma LengthCheckPasses(s: Setup, all: seq<Part>, c: Config, future: Bytes, cur: Cursor)
    requires Fits(s) && Tracks(s, all, c, future, cur) && cur.InLines?
    ensures Find(c.win, CRLF) <= HEADER_MAX_LENGTH
  {
    var tail := Remaining(s, InContent(cur.content, cur.more));
    if cur.todo == [] {
      assert c.win + future == [] + CRLF + tail;
      FindInWindow(c.win, future, [], CRLF, tail);
    } else {
      assert LineFits(s.cb, cur.todo[0]);
      assert c.win + future == cur.todo[0] + CRLF + (Lines(cur.todo[1..]) + (CRLF + tail));
      FindInWindow(c.win, future, cur.todo[0], CRLF, Lines(cur.todo[1..]) + (CRLF + tail));
    }
  }

  lemma SuffixIsFreeToo(text: Bytes, d: Bytes, n: nat)
    requires n <= |text| && !Occurs(text, d)
    ensures !Occurs(text[n..], d)
  {
    forall i
      ensures !OccursAt(text[n..], d, i)
    {
      assert !OccursAt(text, d, n + i);
      if 0 <= i && i + |d| <= |text| - n {
        assert text[n..][i..i + |d|] == text[n + i..n + i + |d|];
      }
    }
  }

  lemma HeadGoes(w: Bytes, future: Bytes, text: Bytes, d: Bytes, rest: Bytes, n: nat)
    requires w + future == text + d + rest && n <= |w| && n <= |text|
    ensures w[..n] == text[..n] && w[n..] + future == text[n..] + d + rest
  {
    assert text + d + rest == text[..n] + (text[n..] + d + rest);
    Cut(w, future, text[..n], text[n..] + d + rest);
  }

  /** Content is handed on although its delimiter has not arrived yet. */
  lemma HandOnTracks(s: Setup, all: seq<Part>, c: Config, future: Bytes, cur: Cursor, n: nat)
    requires Fits(s) && Tracks(s, all, c, future, cur) && cur.InContent?
    requires n <= |c.win| && n <= |cur.content|
    ensures var (next, status) := Deliver(s.cb, c, n, 0, Body, Stop(true));
            status == Stop(true) && Tracks(s, all, next, future, InContent(cur.content[n..], cur.more))
  {
    var head, left := cur.content[..n], cur.content[n..];
    HeadGoes(c.win, future, cur.content, s.closing, After(s.closing, cur.more), n);
    assert cur.content == head + left;
    AssembleSnoc(c.events, PartData(head));
    ExtendTwice(Assemble(c.events), head, left);
    SuffixIsFreeToo(cur.content, s.closing, n);
  }

  /** The rest of the content and its delimiter are in the window. */
  lemma ClosePartTracks(s: Setup, all: seq<Part>, c: Config, future: Bytes, cur: Cursor)
    requires Fits(s) && Tracks(s, all, c, future, cur) && cur.InContent?
    requires var d := s.closing;
             |cur.content| + |d| <= |c.win| && cur.content <= c.win
             && c.win[|cur.content| + |d|..] + future == After(s.closing, cur.more)
    ensures var (next, status) := Deliver(s.cb, c, |cur.content|, |s.closing|, AfterBoundary, Continue);
            status == Continue && Tracks(s, all, next, future, AtBoundary(cur.more))
  {
    assert c.win[..|cur.content|] == cur.content;
    AssembleSnoc(c.events, PartData(cur.content));
  }

  /** Which way the body turn goes. */
  lemma BodyTurn(cb: Callbacks, d: Delimiter, c: Config, future: Bytes, text: Bytes, rest: Bytes)
    requires d[0] !in d[1..] && !Occurs(text, d)
    requires c.win + future == text + d + rest
    ensures BodyStep(cb, d, c) ==
            if |text| + |d| <= |c.win| then Deliver(cb, c, |text|, |d|, AfterBoundary, Continue)
            else if |c.win| > |d| then Deliver(cb, c, |c.win| - |d|, 0, Body, Stop(true))
            else (c, Stop(true))
    ensures |text| + |d| <= |c.win| ==> text <= c.win && c.win[|text| + |d|..] + future == rest
  {
    FindInWindow(c.win, future, text, d, rest);
  }

  lemma StepInContent(s: Setup, all: seq<Part>, c: Config, future: Bytes, cur: Cursor)
    requires Fits(s) && Tracks(s, all, c, future, cur) && cur.InContent? && c.win != []
    ensures OnTrack(s, all, Step(s, c), future)
  {
    assert Step(s, c) == BodyStep(s.cb, s.closing, c);
    BodyTurn(s.cb, s.closing, c, future, cur.content, After(s.closing, cur.more));
    if |cur.content| + |s.closing| <= |c.win| {
      ClosePartTracks(s, all, c, future, cur);
    } else if |c.win| > |s.closing| {
      var n := |c.win| - |s.closing|;
      HandOnTracks(s, all, c, future, cur, n);
    }
  }

  lemma StepAtBoundary(s: Setup, all: seq<Part>, c: Config, future: Bytes, cur: Cursor)
    requires Fits(s) && Tracks(s, all, c, future, cur) && cur.AtBoundary? && c.win != []
    ensures OnTrack(s, all, Step(s, c), future)
  {
    assert Step(s, c) == BoundaryStep(c);
    var next := BoundaryStep(c).0;
    if |c.win| < 2 {
      assert Tracks(s, all, next, future, cur);
    } else if cur.more != [] {
      Cut(c.win, future, CRLF, Entry(s.closing, cur.more));
      assert Tracks(s, all, next, future, AtEntry(cur.more));
    } else {
      Cut(c.win, future, DASHES, CRLF);
      assert c.win[0] == DASHES[0];
      assert future == CRLF[|c.win| - 2..];
      assert Tracks(s, all, next, future, Closed(future));
    }
  }

  lemma StepAtEntry(s: Setup, all: seq<Part>, c: Config, future: Bytes, cur: Cursor)
    requires Tracks(s, all, c, future, cur) && cur.AtEntry? && c.win != []
    ensures OnTrack(s, all, Step(s, c), future)
  {
    var p, more := cur.parts[0], cur.parts[1..];
    assert PartFits(s, p);
    assert [] + p.lines == p.lines && cur.parts == [p] + more;
    assert Tracks(s, all, Step(s, c).0, future, InLines(p.lines, p.content, more));
  }

  lemma StepAfterClose(s: Setup, all: seq<Part>, c: Config, future: Bytes, cur: Cursor)
    requires Tracks(s, all, c, future, cur) && cur.Closed? && c.win != []
    ensures OnTrack(s, all, Step(s, c), future)
  {
    assert Step(s, c) == BoundaryStep(c);
    assert c.win == cur.tail[..|c.win|];
    assert Tracks(s, all, BoundaryStep(c).0, future, if |c.win| < 2 then cur else Finished);
  }

  lemma StepInLines(s: Setup, all: seq<Part>, c: Config, future: Bytes, cur: Cursor)
    requires Fits(s) && Tracks(s, all, c, future, cur) && cur.InLines? && c.win != []
    ensures OnTrack(s, all, Step(s, c), future)
  {
    assert Step(s, c) == HeadersStep(s.cb, c);
    LengthCheckPasses(s, all, c, future, cur);
    HeadersTrack(s, all, c, future, cur);
  }

  /** Every turn of the loop keeps the parser on track. */
  lemma StepTracks(s: Setup, all: seq<Part>, c: Config, future: Bytes, cur: Cursor)
    requires Fits(s) && Tracks(s, all, c, future, cur) && c.win != []
    ensures OnTrack(s, all, Step(s, c), future)
  {
    match cur
    case AtStart(_, _) => StepAtStart(s, all, c, future, cur);
    case AtEntry(_) => StepAtEntry(s, all, c, future, cur);
    case InLines(_, _, _) => StepInLines(s, all, c, future, cur);
    case InContent(_, _) => StepInContent(s, all, c, future, cur);
    case AtBoundary(_) => StepAtBoundary(s, all, c, future, cur);
    case Closed(_) => StepAfterClose(s, all, c, future, cur);
    case Finished => assert false;
  }

  // Calls ------------------------------------------------------------------------------

  /** A call that succeeds and leaves the parser waiting for input. */
  ghost predicate Waits(s: Setup, all: seq<Part>, r: (Config, bool), future: Bytes)
  {
    r.1 && exists cur :: Tracks(s, all, r.0, future, cur) && Starved(s, r.0.win, cur)
  }

  lemma {:induction false} RunTracks(s: Setup, all: seq<Part>, c: Config, future: Bytes, cur: Cursor)
    requires Fits(s) && Tracks(s, all, c, future, cur)
    ensures Waits(s, all, Run(s, c), future)
    decreases |c.win|, if c.state.NewEntry? then 1 else 0
  {
    if c.win == [] {
      assert Tracks(s, all, c, future, cur) && Starved(s, [], cur);
    } else {
      StepTracks(s, all, c, future, cur);
      var (next, status) := Step(s, c);
      var cur' :| Tracks(s, all, next, future, cur')
        && (status.Continue? || (status == Stop(true) && Starved(s, next.win, cur')));
      if status.Continue? {
        RunTracks(s, all, next, future, cur');
      }
    }
  }

  /** A starved parser waits for input that is still to come, unless it is done. */
  lemma StarvedMeansMore(s: Setup, win: Bytes, future: Bytes, cur: Cursor)
    requires Fits(s) && CursorFits(s, cur) && Starved(s, win, cur)
    requires win + future == Remaining(s, cur)
    ensures Done(cur) || future != []
  {
  }

  lemma {:induction false} BlocksTrack(s: Setup, all: seq<Part>, c: Config, blocks: seq<Bytes>, cur: Cursor)
    requires Fits(s) && Tracks(s, all, c, Concat(blocks), cur)
    requires blocks != []
    ensures var (end, ok) := FeedAll(s, c, blocks);
            ok && end.valid && Assemble(end.events) == all
    decreases |blocks|
  {
    var future := Concat(blocks[1..]);
    var fed := c.(win := c.win + blocks[0]);
    assert fed.win + future == c.win + Concat(blocks);
    RunTracks(s, all, fed, future, cur);
    var (next, ok) := Feed(s, c, blocks[0]);
    var cur' :| Tracks(s, all, next, future, cur') && Starved(s, next.win, cur');
    StarvedMeansMore(s, next.win, future, cur');
    if blocks[1..] != [] {
      BlocksTrack(s, all, next, blocks[1..], cur');
    }
  }

  /** Every call succeeds, the form ends valid, and the parts arrive. */
  ghost predicate GivesBack(s: Setup, parts: seq<Part>, blocks: seq<Bytes>)
  {
    var (end, ok) := FeedAll(s, INITIAL, blocks);
    ok && end.valid && Assemble(end.events) == parts
  }

  /** What the parser is promised: delimiters made from a boundary without CR,
      receivers that take everything, and at least one part. */
  ghost predicate Written(s: Setup, parts: seq<Part>)
  {
    && s == SetupFor(s.boundary, s.cb) && CR !in s.boundary && ReceiversAccept(s.cb)
    && parts != []
  }

  ghost predicate AllFit(s: Setup, parts: seq<Part>)
  {
    forall p | p in parts :: PartFits(s, p)
  }

  lemma NoPreambleFits(d: Delimiter)
    ensures PreambleFits(d, [])
  {
    assert [] + d == d && d[0..|d|] == d;
    FindIs(d, d, 0);
  }

  /** Where a parser stands that is about to be given a preamble and the body. */
  lemma AtTheStart(s: Setup, pre: Bytes, parts: seq<Part>)
    requires Written(s, parts) && AllFit(s, parts) && PreambleFits(s.opening, pre)
    ensures Fits(s)
    ensures Tracks(s, parts, INITIAL, pre + Serialized(s.boundary, parts), AtStart(pre, parts))
  {
    BoundaryFits(s, parts);
    assert [] + parts == parts;
    assert [] + (pre + Serialized(s.boundary, parts)) == pre + Serialized(s.boundary, parts);
  }

  /** Any text in front of the first delimiter line is skipped: with it, the body
      of any nonempty list of fitting parts, cut into blocks anywhere, is taken by
      every call, ends valid, and gives the parts back. */
  lemma PreambleIsSkipped(s: Setup, pre: Bytes, parts: seq<Part>, blocks: seq<Bytes>)
    requires Written(s, parts) && AllFit(s, parts) && PreambleFits(s.opening, pre)
    requires Concat(blocks) == pre + Serialized(s.boundary, parts)
    ensures GivesBack(s, parts, blocks)
  {
    AtTheStart(s, pre, parts);
    BlocksTrack(s, parts, INITIAL, blocks, AtStart(pre, parts));
  }

  /** A CRLF in front of the first delimiter line is such a text. */
  lemma CrlfIsAPreamble(s: Setup)
    requires s == SetupFor(s.boundary, s.cb)
    ensures PreambleFits(s.opening, CRLF)
  {
    var t := CRLF + s.opening;
    assert t[2..2 + |s.opening|] == s.opening && s.opening[0] == DASHES[0];
    assert t[0] == CR && t[1] == LF;
    FindIs(t, s.opening, 2);
  }

  /** The same without a preamble. */
  lemma AnySplitGivesThePartsBack(s: Setup, parts: seq<Part>, blocks: seq<Bytes>)
    requires Written(s, parts) && AllFit(s, parts)
    requires Concat(blocks) == Serialized(s.boundary, parts)
    ensures GivesBack(s, parts, blocks)
  {
    NoPreambleFits(s.opening);
    assert [] + Serialized(s.boundary, parts) == Serialized(s.boundary, parts);
    PreambleIsSkipped(s, [], parts, blocks);
  }
}
