/** The decoder undoes the sink: for every pattern of writes, buffer sizes and
    short calls. */
module ChunkedProperties {
  import opened Bytes
  import opened Common
  import opened CText
  import opened LineReader
  import opened Chunked
  import opened ChunkedReading

  // What the sink puts on the wire --------------------------------------------------

  function Writes(blocks: seq<Bytes>): seq<SinkOp>
  {
    seq(|blocks|, i requires 0 <= i < |blocks| => Write(blocks[i]))
  }

  predicate NoneEmpty(blocks: seq<Bytes>)
  {
    forall i | 0 <= i < |blocks| :: blocks[i] != []
  }

  /** Blocks whose length the size line can carry. */
  predicate Fit(blocks: seq<Bytes>)
  {
    forall i | 0 <= i < |blocks| :: 0 < |blocks[i]| < ULONG_MAX
  }

  function Flat(rounds: seq<seq<SinkOp>>): seq<SinkOp>
  {
    if rounds == [] then [] else rounds[0] + Flat(rounds[1..])
  }

  /** No call of the provider but the last stops the loop. */
  predicate RunsToTheEnd(rounds: seq<seq<SinkOp>>)
  {
    forall i | 0 <= i < |rounds| - 1 :: GoesOn(rounds[i])
  }

  lemma {:induction false} EndsWithLast(rounds: seq<seq<SinkOp>>)
    requires rounds != [] && rounds[|rounds| - 1] != []
    ensures var last := rounds[|rounds| - 1];
            Flat(rounds) != [] && Flat(rounds)[|Flat(rounds)| - 1] == last[|last| - 1]
  {
    if |rounds| == 1 {
      assert Flat(rounds) == rounds[0];
    } else {
      assert rounds[1..][|rounds| - 2] == rounds[|rounds| - 1];
      EndsWithLast(rounds[1..]);
    }
  }

  lemma {:induction false} DoneIsVisible(ops: seq<SinkOp>)
    requires ops != [] && ops[|ops| - 1].Done?
    ensures |EmittedAll(ops)| > 0
  {
    if |ops| > 1 {
      assert ops[1..][|ops| - 2] == ops[|ops| - 1];
      DoneIsVisible(ops[1..]);
    }
  }

  lemma FirstRound(first: seq<SinkOp>, rest: seq<seq<SinkOp>>)
    requires rest != [] && |EmittedAll(Flat(rest))| > 0
    ensures var rounds := [first] + rest;
            EmittedRounds(rounds) == EmittedAll(Flat(rounds))
            <==> GoesOn(first) && EmittedRounds(rest) == EmittedAll(Flat(rest))
  {
    var rounds := [first] + rest;
    RoundsUnfold(first, rest);
    assert rounds[1..] == rest && Flat(rounds) == first + Flat(rest);
    EmittedConcat(first, Flat(rest));
    var tail := if GoesOn(first) then EmittedRounds(rest) else [];
    PrefixCancels(EmittedAll(first), tail, EmittedAll(Flat(rest)));
  }

  /** Everything the provider wrote, and the end of the body, reach the wire
      exactly when no call before the last one ends in an empty write. */
  lemma {:induction false} CompleteIffRunsToTheEnd(rounds: seq<seq<SinkOp>>)
    requires rounds != [] && rounds[|rounds| - 1] != []
    requires var last := rounds[|rounds| - 1]; last[|last| - 1].Done?
    ensures EmittedRounds(rounds) == EmittedAll(Flat(rounds)) <==> RunsToTheEnd(rounds)
  {
    var rest := rounds[1..];
    assert rounds == [rounds[0]] + rest;
    if rest == [] {
      RoundsUnfold(rounds[0], []);
      assert Flat(rounds) == rounds[0] + Flat([]) == rounds[0];
      assert EmittedRounds([]) == [] && EmittedAll(rounds[0]) + [] == EmittedAll(rounds[0]);
    } else {
      assert rest[|rest| - 1] == rounds[|rounds| - 1];
      EndsWithLast(rest);
      DoneIsVisible(Flat(rest));
      FirstRound(rounds[0], rest);
      CompleteIffRunsToTheEnd(rest);
      RunsFromFirst(rounds[0], rest);
    }
  }

  /** An empty write in a call of its own: nothing at all reaches the wire, not
      even the terminator. */
  lemma EmptyWriteEndsTheBody()
    ensures var rounds := [[Write([])], [Done([])]];
            !RunsToTheEnd(rounds) && EmittedRounds(rounds) == [] != EmittedAll(Flat(rounds))
  {
    var first, last := [Write([])], [Done([])];
    var rounds := [first, last];
    assert rounds == [first] + [last];
    RoundsUnfold(first, [last]);
    assert first[1..] == [] && EmittedAll(first) == [];
    assert !GoesOn(rounds[0]);
    CompleteIffRunsToTheEnd(rounds);
  }

  lemma RunsFromFirst(first: seq<SinkOp>, rest: seq<seq<SinkOp>>)
    requires rest != []
    ensures RunsToTheEnd([first] + rest) <==> GoesOn(first) && RunsToTheEnd(rest)
  {
    var rounds := [first] + rest;
    assert forall i | 0 <= i < |rest| :: rounds[i + 1] == rest[i];
    if RunsToTheEnd(rounds) {
      assert GoesOn(rounds[0]);
      forall i | 0 <= i < |rest| - 1
        ensures GoesOn(rest[i])
      {
        assert GoesOn(rounds[i + 1]);
      }
    }
  }

  lemma PrefixCancels(a: Bytes, b: Bytes, c: Bytes)
    ensures a + b == a + c <==> b == c
  {
    if a + b == a + c {
      assert b == (a + b)[|a|..] && c == (a + c)[|a|..];
    }
  }

  /** With nonempty writes followed by one `done`, the wire carries all of it. */
  lemma NonemptyWritesRunToTheEnd(rounds: seq<seq<SinkOp>>, blocks: seq<Bytes>, trailer: seq<Field>)
    requires rounds != [] && rounds[|rounds| - 1] != []
    requires Flat(rounds) == Writes(blocks) + [Done(trailer)]
    requires NoneEmpty(blocks)
    ensures EmittedRounds(rounds) == EmittedAll(Writes(blocks)) + Emitted(Done(trailer))
  {
    EndsWithLast(rounds);
    forall i | 0 <= i < |rounds| - 1
      ensures GoesOn(rounds[i])
    {
      EarlierRoundGoesOn(rounds, blocks, trailer, i);
    }
    CompleteIffRunsToTheEnd(rounds);
    DoneComesLast(Writes(blocks), trailer);
  }

  lemma DoneComesLast(ops: seq<SinkOp>, trailer: seq<Field>)
    ensures EmittedAll(ops + [Done(trailer)]) == EmittedAll(ops) + Emitted(Done(trailer))
  {
    EmittedConcat(ops, [Done(trailer)]);
    assert EmittedAll([Done(trailer)]) == Emitted(Done(trailer)) + EmittedAll([]);
  }

  lemma EarlierRoundGoesOn(rounds: seq<seq<SinkOp>>, blocks: seq<Bytes>, trailer: seq<Field>, i: nat)
    requires i < |rounds| - 1 && rounds[|rounds| - 1] != []
    requires Flat(rounds) == Writes(blocks) + [Done(trailer)]
    requires NoneEmpty(blocks)
    ensures GoesOn(rounds[i])
  {
    if rounds[i] != [] {
      var at := LastOpInFlat(rounds, i);
      assert Flat(rounds)[at] == Writes(blocks)[at] == Write(blocks[at]);
    }
  }

  lemma {:induction false} LastOpInFlat(rounds: seq<seq<SinkOp>>, i: nat) returns (at: nat)
    requires i < |rounds| - 1 && rounds[i] != [] && rounds[|rounds| - 1] != []
    ensures at < |Flat(rounds)| - 1 && Flat(rounds)[at] == rounds[i][|rounds[i]| - 1]
  {
    var rest := rounds[1..];
    if i == 0 {
      at := |rounds[0]| - 1;
      assert rest[|rest| - 1] == rounds[|rounds| - 1];
      EndsWithLast(rest);
    } else {
      at := LastOpInFlat(rest, i - 1);
      at := at + |rounds[0]|;
    }
  }

  // Trailers -----------------------------------------------------------------------------------

  /** A trailer field as the sink writes it is a line the rules accept. */
  ghost predicate FieldFits(rules: TrailerRules, f: Field)
  {
    && !Occurs(FieldLine(f), CRLF)
    && |FieldLine(f)| + 2 <= HEADER_MAX_LENGTH
    && rules.parse(FieldLine(f)).Parsed?
  }

  function KeptOf(rules: TrailerRules, f: Field): seq<Field>
  {
    match rules.parse(FieldLine(f))
    case Malformed => []
    case Parsed(g) => if rules.declared(g.key) then [g] else []
  }

  /** The fields a receiver keeps. */
  function Kept(rules: TrailerRules, fields: seq<Field>): seq<Field>
  {
    if fields == [] then [] else KeptOf(rules, fields[0]) + Kept(rules, fields[1..])
  }

  lemma FieldLineIsNotEmpty(rules: TrailerRules, f: Field)
    requires FieldFits(rules, f)
    ensures CString(FieldLine(f) + CRLF) != CRLF
    ensures WithoutEnd(FieldLine(f) + CRLF) == FieldLine(f)
  {
    var line := FieldLine(f);
    assert |line| >= 2 && !OccursAt(line, CRLF, 0);
    assert !(CRLF <= line + CRLF) by {
      assert line[0..2] == (line + CRLF)[..2];
    }
    if CString(line + CRLF) == CRLF {
      EmptyLineStarts(line + CRLF);
    }
  }

  /** One field line, then the rest. */
  lemma FieldIsRead(rules: TrailerRules, f: Field, after: Bytes, dest: seq<Field>)
    requires FieldFits(rules, f) && |dest| < HEADER_MAX_COUNT
    ensures TrailersInto(rules, FieldLine(f) + CRLF + after, dest)
         == TrailersInto(rules, after, dest + KeptOf(rules, f))
  {
    ReadsLine(FieldLine(f), after);
    FieldLineIsNotEmpty(rules, f);
    assert dest + [] == dest;
  }

  lemma EmptyLineIsRead(rules: TrailerRules, suffix: Bytes, dest: seq<Field>)
    ensures TrailersInto(rules, [] + CRLF + suffix, dest) == TrailerResult(true, suffix, dest)
  {
    ReadsLine([], suffix);
    CStringIsWhole(CRLF);
  }

  lemma {:induction false} TrailersAreRead(rules: TrailerRules, fields: seq<Field>, suffix: Bytes, dest: seq<Field>)
    requires forall i | 0 <= i < |fields| :: FieldFits(rules, fields[i])
    requires fields != [] ==> |dest| + |Kept(rules, fields[..|fields| - 1])| < HEADER_MAX_COUNT
    ensures TrailersInto(rules, FieldLines(fields) + CRLF + suffix, dest)
         == TrailerResult(true, suffix, dest + Kept(rules, fields))
    decreases |fields|
  {
    if fields == [] {
      EmptyLineIsRead(rules, suffix, dest);
      assert dest + [] == dest;
    } else {
      var f, rest := fields[0], fields[1..];
      var after := FieldLines(rest) + CRLF + suffix;
      LinesUnfold(fields, suffix);
      var dest' := dest + KeptOf(rules, f);
      FieldIsRead(rules, f, after, dest);
      if rest != [] {
        KeptButLast(rules, fields);
      }
      TrailersAreRead(rules, rest, suffix, dest');
      KeptUnfolds(rules, fields, dest);
    }
  }

  lemma LinesUnfold(fields: seq<Field>, suffix: Bytes)
    requires fields != []
    ensures FieldLines(fields) + CRLF + suffix
         == FieldLine(fields[0]) + CRLF + (FieldLines(fields[1..]) + CRLF + suffix)
  {
  }

  lemma KeptUnfolds(rules: TrailerRules, fields: seq<Field>, dest: seq<Field>)
    requires fields != []
    ensures dest + Kept(rules, fields) == dest + KeptOf(rules, fields[0]) + Kept(rules, fields[1..])
  {
  }

  lemma KeptButLast(rules: TrailerRules, fields: seq<Field>)
    requires |fields| > 1
    ensures Kept(rules, fields[..|fields| - 1]) == KeptOf(rules, fields[0]) + Kept(rules, fields[1..][..|fields| - 2])
  {
    assert fields[..|fields| - 1][1..] == fields[1..][..|fields| - 2];
  }

  /** What goes wrong with a trailer line: it is malformed, or too long, or there have
      been enough; and a section without its empty line. */
  lemma BadTrailerFails(rules: TrailerRules, line: Bytes, rest: Bytes, dest: seq<Field>)
    requires !Occurs(line, CRLF) && |line| + 2 <= MAX_LINE_LENGTH && line != [] && line[0] != CR
    requires rules.parse(line) == Malformed || |line| + 2 > HEADER_MAX_LENGTH || |dest| >= HEADER_MAX_COUNT
    ensures TrailersInto(rules, line + CRLF + rest, dest) == TrailerResult(false, rest, dest)
  {
    var text := line + CRLF;
    ReadsLine(line, rest);
    NotEmptyLine(text);
    assert WithoutEnd(text) == line;
  }

  lemma NotEmptyLine(text: Bytes)
    requires text != [] && text[0] != CR
    ensures CString(text) != CRLF
  {
    assert CString(text) != [] ==> CString(text)[0] == text[0];
  }

  lemma NoEmptyLineFails(rules: TrailerRules, dest: seq<Field>)
    ensures TrailersInto(rules, [], dest) == TrailerResult(false, [], dest)
  {
    NextLineMeans([]);
  }

  // The whole body -----------------------------------------------------------------------------

  /** The coding the sink writes: sizes in lower-case digits, nothing behind them. */
  function PlainCoding(blocks: seq<Bytes>, tail: Bytes): Coding
  {
    Coding(seq(|blocks|, i requires 0 <= i < |blocks| => Coded(Hex(|blocks[i]|), blocks[i])), [48], tail)
  }

  lemma PlainCodingFits(blocks: seq<Bytes>, tail: Bytes)
    requires Fit(blocks)
    ensures CodingFits(PlainCoding(blocks, tail))
  {
    forall i | 0 <= i < |blocks|
      ensures CodedFits(Coded(Hex(|blocks[i]|), blocks[i]))
    {
      HexAnnounces(|blocks[i]|);
    }
    assert Hex(0) == [48];
    HexAnnounces(0);
  }

  lemma {:induction false} PlainPayload(blocks: seq<Bytes>, tail: Bytes)
    ensures Payload(PlainCoding(blocks, tail).chunks) == Concat(blocks)
  {
    var chunks := PlainCoding(blocks, tail).chunks;
    if blocks != [] {
      assert chunks[1..] == PlainCoding(blocks[1..], tail).chunks;
      PlainPayload(blocks[1..], tail);
    }
  }

  lemma {:induction false} BodyIsEmitted(blocks: seq<Bytes>, tail: Bytes)
    requires NoneEmpty(blocks)
    ensures EmittedAll(Writes(blocks)) + (DONE_MARKER + tail) == Body(PlainCoding(blocks, tail))
  {
    var coding := PlainCoding(blocks, tail);
    if blocks != [] {
      var first, rest := blocks[0], blocks[1..];
      BodyIsEmitted(rest, tail);
      assert Rest(coding) == PlainCoding(rest, tail);
      assert Writes(blocks) == [Write(first)] + Writes(rest);
      assert EmittedAll(Writes(blocks)) == Chunk(first) + EmittedAll(Writes(rest));
      Reassociate(Chunk(first), EmittedAll(Writes(rest)), DONE_MARKER + tail);
    }
  }

  lemma DoneIsEmitted(trailer: seq<Field>, suffix: Bytes)
    ensures Emitted(Done(trailer)) + suffix == DONE_MARKER + (FieldLines(trailer) + CRLF + suffix)
  {
  }

  /** What is on the wire, and what follows it on the connection. */
  lemma WireIsCoded(rounds: seq<seq<SinkOp>>, blocks: seq<Bytes>, trailer: seq<Field>, suffix: Bytes)
    requires rounds != [] && rounds[|rounds| - 1] != []
    requires Flat(rounds) == Writes(blocks) + [Done(trailer)] && NoneEmpty(blocks)
    ensures EmittedRounds(rounds) + suffix == Body(PlainCoding(blocks, FieldLines(trailer) + CRLF + suffix))
  {
    NonemptyWritesRunToTheEnd(rounds, blocks, trailer);
    DoneIsEmitted(trailer, suffix);
    Reassociate(EmittedAll(Writes(blocks)), Emitted(Done(trailer)), suffix);
    BodyIsEmitted(blocks, FieldLines(trailer) + CRLF + suffix);
  }

  /** Nonempty blocks written through the sink in any grouping of calls, then
      `done`, then any bytes that follow on the connection: for every sequence of
      nonempty buffers and every pattern of short calls the decoder never fails
      and returns a front of the payload, all of it once it has reported the end;
      enough reads reach the end; and reading the trailers then gives the announced
      fields and leaves exactly the bytes that follow. */
  lemma ChunkedRoundTrip(rounds: seq<seq<SinkOp>>, blocks: seq<Bytes>, trailer: seq<Field>, suffix: Bytes,
                         calls: seq<Request>, rules: TrailerRules)
    requires rounds != [] && rounds[|rounds| - 1] != []
    requires Flat(rounds) == Writes(blocks) + [Done(trailer)]
    requires Fit(blocks)
    requires forall i | 0 <= i < |trailer| :: FieldFits(rules, trailer[i])
    requires trailer != [] ==> |Kept(rules, trailer[..|trailer| - 1])| < HEADER_MAX_COUNT
    requires forall i | 0 <= i < |calls| :: calls[i].len > 0
    ensures var r := Drain(Decoder(0, false, 0, 0), EmittedRounds(rounds) + suffix, calls);
            && r.ok
            && r.out <= Concat(blocks)
            && (|Concat(blocks)| < |calls| ==> r.d.finished)
            && (r.d.finished ==>
                  && r.out == Concat(blocks)
                  && TrailersInto(rules, r.unread, []) == TrailerResult(true, suffix, Kept(rules, trailer)))
  {
    var tail := FieldLines(trailer) + CRLF + suffix;
    WireIsCoded(rounds, blocks, trailer, suffix);
    PlainCodingFits(blocks, tail);
    PlainPayload(blocks, tail);
    AnyCodingIsRead(PlainCoding(blocks, tail), calls);
    TrailersAreRead(rules, trailer, suffix, []);
    assert [] + Kept(rules, trailer) == Kept(rules, trailer);
  }
}
