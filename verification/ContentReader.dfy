/** Receiving a chunked body: the loop that hands its payload to a receiver, on a
    stream that may fail at any time. */
module ContentReader {
  import opened Bytes
  import opened Common
  import opened CText
  import opened LineReader
  import opened SocketStream
  import opened Chunked
  import opened ChunkedReading
  import opened ChunkedProperties

  const RECV_BUFSIZ: nat := 16384

  datatype ReadContentResult = Success | PayloadTooLarge | Failure

  const START := Decoder(0, false, 0, 0)

  predicate FullBuffers(calls: seq<Request>)
  {
    forall i | 0 <= i < |calls| :: calls[i].len == RECV_BUFSIZ
  }

  /** How one more read ends. */
  ghost function OneMoreRead(u: Bytes, calls: seq<Request>, pick: nat): Drained
  {
    Drain(START, u, calls + [Request(RECV_BUFSIZ, pick)])
  }

  /** The loop over the unread input `u`: the receiver has been handed the pieces
      `out`, which are what the reads `calls` returned, and the loop ended as
      `result` says. */
  ghost predicate Received(reliable: bool, rules: TrailerRules, most: nat, accepts: seq<Bytes> -> bool, u: Bytes,
                           calls: seq<Request>, out: seq<Bytes>, result: ReadContentResult,
                           trailers: seq<Field>, unread: Bytes)
  {
    var r := Drain(START, u, calls);
    && FullBuffers(calls)
    && r.ok && Concat(out) == r.out
    && match result
       case Success =>
         r.d.finished && |r.out| <= most && TrailersInto(rules, r.unread, []) == TrailerResult(true, unread, trailers)
       case PayloadTooLarge =>
         exists pick :: OneMoreRead(u, calls, pick).ok && most < |OneMoreRead(u, calls, pick).out|
       case Failure =>
         reliable ==>
           || !accepts(out)
           || (exists pick :: !OneMoreRead(u, calls, pick).ok)
           || (r.d.finished && !TrailersInto(rules, r.unread, []).ok)
  }

  /** A drain that goes on with one more read. */
  ghost function Onwards(r: Drained, o: Outcome): Drained
  {
    Drained(o.reply.n >= 0, r.out + if o.reply.n >= 0 then o.reply.out else [], o.d, o.unread)
  }

  lemma DrainFirst(d: Decoder, u: Bytes, call: Request, calls: seq<Request>)
    requires PayloadRead(d, u, call.len, call.pick).reply.n >= 0
    ensures var o := PayloadRead(d, u, call.len, call.pick);
            var rest := Drain(o.d, o.unread, calls);
            Drain(d, u, [call] + calls) == rest.(out := o.reply.out + rest.out)
  {
    assert ([call] + calls)[1..] == calls;
  }

  lemma DrainOnce(d: Decoder, u: Bytes, call: Request)
    ensures Drain(d, u, [call]) == Onwards(Drained(true, [], d, u), PayloadRead(d, u, call.len, call.pick))
  {
    var o := PayloadRead(d, u, call.len, call.pick);
    assert [call][1..] == [];
    assert o.reply.n >= 0 ==> Drain(o.d, o.unread, []) == Drained(true, [], o.d, o.unread);
  }

  lemma OnwardsBehind(out: Bytes, r: Drained, o: Outcome)
    ensures Onwards(r.(out := out + r.out), o) == Onwards(r, o).(out := out + Onwards(r, o).out)
  {
    Reassociate(out, r.out, if o.reply.n >= 0 then o.reply.out else []);
  }

  lemma {:induction false} DrainSnoc(d: Decoder, u: Bytes, calls: seq<Request>, call: Request)
    requires Drain(d, u, calls).ok
    ensures var r := Drain(d, u, calls);
            Drain(d, u, calls + [call]) == Onwards(r, PayloadRead(r.d, r.unread, call.len, call.pick))
    decreases |calls|
  {
    if calls == [] {
      DrainOnce(d, u, call);
      assert [] + [call] == [call];
    } else {
      var first, rest := calls[0], calls[1..];
      var o := PayloadRead(d, u, first.len, first.pick);
      assert calls == [first] + rest && calls + [call] == [first] + (rest + [call]);
      var r := Drain(o.d, o.unread, rest);
      DrainSnoc(o.d, o.unread, rest, call);
      DrainFirst(d, u, first, rest);
      DrainFirst(d, u, first, rest + [call]);
      OnwardsBehind(o.reply.out, r, PayloadRead(r.d, r.unread, call.len, call.pick));
    }
  }

  lemma {:induction false} ConcatSnoc(blocks: seq<Bytes>, last: Bytes)
    ensures Concat(blocks + [last]) == Concat(blocks) + last
  {
    if blocks == [] {
      assert [last][1..] == [];
    } else {
      assert (blocks + [last])[1..] == blocks[1..] + [last];
      ConcatSnoc(blocks[1..], last);
    }
  }

  lemma ReplyLength(d: Decoder, u: Bytes, len: nat, pick: nat)
    ensures var o := PayloadRead(d, u, len, pick);
            o.reply.n >= 0 ==> |o.reply.out| == o.reply.n && (o.reply.n == 0 ==> o.d.finished)
  {
  }

  /** Where the loop stands: what it has read is what it has handed out. */
  ghost predicate Going(u: Bytes, calls: seq<Request>, out: seq<Bytes>, d: Decoder, unread: Bytes)
  {
    FullBuffers(calls) && Drain(START, u, calls) == Drained(true, Concat(out), d, unread)
  }

  /** One read, as one more of the drain. */
  method ReadOne(dec: ChunkedDecoder, ghost u: Bytes, ghost calls: seq<Request>, ghost out: seq<Bytes>)
      returns (reply: Reply, ghost pick: nat)
    requires dec.Valid() && Going(u, calls, out, dec.View(), dec.strm.Unread())
    modifies dec, dec.lineBuf, dec.strm, dec.strm.readBuff
    ensures dec.Valid() && dec.strm.readBuff == old(dec.strm.readBuff)
    ensures dec.strm.reliable && reply.n < 0 ==> !OneMoreRead(u, calls, pick).ok
    ensures reply.n >= 0 ==> |reply.out| == reply.n
    ensures reply.n >= 0 ==>
              Going(u, calls + [Request(RECV_BUFSIZ, pick)], out + [reply.out], dec.View(), dec.strm.Unread())
    ensures reply.n == 0 ==> dec.View().finished
    ensures reply.n > 0 ==> |dec.strm.Unread()| < |old(dec.strm.Unread())|
  {
    ghost var d, before := dec.View(), dec.strm.Unread();
    reply, pick := dec.ReadPayload(RECV_BUFSIZ);
    DrainSnoc(START, u, calls, Request(RECV_BUFSIZ, pick));
    ReplyLength(d, before, RECV_BUFSIZ, pick);
    ConcatSnoc(out, reply.out);
  }

  /** `read_content_chunked`. */
  method ReadContentChunked(strm: Stream, rules: TrailerRules, most: nat, accepts: seq<Bytes> -> bool)
      returns (result: ReadContentResult, trailers: seq<Field>, out: seq<Bytes>, ghost calls: seq<Request>)
    requires strm.Valid()
    modifies strm, strm.readBuff
    ensures strm.Valid()
    ensures Received(strm.reliable, rules, most, accepts, old(strm.Unread()),
                     calls, out, result, trailers, strm.Unread())
  {
    ghost var u := strm.Unread();
    var dec := new ChunkedDecoder(strm);
    var total := 0;
    trailers, out, calls := [], [], [];
    while true
      invariant dec.Valid() && dec.strm == strm && strm.readBuff == old(strm.readBuff)
      invariant fresh(dec) && fresh(dec.lineBuf)
      invariant Going(u, calls, out, dec.View(), strm.Unread())
      invariant total == |Concat(out)| <= most
      decreases |strm.Unread()|
    {
      var reply, pick := ReadOne(dec, u, calls, out);
      if reply.n < 0 {
        return Failure, trailers, out, calls;
      }
      ghost var calls' := calls + [Request(RECV_BUFSIZ, pick)];
      ConcatSnoc(out, reply.out);
      if reply.n == 0 {
        assert Concat(out) + [] == Concat(out);
        calls := calls';
        var ok;
        ok, trailers := dec.ParseTrailersInto(rules);
        result := if ok then Success else Failure;
        return;
      }
      if most - total < reply.n {
        assert OneMoreRead(u, calls, pick).ok && most < |OneMoreRead(u, calls, pick).out|;
        return PayloadTooLarge, trailers, out, calls;
      }
      calls, out := calls', out + [reply.out];
      if !accepts(out) {
        return Failure, trailers, out, calls;
      }
      total := total + reply.n;
    }
  }

  // What arrives ---------------------------------------------------------------------------

  /** A coded body whose trailer section is read as the fields `kept`, with `suffix`
      behind it on the connection. */
  ghost predicate SentAs(coding: Coding, rules: TrailerRules, kept: seq<Field>, suffix: Bytes)
  {
    CodingFits(coding) && TrailersInto(rules, coding.tail, []) == TrailerResult(true, suffix, kept)
  }

  lemma OneMoreArrives(coding: Coding, calls: seq<Request>, pick: nat)
    requires CodingFits(coding) && FullBuffers(calls)
    ensures var r := OneMoreRead(Body(coding), calls, pick); r.ok && r.out <= Payload(coding.chunks)
  {
    AnyCodingIsRead(coding, calls + [Request(RECV_BUFSIZ, pick)]);
  }

  /** A body in any coding, and whatever the stream does: the receiver has been
      handed a front of the payload; `Success` means all of it, the fields of the
      trailer section, and exactly the bytes behind the body left unread;
      `PayloadTooLarge` means it is larger than the limit.  On a reliable stream, with
      a receiver that takes everything, it is `Success` exactly when the payload is
      within the limit, and never `Failure`. */
  lemma CodedContentArrives(coding: Coding, kept: seq<Field>, suffix: Bytes,
                            reliable: bool, rules: TrailerRules, most: nat, accepts: seq<Bytes> -> bool,
                            calls: seq<Request>, out: seq<Bytes>, result: ReadContentResult,
                            trailers: seq<Field>, unread: Bytes)
    requires SentAs(coding, rules, kept, suffix)
    requires Received(reliable, rules, most, accepts, Body(coding), calls, out, result, trailers, unread)
    ensures var payload := Payload(coding.chunks);
            && Concat(out) <= payload
            && (result.Success? ==>
                  Concat(out) == payload && |payload| <= most && trailers == kept && unread == suffix)
            && (result.PayloadTooLarge? ==> most < |payload|)
            && (reliable && accepts(out) ==> result == if |payload| <= most then Success else PayloadTooLarge)
  {
    AnyCodingIsRead(coding, calls);
    forall pick: nat
      ensures var r := OneMoreRead(Body(coding), calls, pick); r.ok && r.out <= Payload(coding.chunks)
    {
      OneMoreArrives(coding, calls, pick);
    }
  }

  /** A body as the sink writes it. */
  ghost predicate Sent(rounds: seq<seq<SinkOp>>, blocks: seq<Bytes>, trailer: seq<Field>, rules: TrailerRules)
  {
    && rounds != [] && rounds[|rounds| - 1] != []
    && Flat(rounds) == Writes(blocks) + [Done(trailer)]
    && Fit(blocks)
    && (forall i | 0 <= i < |trailer| :: FieldFits(rules, trailer[i]))
    && (trailer != [] ==> |Kept(rules, trailer[..|trailer| - 1])| < HEADER_MAX_COUNT)
  }

  lemma SinkIsCoded(rounds: seq<seq<SinkOp>>, blocks: seq<Bytes>, trailer: seq<Field>, suffix: Bytes,
                    rules: TrailerRules) returns (coding: Coding)
    requires Sent(rounds, blocks, trailer, rules)
    ensures EmittedRounds(rounds) + suffix == Body(coding) && Payload(coding.chunks) == Concat(blocks)
    ensures SentAs(coding, rules, Kept(rules, trailer), suffix)
  {
    coding := PlainCoding(blocks, FieldLines(trailer) + CRLF + suffix);
    WireIsCoded(rounds, blocks, trailer, suffix);
    PlainCodingFits(blocks, coding.tail);
    PlainPayload(blocks, coding.tail);
    TrailersAreRead(rules, trailer, suffix, []);
    assert [] + Kept(rules, trailer) == Kept(rules, trailer);
  }

  /** The same for what the sink has written. */
  lemma ContentArrives(rounds: seq<seq<SinkOp>>, blocks: seq<Bytes>, trailer: seq<Field>, suffix: Bytes,
                       reliable: bool, rules: TrailerRules, most: nat, accepts: seq<Bytes> -> bool,
                       calls: seq<Request>, out: seq<Bytes>, result: ReadContentResult,
                       trailers: seq<Field>, unread: Bytes)
    requires Sent(rounds, blocks, trailer, rules)
    requires Received(reliable, rules, most, accepts, EmittedRounds(rounds) + suffix,
                      calls, out, result, trailers, unread)
    ensures Concat(out) <= Concat(blocks)
    ensures result.Success? ==>
              && Concat(out) == Concat(blocks) && |Concat(blocks)| <= most
              && trailers == Kept(rules, trailer) && unread == suffix
    ensures result.PayloadTooLarge? ==> most < |Concat(blocks)|
    ensures reliable && accepts(out) ==> result == if |Concat(blocks)| <= most then Success else PayloadTooLarge
  {
    var coding := SinkIsCoded(rounds, blocks, trailer, suffix, rules);
    CodedContentArrives(coding, Kept(rules, trailer), suffix, reliable, rules, most, accepts,
                        calls, out, result, trailers, unread);
  }

  /** A body whose first line holds no number is not received, on any stream. */
  lemma NoNumberIsNotReceived(line: Bytes, rest: Bytes,
                              reliable: bool, rules: TrailerRules, most: nat, accepts: seq<Bytes> -> bool,
                              calls: seq<Request>, out: seq<Bytes>, result: ReadContentResult,
                              trailers: seq<Field>, unread: Bytes)
    requires !Occurs(line, CRLF) && |line| + 2 <= MAX_LINE_LENGTH
    requires forall i: nat :: !NumberStarts(CString(line + CRLF), i)
    requires Received(reliable, rules, most, accepts, line + CRLF + rest, calls, out, result, trailers, unread)
    ensures result == Failure && Concat(out) == []
  {
    var u := line + CRLF + rest;
    if calls != [] {
      NoNumberFails(START, line, rest, calls[0].len, calls[0].pick);
    }
    forall pick: nat
      ensures !OneMoreRead(u, [], pick).ok
    {
      NoNumberFails(START, line, rest, RECV_BUFSIZ, pick);
      DrainOnce(START, u, Request(RECV_BUFSIZ, pick));
    }
    assert forall pick: nat :: [] + [Request(RECV_BUFSIZ, pick)] == [Request(RECV_BUFSIZ, pick)];
  }
}
