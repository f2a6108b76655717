/** The chunked transfer coding: the sink that writes it and the decoder that
    reads it back. */
module Chunked {
  import opened Bytes
  import opened Common
  import opened CText
  import opened SocketStream
  import opened LineReader

  const DONE_MARKER: Bytes := [48] + CRLF
  const COLON_SPACE: Bytes := [58, 32]
  const LINE_BUF_SIZE: nat := 64

  // Writing ------------------------------------------------------------------------

  datatype Field = Field(key: Bytes, val: Bytes)

  /** What a content provider does with the sink it is given: `done` is
      `Done([])`. */
  datatype SinkOp = Write(data: Bytes) | Done(trailer: seq<Field>)

  function Chunk(data: Bytes): Bytes
  {
    Hex(|data|) + CRLF + data + CRLF
  }

  function FieldLine(f: Field): Bytes { f.key + COLON_SPACE + f.val }

  function FieldLines(fields: seq<Field>): Bytes
  {
    if fields == [] then [] else FieldLine(fields[0]) + CRLF + FieldLines(fields[1..])
  }

  function Emitted(op: SinkOp): Bytes
  {
    match op
    case Write(data) => if data == [] then [] else Chunk(data)
    case Done(trailer) => DONE_MARKER + FieldLines(trailer) + CRLF
  }

  function EmittedAll(ops: seq<SinkOp>): Bytes
  {
    if ops == [] then [] else Emitted(ops[0]) + EmittedAll(ops[1..])
  }

  /** Does the loop go on after the operations of one call of the provider? */
  predicate GoesOn(ops: seq<SinkOp>)
  {
    ops == [] || (ops[|ops| - 1].Write? && ops[|ops| - 1].data != [])
  }

  /** The loop of `write_content_chunked`, one element per call of the provider. */
  function EmittedRounds(rounds: seq<seq<SinkOp>>): Bytes
  {
    if rounds == [] then []
    else EmittedAll(rounds[0]) + if GoesOn(rounds[0]) then EmittedRounds(rounds[1..]) else []
  }

  class ChunkedWriter {
    const reliable: bool
    /** The bytes the stream has accepted. */
    var wire: Bytes
    var offset: nat
    var dataAvailable: bool
    var ok: bool

    constructor (reliable: bool)
      ensures wire == [] && ok && dataAvailable && this.reliable == reliable && offset == 0
    {
      this.reliable := reliable;
      wire := [];
      offset := 0;
      dataAvailable := true;
      ok := true;
    }

    /** The stream may take any nonempty piece, or fail. */
    method StreamWrite(data: Bytes) returns (n: int)
      requires data != []
      modifies this`wire
      ensures reliable ==> n > 0
      ensures n != 0 && n <= |data|
      ensures n > 0 ==> wire == old(wire) + data[..n]
      ensures n < 0 ==> wire == old(wire)
    {
      if !reliable {
        if * {
          return -1;
        }
      }
      var k :| 1 <= k <= |data|;
      wire := wire + data[..k];
      n := k;
    }

    method WriteData(data: Bytes) returns (done: bool)
      modifies this`wire
      ensures done ==> wire == old(wire) + data
      ensures reliable ==> done
    {
      var sent := 0;
      while sent < |data|
        invariant 0 <= sent <= |data|
        invariant wire == old(wire) + data[..sent]
      {
        var n := StreamWrite(data[sent..]);
        if n < 0 {
          return false;
        }
        assert data[..sent + n] == data[..sent] + data[sent..][..n];
        sent := sent + n;
      }
      return true;
    }

    method SinkWrite(data: Bytes)
      modifies this
      ensures ok ==> old(ok) && wire == old(wire) + Emitted(Write(data))
      ensures ok ==> dataAvailable == (data != [])
      ensures reliable && old(ok) ==> ok
    {
      if ok {
        dataAvailable := |data| > 0;
        offset := offset + |data|;
        var payload := data;
        if payload != [] {
          var length := FromIToHex(|payload|);
          ok := WriteData(length + CRLF + payload + CRLF);
        }
      }
    }

    method SinkDone(trailer: seq<Field>)
      modifies this
      ensures ok ==> old(ok) && wire == old(wire) + Emitted(Done(trailer))
      ensures ok ==> !dataAvailable
      ensures reliable && old(ok) ==> ok
    {
      if !ok {
        return;
      }
      dataAvailable := false;
      ghost var start := wire;
      var sent := WriteData(DONE_MARKER);
      if !sent {
        ok := false;
      }
      for i := 0 to |trailer|
        modifies this`wire, this`ok
        invariant reliable ==> ok
        invariant ok ==> wire + FieldLines(trailer[i..]) == start + DONE_MARKER + FieldLines(trailer)
      {
        ghost var w := wire;
        var line := trailer[i].key + COLON_SPACE + trailer[i].val + CRLF;
        sent := WriteData(line);
        if !sent {
          ok := false;
        }
        assert trailer[i..][1..] == trailer[i + 1..];
        assert w + (FieldLine(trailer[i]) + CRLF + FieldLines(trailer[i + 1..]))
            == w + (FieldLine(trailer[i]) + CRLF) + FieldLines(trailer[i + 1..]);
      }
      sent := WriteData(CRLF);
      if !sent {
        ok := false;
      }
      assert start + DONE_MARKER + FieldLines(trailer) + CRLF == start + (DONE_MARKER + FieldLines(trailer) + CRLF);
    }

    method Perform(op: SinkOp)
      modifies this
      ensures ok ==> old(ok) && wire == old(wire) + Emitted(op)
      ensures ok ==> dataAvailable == GoesOn([op])
      ensures reliable && old(ok) ==> ok
    {
      match op {
        case Write(data) => SinkWrite(data);
        case Done(trailer) => SinkDone(trailer);
      }
    }

    /** One call of the content provider. */
    method Provide(ops: seq<SinkOp>)
      requires ok && dataAvailable
      modifies this
      ensures ok ==> wire == old(wire) + EmittedAll(ops)
      ensures ok ==> dataAvailable == GoesOn(ops)
      ensures reliable ==> ok
    {
      for i := 0 to |ops|
        invariant reliable ==> ok
        invariant ok ==> wire == old(wire) + EmittedAll(ops[..i])
        invariant ok ==> dataAvailable == GoesOn(ops[..i])
      {
        ghost var w := wire;
        Perform(ops[i]);
        EmittedOneMore(w, old(wire), ops, i);
      }
      assert ops[..|ops|] == ops;
    }

    /** The provider makes the operations `rounds[i]` at its i-th call; the server
        shuts down when there are no more. */
    method WriteContentChunked(rounds: seq<seq<SinkOp>>) returns (success: bool)
      requires ok && dataAvailable
      modifies this
      ensures success ==> wire == old(wire) + EmittedRounds(rounds)
      ensures reliable ==> success
    {
      var i := 0;
      while dataAvailable && i < |rounds|
        invariant 0 <= i <= |rounds|
        invariant ok
        invariant Owing(wire, old(wire) + EmittedRounds(rounds), rounds, i, dataAvailable)
        decreases |rounds| - i
      {
        ghost var w := wire;
        Provide(rounds[i]);
        if !ok {
          return false;
        }
        OneRoundMore(w, old(wire) + EmittedRounds(rounds), rounds, i);
        i := i + 1;
      }
      return true;
    }
  }

  lemma EmittedOneMore(w: Bytes, start: Bytes, ops: seq<SinkOp>, i: nat)
    requires i < |ops|
    ensures w == start + EmittedAll(ops[..i]) ==> w + Emitted(ops[i]) == start + EmittedAll(ops[..i + 1])
    ensures GoesOn(ops[..i + 1]) == GoesOn([ops[i]])
  {
    assert ops[..i + 1] == ops[..i] + [ops[i]];
    EmittedConcat(ops[..i], [ops[i]]);
    assert EmittedAll([ops[i]]) == Emitted(ops[i]) + EmittedAll([]);
  }

  lemma {:induction false} EmittedConcat(o1: seq<SinkOp>, o2: seq<SinkOp>)
    ensures EmittedAll(o1 + o2) == EmittedAll(o1) + EmittedAll(o2)
  {
    if o1 == [] {
      assert o1 + o2 == o2;
    } else {
      assert (o1 + o2)[1..] == o1[1..] + o2;
      EmittedConcat(o1[1..], o2);
    }
  }

  /** What is on the wire before round i, and what the rounds from there on add,
      is all there will be. */
  ghost predicate Owing(wire: Bytes, total: Bytes, rounds: seq<seq<SinkOp>>, i: nat, available: bool)
    requires i <= |rounds|
  {
    wire + (if available then EmittedRounds(rounds[i..]) else []) == total
  }

  lemma OneRoundMore(w: Bytes, total: Bytes, rounds: seq<seq<SinkOp>>, i: nat)
    requires i < |rounds| && Owing(w, total, rounds, i, true)
    ensures Owing(w + EmittedAll(rounds[i]), total, rounds, i + 1, GoesOn(rounds[i]))
  {
    assert rounds[i..] == [rounds[i]] + rounds[i + 1..];
    RoundsUnfold(rounds[i], rounds[i + 1..]);
    var rest := if GoesOn(rounds[i]) then EmittedRounds(rounds[i + 1..]) else [];
    Reassociate(w, EmittedAll(rounds[i]), rest);
  }

  lemma RoundsUnfold(first: seq<SinkOp>, others: seq<seq<SinkOp>>)
    ensures EmittedRounds([first] + others) ==
            EmittedAll(first) + if GoesOn(first) then EmittedRounds(others) else []
  {
    assert ([first] + others)[1..] == others;
  }

  // Reading ------------------------------------------------------------------------------

  datatype Decoder = Decoder(remaining: nat, finished: bool, total: nat, offset: nat)

  /** The result of a read: what was returned, what was stored in the caller's
      buffer, and where in its chunk that lies. */
  datatype Reply = Reply(n: int, out: Bytes, chunkOffset: nat, chunkTotal: nat)

  const FAILED := Reply(-1, [], 0, 0)
  const ENDED := Reply(0, [], 0, 0)

  datatype Outcome = Outcome(d: Decoder, unread: Bytes, reply: Reply)

  /** Read the size line of the next chunk. */
  ghost function StartChunk(d: Decoder, u: Bytes): Outcome
  {
    var line := NextLine(u);
    var rest := u[line.len..];
    if !line.ok then Outcome(d, rest, FAILED)
    else
      var size := Strtoul(CString(u[..line.len]));
      if size.end == 0 || size.value == ULONG_MAX then Outcome(d, rest, FAILED)
      else if size.value == 0 then Outcome(d.(remaining := 0, finished := true), rest, ENDED)
      else Outcome(Decoder(size.value, d.finished, size.value, 0), rest, Reply(1, [], 0, 0))
  }

  /** Is the line at the front of the input the empty one? */
  ghost predicate EmptyLineNext(u: Bytes)
  {
    var line := NextLine(u);
    line.ok && CString(u[..line.len]) == CRLF
  }

  /** Read a piece of a chunk; the stream delivers `k` bytes. */
  ghost function TakePiece(d: Decoder, u: Bytes, k: nat): Outcome
    requires 1 <= k <= d.remaining && k <= |u|
  {
    var d' := d.(remaining := d.remaining - k, offset := d.offset + k);
    var rest := u[k..];
    var reply := Reply(k, u[..k], d.offset, d.total);
    if d'.remaining > 0 then Outcome(d', rest, reply)
    else Outcome(d', rest[NextLine(rest).len..], if EmptyLineNext(rest) then reply else reply.(n := -1))
  }

  /** One call of `read_payload` on a reliable stream; `pick` decides how short
      the read of the payload is. */
  ghost function PayloadRead(d: Decoder, u: Bytes, len: nat, pick: nat): Outcome
  {
    if d.finished then Outcome(d, u, ENDED)
    else
      var started := if d.remaining == 0 then StartChunk(d, u) else Outcome(d, u, Reply(1, [], 0, 0));
      if started.reply.n != 1 then started
      else PieceRead(started.d, started.unread, len, pick)
  }

  ghost function PieceRead(d: Decoder, u: Bytes, len: nat, pick: nat): Outcome
  {
    var most := Least(d.remaining, len, |u|);
    if most == 0 then Outcome(d, u, FAILED)
    else TakePiece(d, u, if pick < 1 then 1 else if pick > most then most else pick)
  }

  function Least(a: nat, b: nat, c: nat): nat
  {
    var m := if a < b then a else b;
    if m < c then m else c
  }

  const HEADER_MAX_COUNT: nat := 100

  datatype HeaderResult = Malformed | Parsed(field: Field)

  /** The treatment of one header line, and the trailers the header section
      announced. */
  datatype TrailerRules = TrailerRules(parse: Bytes -> HeaderResult, declared: Bytes -> bool)

  datatype TrailerResult = TrailerResult(ok: bool, unread: Bytes, dest: seq<Field>)

  function WithoutEnd(text: Bytes): Bytes
  {
    if |text| < 2 then [] else text[..|text| - 2]
  }

  /** The loop of `parse_trailers`, with `text` the line last read. */
  ghost function Trailers(rules: TrailerRules, text: Bytes, u: Bytes, dest: seq<Field>): TrailerResult
    decreases |u|
  {
    if CString(text) == CRLF then TrailerResult(true, u, dest)
    else if |text| > HEADER_MAX_LENGTH || |dest| >= HEADER_MAX_COUNT || |text| < 2 then TrailerResult(false, u, dest)
    else
      match rules.parse(WithoutEnd(text))
      case Malformed => TrailerResult(false, u, dest)
      case Parsed(f) =>
        var dest' := if rules.declared(f.key) then dest + [f] else dest;
        var line := NextLine(u);
        if line.ok then Trailers(rules, u[..line.len], u[line.len..], dest')
        else TrailerResult(false, u[line.len..], dest')
  }

  /** Read a line and go on with it. */
  ghost function TrailersInto(rules: TrailerRules, u: Bytes, dest: seq<Field>): TrailerResult
  {
    var line := NextLine(u);
    if line.ok then Trailers(rules, u[..line.len], u[line.len..], dest)
    else TrailerResult(false, u[line.len..], dest)
  }

  /** Input is only ever taken from the front. */
  ghost predicate IsRest(rest: Bytes, u: Bytes)
  {
    |rest| <= |u| && rest == u[|u| - |rest|..]
  }

  lemma TakenFromFront(u: Bytes, n: nat)
    requires n <= |u|
    ensures IsRest(u[n..], u)
  {
  }

  lemma RestOfRest(w: Bytes, v: Bytes, u: Bytes)
    requires IsRest(w, v) && IsRest(v, u)
    ensures IsRest(w, u)
  {
  }

  class ChunkedDecoder {
    const strm: Stream
    var chunkRemaining: nat
    var finished: bool
    const lineBuf: array<byte>
    var lastChunkTotal: nat
    var lastChunkOffset: nat

    ghost predicate Valid()
      reads this, strm, strm.readBuff
    {
      strm.Valid() && lineBuf.Length == LINE_BUF_SIZE && lineBuf != strm.readBuff
    }

    ghost function View(): Decoder
      reads this
    {
      Decoder(chunkRemaining, finished, lastChunkTotal, lastChunkOffset)
    }

    constructor (strm: Stream)
      requires strm.Valid()
      ensures Valid() && this.strm == strm && fresh(lineBuf)
      ensures View() == Decoder(0, false, 0, 0)
    {
      this.strm := strm;
      chunkRemaining := 0;
      finished := false;
      lineBuf := new byte[LINE_BUF_SIZE];
      lastChunkTotal := 0;
      lastChunkOffset := 0;
    }

    /** Read a line into `lineBuf`, and return it. */
    method Line() returns (ok: bool, text: Bytes)
      requires Valid()
      modifies lineBuf, strm, strm.readBuff
      ensures Valid() && strm.readBuff == old(strm.readBuff)
      ensures text + strm.Unread() == old(strm.Unread())
      ensures strm.reliable || ok ==> LineReader.Line(ok, |text|) == NextLine(old(strm.Unread()))
    {
      var lr := new StreamLineReader(strm, lineBuf);
      ok := lr.GetLine();
      text := lr.Ptr();
    }

    method StartNextChunk() returns (n: int)
      requires Valid()
      modifies this, lineBuf, strm, strm.readBuff
      ensures Valid() && strm.readBuff == old(strm.readBuff)
      ensures strm.reliable || n >= 0 ==>
                var o := StartChunk(old(View()), old(strm.Unread()));
                View() == o.d && strm.Unread() == o.unread && n == o.reply.n
      ensures n == 1 ==> chunkRemaining > 0 && finished == old(finished)
      ensures IsRest(strm.Unread(), old(strm.Unread()))
      ensures n <= 1
    {
      ghost var u := strm.Unread();
      var ok, text := Line();
      assert text == u[..|text|] && strm.Unread() == u[|text|..];
      if !ok {
        return -1;
      }
      var size := Strtoul(CString(text));
      if size.end == 0 {
        return -1;
      }
      if size.value == ULONG_MAX {
        return -1;
      }
      if size.value == 0 {
        chunkRemaining := 0;
        finished := true;
        return 0;
      }
      chunkRemaining := size.value;
      lastChunkTotal := chunkRemaining;
      lastChunkOffset := 0;
      return 1;
    }

    /** The CRLF behind a chunk that has been read to its end. */
    method SkipChunkEnd() returns (ok: bool)
      requires Valid()
      modifies lineBuf, strm, strm.readBuff
      ensures Valid() && strm.readBuff == old(strm.readBuff)
      ensures IsRest(strm.Unread(), old(strm.Unread()))
      ensures strm.reliable || ok ==>
                var u := old(strm.Unread());
                ok == EmptyLineNext(u) && strm.Unread() == u[NextLine(u).len..]
    {
      ghost var u := strm.Unread();
      var text;
      ok, text := Line();
      assert text == u[..|text|] && strm.Unread() == u[|text|..];
      ok := ok && CString(text) == CRLF;
    }

    /** The payload part of `read_payload`, with a chunk under way. */
    method ReadPiece(len: nat) returns (reply: Reply, ghost pick: nat)
      requires Valid() && chunkRemaining > 0 && !finished
      modifies this, lineBuf, strm, strm.readBuff
      ensures Valid() && strm.readBuff == old(strm.readBuff)
      ensures strm.reliable || reply.n >= 0 ==>
                Outcome(View(), strm.Unread(), reply) == PieceRead(old(View()), old(strm.Unread()), len, pick)
      ensures reply.n > 0 ==> |strm.Unread()| < |old(strm.Unread())|
      ensures IsRest(strm.Unread(), old(strm.Unread()))
    {
      ghost var d, u := View(), strm.Unread();
      pick := 0;
      var toRead := if chunkRemaining < len then chunkRemaining else len;
      var n, data := strm.Read(toRead);
      if n <= 0 {
        assert u == strm.Unread() == u[0..];
        TakenFromFront(u, 0);
        assert n == 0 ==> Least(chunkRemaining, len, |u|) == 0;
        return FAILED, pick;
      }
      pick := n;
      assert data == u[..n] && strm.Unread() == u[n..];
      var before := lastChunkOffset;
      lastChunkOffset := lastChunkOffset + n;
      chunkRemaining := chunkRemaining - n;
      TakenFromFront(u, n);
      reply := EndPiece(Reply(n, data, before, lastChunkTotal), u);
      assert PieceRead(d, u, len, pick) == TakePiece(d, u, n);
    }

    /** Behind the last piece of a chunk its CRLF is skipped. */
    method EndPiece(piece: Reply, ghost u: Bytes) returns (reply: Reply)
      requires Valid() && piece.n > 0 && IsRest(strm.Unread(), u)
      modifies lineBuf, strm, strm.readBuff
      ensures Valid() && strm.readBuff == old(strm.readBuff)
      ensures IsRest(strm.Unread(), u) && |strm.Unread()| <= |old(strm.Unread())|
      ensures strm.reliable || reply.n >= 0 ==>
                (strm.Unread(), reply) ==
                var v := old(strm.Unread());
                if chunkRemaining > 0 then (v, piece)
                else (v[NextLine(v).len..], if EmptyLineNext(v) then piece else piece.(n := -1))
    {
      reply := piece;
      ghost var v := strm.Unread();
      if chunkRemaining == 0 {
        var ok := SkipChunkEnd();
        RestOfRest(strm.Unread(), v, u);
        if !ok {
          reply := reply.(n := -1);
        }
      }
    }

    method ReadPayload(len: nat) returns (reply: Reply, ghost pick: nat)
      requires Valid()
      modifies this, lineBuf, strm, strm.readBuff
      ensures Valid() && strm.readBuff == old(strm.readBuff)
      ensures strm.reliable || reply.n >= 0 ==>
                Outcome(View(), strm.Unread(), reply) == PayloadRead(old(View()), old(strm.Unread()), len, pick)
      ensures reply.n > 0 ==> |strm.Unread()| < |old(strm.Unread())|
      ensures IsRest(strm.Unread(), old(strm.Unread()))
    {
      pick := 0;
      if finished {
        return ENDED, pick;
      }
      if chunkRemaining == 0 {
        var n := StartNextChunk();
        if n != 1 {
          return Reply(n, [], 0, 0), pick;
        }
      }
      ghost var v := strm.Unread();
      reply, pick := ReadPiece(len);
      RestOfRest(strm.Unread(), v, old(strm.Unread()));
    }

    /** `parse_trailers_into`, one reader for all its lines. */
    method ParseTrailersInto(rules: TrailerRules) returns (ok: bool, dest: seq<Field>)
      requires Valid()
      modifies lineBuf, strm, strm.readBuff
      ensures Valid() && strm.readBuff == old(strm.readBuff)
      ensures IsRest(strm.Unread(), old(strm.Unread()))
      ensures strm.reliable || ok ==>
                TrailerResult(ok, strm.Unread(), dest) == TrailersInto(rules, old(strm.Unread()), [])
    {
      ghost var u := strm.Unread();
      dest := [];
      var lr := new StreamLineReader(strm, lineBuf);
      ok := lr.GetLine();
      var text := lr.Ptr();
      assert text == u[..|text|] && strm.Unread() == u[|text|..];
      if !ok {
        return;
      }
      ghost var total := TrailersInto(rules, u, []);
      while CString(text) != CRLF
        invariant Valid() && lr.Valid() && strm.readBuff == old(strm.readBuff)
        invariant text == lr.Text() && IsRest(strm.Unread(), u)
        invariant Trailers(rules, text, strm.Unread(), dest) == total
        decreases |strm.Unread()|
      {
        if |text| > HEADER_MAX_LENGTH || |dest| >= HEADER_MAX_COUNT || |text| < 2 {
          return false, dest;
        }
        match rules.parse(WithoutEnd(text)) {
          case Malformed =>
            return false, dest;
          case Parsed(f) =>
            if rules.declared(f.key) {
              dest := dest + [f];
            }
        }
        ghost var v := strm.Unread();
        ok := lr.GetLine();
        text := lr.Ptr();
        assert text == v[..|text|] && strm.Unread() == v[|text|..];
        RestOfRest(strm.Unread(), v, u);
        if !ok {
          return false, dest;
        }
      }
      return true, dest;
    }
  }
}
