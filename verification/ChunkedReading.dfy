/** Reading a chunked body, in any coding of its sizes: every read returns the next
    piece of the payload. */
module ChunkedReading {
  import opened Bytes
  import opened Common
  import opened CText
  import opened LineReader
  import opened Chunked

  // Reading the framing lines ------------------------------------------------------------

  /** A line without CRLF inside, short enough, is read as it stands. */
  lemma ReadsLine(line: Bytes, rest: Bytes)
    requires !Occurs(line, CRLF) && |line| + 2 <= MAX_LINE_LENGTH
    ensures NextLine(line + CRLF + rest) == Line(true, |line| + 2)
    ensures (line + CRLF + rest)[..|line| + 2] == line + CRLF
    ensures (line + CRLF + rest)[|line| + 2..] == rest
  {
    FindAfter(line, CRLF, rest);
  }

  lemma {:induction false} HexLength(n: nat, k: nat)
    requires k >= 1 && n < Power(16, k)
    ensures |Hex(n)| <= k
  {
    if n >= 16 {
      HexLength(n / 16, k - 1);
    }
  }

  lemma SizeLine(n: nat)
    requires n <= ULONG_MAX
    ensures !Occurs(Hex(n), CRLF) && |Hex(n)| <= 16
    ensures CString(Hex(n) + CRLF) == Hex(n) + CRLF
  {
    assert Power(16, 2) == 0x100 && Power(16, 4) == 0x1_0000 && Power(16, 6) == 0x100_0000;
    assert Power(16, 8) == 0x1_0000_0000 && Power(16, 10) == 0x100_0000_0000 && Power(16, 12) == 0x1_0000_0000_0000;
    assert Power(16, 14) == 0x100_0000_0000_0000;
    HexLength(n, 16);
    CStringIsWhole(Hex(n) + CRLF);
    forall i
      ensures !OccursAt(Hex(n), CRLF, i)
    {
      if 0 <= i && i + 2 <= |Hex(n)| {
        assert Hex(n)[i..i + 2][0] == Hex(n)[i] && IsHex(Hex(n)[i]);
      }
    }
  }

  // Size lines -----------------------------------------------------------------------------

  /** A size as it may be written: blanks, a sign and "0x" if they are there, digits,
      and whatever follows them. */
  datatype Size = Size(blanks: Bytes, sign: Bytes, prefix: Bytes, digits: Bytes, ext: Bytes)

  function SizeText(z: Size): Bytes { z.blanks + (z.sign + (z.prefix + (z.digits + z.ext))) }

  /** What follows does not go on with the number, nor make its leading zero a prefix;
      a chunk extension in the sense of section 7.1.1 of RFC 9112 does not. */
  predicate IsSize(z: Size)
  {
    && (forall k | 0 <= k < |z.blanks| :: IsSpace(z.blanks[k]))
    && IsSign(z.sign) && IsHexPrefix(z.prefix) && z.digits != [] && AllHex(z.digits)
    && (z.ext == [] || !IsHex(z.ext[0]))
    && (z.prefix == [] ==> !HasPrefix(z.digits + z.ext))
  }

  /** A size line without its end, for the size n. */
  ghost predicate Announces(line: Bytes, n: nat)
  {
    && !Occurs(line, CRLF) && |line| + 2 <= MAX_LINE_LENGTH
    && exists z :: IsSize(z) && SizeText(z) == line && Limited(Number(z.digits), z.sign == [45]) == n
  }

  lemma HexAnnounces(n: nat)
    requires n <= ULONG_MAX
    ensures Announces(Hex(n), n)
  {
    var z := Size([], [], [], Hex(n), []);
    SizeLine(n);
    NumberOfHex(n);
    HexStartsPlain(n);
    assert Hex(n) + [] == Hex(n) && SizeText(z) == Hex(n);
    assert !HasPrefix(Hex(n)) by {
      assert |Hex(n)| > 2 ==> (Hex(n) + CRLF)[..3] == Hex(n)[..3];
    }
    assert IsSize(z);
  }

  /** The front of a C string without NUL, and the rest up to its end. */
  lemma {:induction false} CStringFront(text: Bytes, rest: Bytes)
    requires 0 !in text
    ensures CString(text + rest) == text + CString(rest)
  {
    if text == [] {
      assert text + rest == rest && [] + CString(rest) == CString(rest);
    } else {
      assert (text + rest)[1..] == text[1..] + rest;
      CStringFront(text[1..], rest);
      assert text == [text[0]] + text[1..];
    }
  }

  lemma SizeHasNoNul(z: Size)
    requires IsSize(z)
    ensures 0 !in z.blanks && 0 !in z.sign && 0 !in z.prefix && 0 !in z.digits
  {
  }

  /** What `strtoul` finds behind the digits. */
  lemma RestIsQuiet(digits: Bytes, ext: Bytes, end: Bytes)
    requires ext == [] || !IsHex(ext[0])
    requires end == [] || (end[0] != 0 && !IsHex(end[0]))
    ensures var rest := CString(ext + end); rest == [] || !IsHex(rest[0])
  {
    if ext == [] {
      assert ext + end == end;
    } else {
      assert (ext + end)[0] == ext[0];
    }
  }

  lemma NoPrefixBehind(digits: Bytes, ext: Bytes, end: Bytes)
    requires digits != [] && AllHex(digits) && !HasPrefix(digits + ext)
    requires end == [] || end == CRLF
    ensures !HasPrefix(digits + CString(ext + end))
  {
    var s, t := digits + ext, digits + CString(ext + end);
    CStringKeeps(ext + end);
    assert forall i | 0 <= i < |s| && i < |t| :: t[i] == s[i];
    assert |s| <= 2 < |t| ==> !IsHex(t[2]);
  }

  lemma {:induction false} CStringKeeps(s: Bytes)
    ensures |CString(s)| <= |s| && forall i | 0 <= i < |CString(s)| :: CString(s)[i] == s[i]
  {
    if s != [] && s[0] != 0 {
      CStringKeeps(s[1..]);
    }
  }

  lemma RegroupSize(z: Size, end: Bytes)
    ensures SizeText(z) + end == z.blanks + z.sign + z.prefix + z.digits + (z.ext + end)
    ensures z.blanks + z.sign + z.prefix + z.digits + CString(z.ext + end)
         == z.blanks + (z.sign + (z.prefix + (z.digits + CString(z.ext + end))))
  {
  }

  /** The number of a size line, with its end or at the end of the input. */
  lemma SizeIsRead(z: Size, end: Bytes)
    requires IsSize(z) && (end == [] || end == CRLF)
    ensures Strtoul(CString(SizeText(z) + end))
         == Scanned(Limited(Number(z.digits), z.sign == [45]), |z.blanks| + |z.sign| + |z.prefix| + |z.digits|)
  {
    var rest := CString(z.ext + end);
    SizeHasNoNul(z);
    RegroupSize(z, end);
    CStringFront(z.blanks + z.sign + z.prefix + z.digits, z.ext + end);
    RestIsQuiet(z.digits, z.ext, end);
    if z.prefix == [] {
      NoPrefixBehind(z.digits, z.ext, end);
    }
    StrtoulReads(z.blanks, z.sign, z.prefix, z.digits, rest);
  }

  /** The digits are read, whatever follows them. */
  lemma AnnouncedIsRead(line: Bytes, n: nat)
    requires Announces(line, n)
    ensures var r := Strtoul(CString(line + CRLF)); r.end > 0 && r.value == n
  {
    var z :| IsSize(z) && SizeText(z) == line && Limited(Number(z.digits), z.sign == [45]) == n;
    SizeIsRead(z, CRLF);
  }

  /** Any size line, in digits of either case and with any extension, starts a chunk
      of that size. */
  lemma StartsChunk(d: Decoder, line: Bytes, n: nat, rest: Bytes)
    requires Announces(line, n) && 0 < n < ULONG_MAX
    ensures StartChunk(d, line + CRLF + rest) == Outcome(Decoder(n, d.finished, n, 0), rest, Reply(1, [], 0, 0))
  {
    ReadsLine(line, rest);
    AnnouncedIsRead(line, n);
  }

  lemma StartsLast(d: Decoder, line: Bytes, rest: Bytes)
    requires Announces(line, 0)
    ensures StartChunk(d, line + CRLF + rest) == Outcome(d.(remaining := 0, finished := true), rest, ENDED)
  {
    ReadsLine(line, rest);
    AnnouncedIsRead(line, 0);
  }

  /** A size that does not fit the counter fails. */
  lemma TooLargeFails(d: Decoder, line: Bytes, rest: Bytes)
    requires Announces(line, ULONG_MAX)
    ensures StartChunk(d, line + CRLF + rest) == Outcome(d, rest, FAILED)
  {
    ReadsLine(line, rest);
    AnnouncedIsRead(line, ULONG_MAX);
  }

  /** No line at all fails: at the end of the input, or without a line end in reach. */
  lemma NoLineFails(d: Decoder, u: Bytes, len: nat, pick: nat)
    requires !d.finished && d.remaining == 0
    requires u == [] || (MAX_LINE_LENGTH <= |u| && forall i | 0 <= i <= MAX_LINE_LENGTH - 2 :: !OccursAt(u, CRLF, i))
    ensures PayloadRead(d, u, len, pick).reply.n == -1 && !PayloadRead(d, u, len, pick).d.finished
  {
    NextLineMeans(u);
  }

  /** Input that ends inside a chunk, and a buffer without room, fail. */
  lemma NothingToReadFails(d: Decoder, u: Bytes, len: nat, pick: nat)
    requires !d.finished && d.remaining > 0 && (u == [] || len == 0)
    ensures PayloadRead(d, u, len, pick) == Outcome(d, u, FAILED)
  {
  }

  /** A line in which no number starts fails, and is not the end of the body. */
  lemma NoNumberFails(d: Decoder, line: Bytes, rest: Bytes, len: nat, pick: nat)
    requires !d.finished && d.remaining == 0
    requires !Occurs(line, CRLF) && |line| + 2 <= MAX_LINE_LENGTH
    requires forall i: nat :: !NumberStarts(CString(line + CRLF), i)
    ensures PayloadRead(d, line + CRLF + rest, len, pick) == Outcome(d, rest, FAILED)
  {
    ReadsLine(line, rest);
    StrtoulTakesNothingIff(CString(line + CRLF));
  }

  lemma ChunkEnds(rest: Bytes)
    ensures EmptyLineNext(CRLF + rest) && NextLine(CRLF + rest).len == 2
    ensures (CRLF + rest)[2..] == rest
  {
    assert [] + CRLF + rest == CRLF + rest;
    ReadsLine([], rest);
    CStringIsWhole(CRLF);
  }

  /** The empty line is the one that starts with CRLF. */
  lemma EmptyLineNextIff(u: Bytes)
    ensures EmptyLineNext(u) <==> CRLF <= u
  {
    if CRLF <= u {
      assert u == CRLF + u[2..];
      ChunkEnds(u[2..]);
    } else if EmptyLineNext(u) {
      EmptyLineStarts(u[..NextLine(u).len]);
    }
  }

  lemma EmptyLineStarts(text: Bytes)
    requires CString(text) == CRLF
    ensures CRLF <= text
  {
    var rest := CString(text[1..]);
    assert CString(text) == [text[0]] + rest;
    assert CRLF[0] == CR && CRLF[1] == LF && ([text[0]] + rest)[1] == rest[0];
    assert rest[0] == text[1..][0] == text[1];
  }

  /** A chunk whose last piece is not followed by CRLF fails. */
  lemma MissingLineEndFails(d: Decoder, u: Bytes, k: nat)
    requires 1 <= k == d.remaining <= |u| && !(CRLF <= u[k..])
    ensures TakePiece(d, u, k).reply.n == -1
  {
    EmptyLineNextIff(u[k..]);
  }

  // One read ----------------------------------------------------------------------------

  /** A chunk as it is coded: its size line without the end, and its data. */
  datatype Coded = Coded(line: Bytes, data: Bytes)

  /** A coded body: the chunks, the line of the last chunk, and what follows that. */
  datatype Coding = Coding(chunks: seq<Coded>, last: Bytes, tail: Bytes)

  function Rest(coding: Coding): Coding
    requires coding.chunks != []
  {
    coding.(chunks := coding.chunks[1..])
  }

  function CodedChunk(c: Coded): Bytes { c.line + CRLF + c.data + CRLF }

  function Body(coding: Coding): Bytes
    decreases |coding.chunks|
  {
    if coding.chunks == [] then coding.last + CRLF + coding.tail
    else CodedChunk(coding.chunks[0]) + Body(Rest(coding))
  }

  function Payload(chunks: seq<Coded>): Bytes
  {
    if chunks == [] then [] else chunks[0].data + Payload(chunks[1..])
  }

  ghost predicate CodedFits(c: Coded)
  {
    0 < |c.data| < ULONG_MAX && Announces(c.line, |c.data|)
  }

  ghost predicate CodingFits(coding: Coding)
  {
    (forall c | c in coding.chunks :: CodedFits(c)) && Announces(coding.last, 0)
  }

  /** The decoder has `cur` left of the chunk under way and `more` to come. */
  ghost predicate Tracks(d: Decoder, u: Bytes, cur: Bytes, more: Coding)
  {
    && CodingFits(more)
    && d.remaining == |cur|
    && if d.finished then u == more.tail && cur == [] && more.chunks == []
       else if cur == [] then u == Body(more)
       else u == cur + CRLF + Body(more) && d.offset + d.remaining == d.total
  }

  /** The call returned k bytes of the chunk under way and stands behind them. */
  ghost predicate TookPiece(d: Decoder, o: Outcome, cur: Bytes, more: Coding, k: nat)
  {
    && 1 <= k <= |cur|
    && o.reply == Reply(k, cur[..k], d.offset, d.total)
    && Tracks(o.d, o.unread, cur[k..], more) && !o.d.finished
  }

  lemma PieceTracks(d: Decoder, u: Bytes, cur: Bytes, more: Coding, k: nat)
    requires Tracks(d, u, cur, more) && !d.finished && 1 <= k <= |cur|
    ensures k <= |u| && TookPiece(d, TakePiece(d, u, k), cur, more, k)
  {
    var after := CRLF + Body(more);
    assert u == cur + after;
    assert u[..k] == cur[..k];
    assert u[k..] == cur[k..] + after;
    if k == |cur| {
      assert u[k..] == after;
      ChunkEnds(Body(more));
    }
  }

  /** A piece of the chunk under way. */
  lemma PieceIsRead(d: Decoder, u: Bytes, cur: Bytes, more: Coding, len: nat, pick: nat)
    requires Tracks(d, u, cur, more) && cur != [] && len > 0
    ensures exists k: nat :: k <= len && TookPiece(d, PayloadRead(d, u, len, pick), cur, more, k)
  {
    var most := Least(d.remaining, len, |u|);
    var k := if pick < 1 then 1 else if pick > most then most else pick;
    PieceTracks(d, u, cur, more, k);
    assert TookPiece(d, PayloadRead(d, u, len, pick), cur, more, k);
  }

  /** The data of a chunk and what follows it. */
  function Behind(c: Coded, more: Coding): Bytes { c.data + CRLF + Body(more) }

  /** A size line is read only to go on with its chunk. */
  lemma NextChunkRead(d: Decoder, u: Bytes, more: Coding, len: nat, pick: nat)
    requires Tracks(d, u, [], more) && more.chunks != [] && !d.finished
    ensures var c := more.chunks[0];
            var d1, u1 := Decoder(|c.data|, false, |c.data|, 0), Behind(c, Rest(more));
            && c.data != [] && Tracks(d1, u1, c.data, Rest(more))
            && PayloadRead(d, u, len, pick) == PayloadRead(d1, u1, len, pick)
  {
    var c, rest := more.chunks[0], Rest(more);
    assert c in more.chunks && CodedFits(c);
    assert CodingFits(rest);
    assert u == c.line + CRLF + Behind(c, rest);
    StartsChunk(d, c.line, |c.data|, Behind(c, rest));
  }

  /** After a call the decoder stands where the rest of the payload begins. */
  ghost predicate ReadsOn(payload: Bytes, o: Outcome, tail: Bytes)
  {
    exists cur, more :: Tracks(o.d, o.unread, cur, more) && more.tail == tail
      && payload == o.reply.out + (cur + Payload(more.chunks))
  }

  /** What a read returns while there is payload left. */
  lemma PieceReadsOn(d: Decoder, u: Bytes, cur: Bytes, more: Coding, len: nat, pick: nat)
    requires Tracks(d, u, cur, more) && cur != [] && len > 0
    ensures var o := PayloadRead(d, u, len, pick);
            ReadsOn(cur + Payload(more.chunks), o, more.tail) && 0 < o.reply.n == |o.reply.out| <= len
  {
    var o := PayloadRead(d, u, len, pick);
    PieceIsRead(d, u, cur, more, len, pick);
    var k: nat :| k <= len && TookPiece(d, o, cur, more, k);
    FrontAndRest(cur, Payload(more.chunks), k);
    assert Tracks(o.d, o.unread, cur[k..], more);
  }

  lemma LastIsRead(d: Decoder, u: Bytes, more: Coding, len: nat, pick: nat)
    requires Tracks(d, u, [], more) && more.chunks == [] && !d.finished
    ensures var o := PayloadRead(d, u, len, pick);
            o.d.finished && o.reply == ENDED && Tracks(o.d, o.unread, [], more)
  {
    StartsLast(d, more.last, more.tail);
  }

  /** A read of a decoder that is not finished returns a nonempty front of what is
      left of the payload, or, when nothing is left, 0. */
  lemma ReadTracks(d: Decoder, u: Bytes, cur: Bytes, more: Coding, len: nat, pick: nat)
    requires Tracks(d, u, cur, more) && len > 0
    ensures var o := PayloadRead(d, u, len, pick);
            && ReadsOn(cur + Payload(more.chunks), o, more.tail)
            && o.reply.n == |o.reply.out| <= len
            && (if cur == [] && more.chunks == [] then o.d.finished else o.reply.n > 0)
  {
    var o := PayloadRead(d, u, len, pick);
    if d.finished {
      assert Tracks(o.d, o.unread, cur, more);
    } else if cur == [] && more.chunks == [] {
      LastIsRead(d, u, more, len, pick);
    } else if cur == [] {
      var c := more.chunks[0];
      NextChunkRead(d, u, more, len, pick);
      assert [] + Payload(more.chunks) == c.data + Payload(Rest(more).chunks);
      PieceReadsOn(Decoder(|c.data|, false, |c.data|, 0), Behind(c, Rest(more)), c.data, Rest(more), len, pick);
    } else {
      PieceReadsOn(d, u, cur, more, len, pick);
    }
  }

  lemma FrontAndRest(a: Bytes, b: Bytes, k: nat)
    requires k <= |a|
    ensures a + b == a[..k] + (a[k..] + b)
  {
  }

  // Any sequence of reads ------------------------------------------------------------------

  datatype Request = Request(len: nat, pick: nat)

  datatype Drained = Drained(ok: bool, out: Bytes, d: Decoder, unread: Bytes)

  /** Read after read, as long as none fails. */
  ghost function Drain(d: Decoder, u: Bytes, calls: seq<Request>): Drained
    decreases |calls|
  {
    if calls == [] then Drained(true, [], d, u)
    else
      var o := PayloadRead(d, u, calls[0].len, calls[0].pick);
      if o.reply.n < 0 then Drained(false, [], o.d, o.unread)
      else
        var rest := Drain(o.d, o.unread, calls[1..]);
        rest.(out := o.reply.out + rest.out)
  }

  lemma {:induction false} DrainTracks(d: Decoder, u: Bytes, cur: Bytes, more: Coding, calls: seq<Request>)
    requires Tracks(d, u, cur, more)
    requires forall i | 0 <= i < |calls| :: calls[i].len > 0
    ensures var r := Drain(d, u, calls);
            var payload := cur + Payload(more.chunks);
            && r.ok
            && r.out <= payload
            && (r.d.finished ==> r.out == payload && r.unread == more.tail)
            && (|payload| < |calls| ==> r.d.finished)
    decreases |calls|
  {
    var payload := cur + Payload(more.chunks);
    if calls != [] {
      ReadTracks(d, u, cur, more, calls[0].len, calls[0].pick);
      var o := PayloadRead(d, u, calls[0].len, calls[0].pick);
      var cur', more' :| Tracks(o.d, o.unread, cur', more') && more'.tail == more.tail
        && payload == o.reply.out + (cur' + Payload(more'.chunks));
      DrainTracks(o.d, o.unread, cur', more', calls[1..]);
      FinishedStays(o.d, o.unread, calls[1..]);
      NothingLeft(cur, more);
    }
  }

  lemma {:induction false} FinishedStays(d: Decoder, u: Bytes, calls: seq<Request>)
    ensures d.finished ==> Drain(d, u, calls) == Drained(true, [], d, u)
    decreases |calls|
  {
    if d.finished && calls != [] {
      FinishedStays(d, u, calls[1..]);
    }
  }

  lemma NothingLeft(cur: Bytes, more: Coding)
    requires CodingFits(more)
    ensures cur + Payload(more.chunks) == [] <==> cur == [] && more.chunks == []
  {
    if more.chunks != [] {
      assert CodedFits(more.chunks[0]);
    }
  }

  /** A body in any coding: sizes in digits of either case, with leading zeros and
      extensions as the sender likes.  For every sequence of nonempty buffers and
      every pattern of short calls the decoder never fails and returns a front of the
      payload, all of it once it has reported the end, with exactly what follows the
      last chunk unread; enough reads reach the end. */
  lemma AnyCodingIsRead(coding: Coding, calls: seq<Request>)
    requires CodingFits(coding)
    requires forall i | 0 <= i < |calls| :: calls[i].len > 0
    ensures var r := Drain(Decoder(0, false, 0, 0), Body(coding), calls);
            var payload := Payload(coding.chunks);
            && r.ok && r.out <= payload
            && (|payload| < |calls| ==> r.d.finished)
            && (r.d.finished ==> r.out == payload && r.unread == coding.tail)
  {
    DrainTracks(Decoder(0, false, 0, 0), Body(coding), [], coding, calls);
    assert [] + Payload(coding.chunks) == Payload(coding.chunks);
  }
}
