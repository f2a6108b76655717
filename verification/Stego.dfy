/** A message hidden behind the end of a picture, in a trailer of message, length
    and signature. */
module Stego {
  import opened Bytes
  import opened Common

  /** "STEGJPG1" */
  const MAGIC: Bytes := [83, 84, 69, 71, 74, 80, 71, 49]
  const MAGIC_LEN: nat := 8
  const TWO_32: nat := 0x1_0000_0000

  /** The k low bytes of a number, least significant first. */
  function LittleEndian(n: nat, k: nat): (field: Bytes)
    ensures |field| == k
  {
    if k == 0 then [] else [n % 256] + LittleEndian(n / 256, k - 1)
  }

  function LengthField(n: nat): (field: Bytes)
    ensures |field| == 4
  {
    LittleEndian(n, 4)
  }

  function Word(b0: nat, b1: nat, b2: nat, b3: nat): nat
  {
    b0 + b1 * 256 + b2 * 65536 + b3 * 16777216
  }

  function FieldLength(field: Bytes): nat
  {
    if field == [] then 0 else field[0] + 256 * FieldLength(field[1..])
  }

  function Trailer(msg: Bytes): Bytes
  {
    msg + LengthField(|msg|) + MAGIC
  }

  /** Where the message of a trailer lies. */
  datatype Span = Span(len: nat, start: nat)

  function FindTrailer(f: Bytes): (r: Option<Span>)
    ensures r.Some? ==> 2 <= r.value.start && r.value.start + r.value.len + 4 + MAGIC_LEN == |f|
  {
    var size := |f|;
    if size < MAGIC_LEN + 4 then None
    else if f[size - MAGIC_LEN..] != MAGIC then None
    else
      var len := FieldLength(f[size - MAGIC_LEN - 4..size - MAGIC_LEN]);
      if len > size then None
      else if size - MAGIC_LEN - 4 - len < 2 then None
      else Some(Span(len, size - MAGIC_LEN - 4 - len))
  }

  /** What a call does to the file, its exit code and what it prints. */
  datatype Effect = Effect(file: Bytes, code: nat, out: Bytes)

  /** How much the system stores of each of the three writes: of the message, of
      its length and of the signature. */
  datatype Writes = Writes(payload: nat, length: nat, magic: nat)

  function Stored(wanted: nat, size: nat): nat { if wanted < size then wanted else size }

  /** What reaches the file: each write happens only if the one before it stored
      everything. */
  function Written(msg: Bytes, w: Writes): Bytes
  {
    var length := LengthField(|msg|);
    if w.payload < |msg| then msg[..w.payload]
    else if w.length < 4 then msg + length[..w.length]
    else msg + length + MAGIC[..Stored(w.magic, MAGIC_LEN)]
  }

  predicate AllWritten(msg: Bytes, w: Writes)
  {
    |msg| <= w.payload && 4 <= w.length && MAGIC_LEN <= w.magic
  }

  function Add(f: Bytes, msg: Bytes, w: Writes): Effect
  {
    if FindTrailer(f).Some? then Effect(f, 1, [])
    else Effect(f + Written(msg, w), if AllWritten(msg, w) then 0 else 1, [])
  }

  function Read(f: Bytes): Effect
  {
    match FindTrailer(f)
    case None => Effect(f, 1, [])
    case Some(span) => Effect(f, 0, f[span.start..span.start + span.len])
  }

  function Clear(f: Bytes): Effect
  {
    match FindTrailer(f)
    case None => Effect(f, 1, [])
    case Some(span) => Effect(f[..span.start], 0, [])
  }

  class Picture {
    var bytes: Bytes

    constructor (bytes: Bytes)
      ensures this.bytes == bytes
    {
      this.bytes := bytes;
    }

    method HasTrailer() returns (found: bool, msgLen: nat, payloadStart: int)
      ensures found == FindTrailer(bytes).Some?
      ensures found ==> 0 <= payloadStart && FindTrailer(bytes) == Some(Span(msgLen, payloadStart))
    {
      msgLen, payloadStart := 0, 0;
      var size := |bytes|;
      if size < MAGIC_LEN + 4 {
        return false, 0, 0;
      }
      if bytes[size - MAGIC_LEN..] != MAGIC {
        return false, 0, 0;
      }
      var field := bytes[size - MAGIC_LEN - 4..size - MAGIC_LEN];
      FourReads(field);
      msgLen := Word(field[0], field[1], field[2], field[3]);
      if msgLen > size {
        return false, msgLen, 0;
      }
      payloadStart := size - MAGIC_LEN - 4 - msgLen;
      if payloadStart < 2 {
        return false, msgLen, payloadStart;
      }
      return true, msgLen, payloadStart;
    }

    /** The system call: stores a front of the data, and says how much of it. */
    method Write(data: Bytes, wanted: nat) returns (n: nat)
      modifies this
      ensures n == Stored(wanted, |data|)
      ensures bytes == old(bytes) + data[..n]
    {
      n := if wanted < |data| then wanted else |data|;
      bytes := bytes + data[..n];
    }

    method AddMessage(msg: Bytes, w: Writes) returns (code: nat)
      modifies this
      ensures Effect(bytes, code, []) == Add(old(bytes), msg, w)
    {
      var found, _, _ := HasTrailer();
      if found {
        return 1;
      }
      ghost var f := bytes;
      var n;
      if msg != [] {
        n := Write(msg, w.payload);
        if n != |msg| {
          return 1;
        }
      }
      assert msg[..|msg|] == msg && bytes == f + msg;
      FourBytes(|msg|);
      var length := |msg| % TWO_32;
      var field := [length % 256, (length / 256) % 256, (length / 65536) % 256, (length / 16777216) % 256];
      n := Write(field, w.length);
      Reassociate(f, msg, field[..n]);
      if n != 4 {
        return 1;
      }
      assert field[..4] == field;
      n := Write(MAGIC, w.magic);
      Reassociate(f, msg + field, MAGIC[..n]);
      return if n == MAGIC_LEN then 0 else 1;
    }

    method ReadMessage() returns (code: nat, out: Bytes)
      ensures Effect(bytes, code, out) == Read(bytes)
    {
      var found, len, start := HasTrailer();
      if !found {
        return 1, [];
      }
      return 0, bytes[start..start + len];
    }

    method ClearMessage() returns (code: nat)
      modifies this
      ensures Effect(bytes, code, []) == Clear(old(bytes))
    {
      var found, len, start := HasTrailer();
      if !found {
        return 1;
      }
      bytes := bytes[..|bytes| - MAGIC_LEN - 4 - len];
      return 0;
    }
  }

  // Properties -----------------------------------------------------------------------

  /** What is read back is never more than the number, and all of it exactly when
      the bytes are enough. */
  lemma {:induction false} LittleEndianReads(n: nat, k: nat)
    ensures FieldLength(LittleEndian(n, k)) <= n
    ensures FieldLength(LittleEndian(n, k)) == n <==> n < Power(256, k)
  {
    if k > 0 {
      LittleEndianReads(n / 256, k - 1);
      assert LittleEndian(n, k)[1..] == LittleEndian(n / 256, k - 1);
      Below(n, Power(256, k - 1));
    }
  }

  lemma Below(n: nat, p: nat)
    ensures n / 256 < p <==> n < 256 * p
  {
  }

  lemma LengthRoundTrip(n: nat)
    ensures FieldLength(LengthField(n)) <= n
    ensures FieldLength(LengthField(n)) == n <==> n < TWO_32
  {
    LittleEndianReads(n, 4);
    assert Power(256, 2) == 65536;
    assert Power(256, 4) == TWO_32;
  }

  /** The four shifts of the code bring out the bytes of the number, cut to 32
      bits first. */
  lemma FourBytes(n: nat)
    ensures var l := n % TWO_32;
            [l % 256, (l / 256) % 256, (l / 65536) % 256, (l / 16777216) % 256] == LengthField(n)
  {
    var n1 := n / 256;
    var n2 := n1 / 256;
    var n3 := n2 / 256;
    LowWord(n, n1, n2, n3);
    assert LittleEndian(n2, 2) == [n2 % 256, n3 % 256];
    assert LittleEndian(n, 4) == [n % 256, n1 % 256] + LittleEndian(n2, 2);
  }

  lemma LowWord(n: nat, n1: nat, n2: nat, n3: nat)
    requires n1 == n / 256 && n2 == n1 / 256 && n3 == n2 / 256
    ensures var l := n % TWO_32;
            && l % 256 == n % 256
            && (l / 256) % 256 == n1 % 256
            && (l / 65536) % 256 == n2 % 256
            && (l / 16777216) % 256 == n3 % 256
  {
    var l, h := n % TWO_32, n / TWO_32;
    assert n == h * TWO_32 + l;
    assert n1 == h * 16777216 + l / 256;
    assert n2 == h * 65536 + l / 65536;
    assert n3 == h * 256 + l / 16777216;
  }

  lemma FourReads(field: Bytes)
    requires |field| == 4
    ensures FieldLength(field) == Word(field[0], field[1], field[2], field[3])
  {
    var a, b, c := field[1..], field[2..], field[3..];
    assert a[1..] == b && b[1..] == c && c[1..] == [];
    assert FieldLength(c) == field[3];
    assert FieldLength(b) == field[2] + 256 * FieldLength(c);
    assert FieldLength(a) == field[1] + 256 * FieldLength(b);
  }

  lemma TrailerParts(f: Bytes, msg: Bytes, field: Bytes)
    requires |field| == 4
    ensures var g := f + (msg + field + MAGIC);
            var size := |g|;
            && size == |f| + |msg| + 12
            && g[size - 8..] == MAGIC
            && g[size - 12..size - 8] == field
            && g[..|f|] == f && g[|f|..|f| + |msg|] == msg
  {
  }

  /** What is found depends on the length field alone. */
  lemma FoundByField(f: Bytes, msg: Bytes, field: Bytes)
    requires |field| == 4 && FieldLength(field) <= |msg|
    ensures FindTrailer(f + (msg + field + MAGIC)) ==
            var len := FieldLength(field);
            if |f| + |msg| - len < 2 then None else Some(Span(len, |f| + |msg| - len))
  {
    TrailerParts(f, msg, field);
    SpanByField(f + (msg + field + MAGIC), field);
  }

  lemma SpanByField(g: Bytes, field: Bytes)
    requires |g| >= 12 && |field| == 4 && FieldLength(field) <= |g|
    requires g[|g| - 8..] == MAGIC && g[|g| - 12..|g| - 8] == field
    ensures FindTrailer(g) ==
            var start := |g| - 12 - FieldLength(field);
            if start < 2 then None else Some(Span(FieldLength(field), start))
  {
  }

  /** A trailer just written is found, with the message it was written for, if
      and only if the file it was put behind had at least two bytes and the
      message is below 2^32 bytes. */
  lemma FoundIffItFits(f: Bytes, msg: Bytes)
    ensures FindTrailer(f + Trailer(msg)) == Some(Span(|msg|, |f|)) <==> 2 <= |f| && |msg| < TWO_32
  {
    LengthRoundTrip(|msg|);
    FoundByField(f, msg, LengthField(|msg|));
  }

  /** Behind a single byte a trailer is not found again. */
  lemma OneByteIsTooLittle(b: byte, msg: Bytes)
    requires |msg| < TWO_32
    ensures Add([b], msg, Writes(|msg|, 4, 8)) == Effect([b] + Trailer(msg), 0, [])
    ensures FindTrailer([b] + Trailer(msg)).None?
  {
    LengthRoundTrip(|msg|);
    FoundByField([b], msg, LengthField(|msg|));
    WrittenIsAFront(msg, Writes(|msg|, 4, 8));
  }

  // Writes that fail ---------------------------------------------------------------------

  /** What is in the file is a front of the trailer, the whole of it exactly when
      the call reports success. */
  lemma WrittenIsAFront(msg: Bytes, w: Writes)
    ensures Written(msg, w) <= Trailer(msg)
    ensures Written(msg, w) == Trailer(msg) <==> AllWritten(msg, w)
  {
    var length := LengthField(|msg|);
    if w.payload < |msg| {
      assert Trailer(msg)[..w.payload] == msg[..w.payload];
    } else if w.length < 4 {
      assert Trailer(msg)[..|msg| + w.length] == msg + length[..w.length];
    } else {
      var n := Stored(w.magic, MAGIC_LEN);
      assert Trailer(msg)[..|msg| + 4 + n] == msg + length + MAGIC[..n];
      assert MAGIC[..MAGIC_LEN] == MAGIC;
    }
  }

  /** A signature that was cut short never makes a trailer: its last byte is
      nowhere else in it. */
  lemma CutSignatureIsNoTrailer(f: Bytes, msg: Bytes, w: Writes)
    requires |msg| <= w.payload && 4 <= w.length && 0 < w.magic < MAGIC_LEN
    ensures FindTrailer(f + Written(msg, w)).None?
  {
    var g := f + Written(msg, w);
    var last := g[|g| - 1];
    assert last == MAGIC[..w.magic][w.magic - 1] == MAGIC[w.magic - 1];
    assert |g| >= MAGIC_LEN ==> g[|g| - MAGIC_LEN..][MAGIC_LEN - 1] == last;
    assert MAGIC[MAGIC_LEN - 1] == 49 && last != 49;
  }

  /** The first n bytes end with a signature, and its length field leaves room for
      a picture. */
  predicate EndsSigned(t: Bytes, n: nat)
    requires n <= |t|
  {
    12 <= n && t[n - 8..n] == MAGIC && FieldLength(t[n - 12..n - 8]) + 14 <= n
  }

  /** The file with the message and its length behind it. */
  function Unsigned(f: Bytes, msg: Bytes): Bytes { f + (msg + LengthField(|msg|)) }

  /** None of the places where a write may end looks like the end of a trailer. */
  predicate ForgesNothing(f: Bytes, msg: Bytes)
  {
    var t := Unsigned(f, msg);
    forall n | |f| < n <= |t| :: !EndsSigned(t, n)
  }

  lemma TrailerIsEndSigned(t: Bytes, n: nat)
    requires n <= |t|
    ensures FindTrailer(t[..n]).Some? <==> EndsSigned(t, n)
  {
    if 12 <= n {
      assert t[..n][n - 8..] == t[n - 8..n];
      assert t[..n][n - 12..n - 8] == t[n - 12..n - 8];
    }
  }

  /** Where a failed call stops: in front of the signature, or inside it. */
  lemma StopsBeforeOrInside(f: Bytes, msg: Bytes, w: Writes)
    requires !AllWritten(msg, w)
    ensures var n := |f| + |Written(msg, w)|;
            || (|f| <= n <= |Unsigned(f, msg)| && f + Written(msg, w) == Unsigned(f, msg)[..n])
            || (|msg| <= w.payload && 4 <= w.length && 0 < w.magic < MAGIC_LEN)
  {
    var length := LengthField(|msg|);
    if w.payload < |msg| {
      assert Unsigned(f, msg)[..|f| + w.payload] == f + msg[..w.payload];
    } else if w.length < 4 {
      assert Unsigned(f, msg)[..|f| + |msg| + w.length] == f + (msg + length[..w.length]);
    } else if w.magic == 0 {
      assert MAGIC[..0] == [] && msg + length + [] == msg + length;
    }
  }

  /** A call that fails leaves a trailer exactly if it stops behind one. */
  lemma FailedAddLeavesATrailerIff(f: Bytes, msg: Bytes, w: Writes)
    requires FindTrailer(f).None? && !AllWritten(msg, w)
    ensures var n := |f| + |Written(msg, w)|;
            FindTrailer(Add(f, msg, w).file).Some? <==> |f| < n <= |Unsigned(f, msg)| && EndsSigned(Unsigned(f, msg), n)
  {
    var t, n := Unsigned(f, msg), |f| + |Written(msg, w)|;
    StopsBeforeOrInside(f, msg, w);
    if n <= |t| && f + Written(msg, w) == t[..n] {
      TrailerIsEndSigned(t, n);
      if n == |f| {
        assert t[..n] == f;
      }
    } else {
      CutSignatureIsNoTrailer(f, msg, w);
    }
  }

  /** Some failure stops behind any given number of bytes. */
  lemma StopsAnywhere(f: Bytes, msg: Bytes, n: nat) returns (w: Writes)
    requires |f| < n <= |Unsigned(f, msg)|
    ensures !AllWritten(msg, w) && |f| + |Written(msg, w)| == n
  {
    var k := n - |f|;
    w := if k < |msg| then Writes(k, 0, 0) else Writes(|msg|, k - |msg|, 0);
  }

  /** No failing write, wherever it stops, leaves a trailer behind a file without
      one if and only if the bytes to be written forge nothing. */
  lemma FailedAddsLeaveNoTrailerIff(f: Bytes, msg: Bytes)
    requires FindTrailer(f).None?
    ensures (forall w | !AllWritten(msg, w) :: FindTrailer(Add(f, msg, w).file).None?) <==> ForgesNothing(f, msg)
  {
    var t := Unsigned(f, msg);
    if ForgesNothing(f, msg) {
      forall w | !AllWritten(msg, w)
        ensures FindTrailer(Add(f, msg, w).file).None?
      {
        FailedAddLeavesATrailerIff(f, msg, w);
      }
    } else {
      var n: nat :| |f| < n <= |t| && EndsSigned(t, n);
      var w := StopsAnywhere(f, msg, n);
      FailedAddLeavesATrailerIff(f, msg, w);
    }
  }

  /** A message that ends like a trailer is found as one when only its own length
      could not be written, although the call reported failure. */
  lemma FailedAddMayForge(f: Bytes)
    requires 2 <= |f| && FindTrailer(f).None?
    ensures var e := Add(f, Trailer([]), Writes(12, 0, 0));
            e.code == 1 && FindTrailer(e.file) == Some(Span(0, |f|))
    ensures !ForgesNothing(f, Trailer([]))
  {
    var w := Writes(12, 0, 0);
    assert Written(Trailer([]), w) == Trailer([]) + LengthField(12)[..0] == Trailer([]);
    FoundIffItFits(f, []);
    FailedAddsLeaveNoTrailerIff(f, Trailer([]));
    assert !AllWritten(Trailer([]), w);
  }

  // Any sequence of calls ----------------------------------------------------------------

  datatype Call = AddCall(msg: Bytes, writes: Writes) | ReadCall | ClearCall

  function EffectOf(f: Bytes, call: Call): Effect
  {
    match call
    case AddCall(msg, writes) => Add(f, msg, writes)
    case ReadCall => Read(f)
    case ClearCall => Clear(f)
  }

  /** The file as the user thinks of it: the picture, with whatever failed calls
      left behind it, and the message it carries. */
  datatype Carrier = Carrier(base: Bytes, hidden: Option<Bytes>)

  function FileOf(c: Carrier): Bytes
  {
    match c.hidden
    case None => c.base
    case Some(msg) => c.base + Trailer(msg)
  }

  datatype Answer = Answer(code: nat, out: Bytes)

  /** What the call does in these terms. */
  function Meaning(c: Carrier, call: Call): (Carrier, Answer)
  {
    match call
    case AddCall(msg, w) =>
      if c.hidden.Some? then (c, Answer(1, []))
      else if AllWritten(msg, w) then (Carrier(c.base, Some(msg)), Answer(0, []))
      else (Carrier(c.base + Written(msg, w), None), Answer(1, []))
    case ReadCall => if c.hidden.Some? then (c, Answer(0, c.hidden.value)) else (c, Answer(1, []))
    case ClearCall => if c.hidden.Some? then (Carrier(c.base, None), Answer(0, [])) else (c, Answer(1, []))
  }

  predicate Suitable(orig: Bytes)
  {
    2 <= |orig| && FindTrailer(orig).None?
  }

  predicate CarrierFits(c: Carrier)
  {
    Suitable(c.base) && (c.hidden.Some? ==> |c.hidden.value| < TWO_32)
  }

  /** A message that fits its length field, and, if the call fails, one whose bytes
      forge nothing. */
  predicate CallFits(c: Carrier, call: Call)
  {
    call.AddCall? ==>
      && |call.msg| < TWO_32
      && (c.hidden.None? && !AllWritten(call.msg, call.writes) ==> ForgesNothing(c.base, call.msg))
  }

  predicate CallsFit(c: Carrier, calls: seq<Call>)
    decreases |calls|
  {
    calls == [] || (CallFits(c, calls[0]) && CallsFit(Meaning(c, calls[0]).0, calls[1..]))
  }

  lemma CallMeansWhatItSays(c: Carrier, call: Call)
    requires CarrierFits(c) && CallFits(c, call)
    ensures var (c', answer) := Meaning(c, call);
            CarrierFits(c') && EffectOf(FileOf(c), call) == Effect(FileOf(c'), answer.code, answer.out)
  {
    if c.hidden.Some? {
      FoundIffItFits(c.base, c.hidden.value);
      TrailerParts(c.base, c.hidden.value, LengthField(|c.hidden.value|));
    } else if call.AddCall? {
      WrittenIsAFront(call.msg, call.writes);
      FailedAddsLeaveNoTrailerIff(c.base, call.msg);
    }
  }

  function Answers(f: Bytes, calls: seq<Call>): seq<Answer>
    decreases |calls|
  {
    if calls == [] then []
    else
      var e := EffectOf(f, calls[0]);
      [Answer(e.code, e.out)] + Answers(e.file, calls[1..])
  }

  function FileAfter(f: Bytes, calls: seq<Call>): Bytes
    decreases |calls|
  {
    if calls == [] then f else FileAfter(EffectOf(f, calls[0]).file, calls[1..])
  }

  function MeantAnswers(c: Carrier, calls: seq<Call>): seq<Answer>
    decreases |calls|
  {
    if calls == [] then [] else [Meaning(c, calls[0]).1] + MeantAnswers(Meaning(c, calls[0]).0, calls[1..])
  }

  function After(c: Carrier, calls: seq<Call>): Carrier
    decreases |calls|
  {
    if calls == [] then c else After(Meaning(c, calls[0]).0, calls[1..])
  }

  lemma {:induction false} CallsMeanWhatTheySay(c: Carrier, calls: seq<Call>)
    requires CarrierFits(c) && CallsFit(c, calls)
    ensures Answers(FileOf(c), calls) == MeantAnswers(c, calls)
    ensures FileAfter(FileOf(c), calls) == FileOf(After(c, calls)) && CarrierFits(After(c, calls))
    ensures c.base <= After(c, calls).base
    decreases |calls|
  {
    if calls != [] {
      CallMeansWhatItSays(c, calls[0]);
      CallsMeanWhatTheySay(Meaning(c, calls[0]).0, calls[1..]);
    }
  }

  predicate AllSucceed(calls: seq<Call>)
  {
    forall i | 0 <= i < |calls| :: calls[i].AddCall? ==>
      |calls[i].msg| < TWO_32 && AllWritten(calls[i].msg, calls[i].writes)
  }

  lemma {:induction false} SuccessLeavesNothing(c: Carrier, calls: seq<Call>)
    requires AllSucceed(calls)
    ensures CallsFit(c, calls) && After(c, calls).base == c.base
    decreases |calls|
  {
    if calls != [] {
      SuccessLeavesNothing(Meaning(c, calls[0]).0, calls[1..]);
    }
  }

  /** On a picture of at least two bytes that carries nothing yet, every sequence
      of calls with messages below 2^32 bytes answers as if there were one hidden
      message, behind the picture and what failed calls left there, as long as the
      messages of calls that fail forge nothing.  Clearing gives that back: the
      picture still stands in front, and if no write failed it is the picture. */
  lemma {:induction false} AnySequence(orig: Bytes, calls: seq<Call>)
    requires Suitable(orig) && CallsFit(Carrier(orig, None), calls)
    ensures var c := After(Carrier(orig, None), calls);
            && Answers(orig, calls) == MeantAnswers(Carrier(orig, None), calls)
            && FileAfter(orig, calls) == FileOf(c)
            && orig <= Clear(FileAfter(orig, calls)).file == c.base
            && (AllSucceed(calls) ==> c.base == orig)
  {
    var start := Carrier(orig, None);
    CallsMeanWhatTheySay(start, calls);
    CallMeansWhatItSays(After(start, calls), ClearCall);
    if AllSucceed(calls) {
      SuccessLeavesNothing(start, calls);
    }
  }
}
