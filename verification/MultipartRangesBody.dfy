/** The body for several ranges is a multipart body: read with the multipart
    parser it gives one part per range, with the bytes of the range and a
    Content-Range line that names them. */
module MultipartRangesBody {
  import opened Bytes
  import opened Common
  import opened Ranges
  import opened RangesProperties
  import opened MultipartRanges
  import RangeHeader
  import Text
  import M = Multipart
  import P = MultipartProperties
  import MultipartClosing

  function RangeLine(r: Range, len: nat): Bytes
    requires InBounds(r, len)
  {
    CONTENT_RANGE + ContentRange(r.first, r.last - r.first + 1, len)
  }

  /** What a range should arrive as. */
  function RangePart(r: Range, contentType: Bytes, content: Bytes): M.Part
    requires InBounds(r, |content|)
  {
    M.Part(P.TypeLines(contentType) + [RangeLine(r, |content|)],
           content[r.first..r.last + 1])
  }

  function RangeParts(rs: seq<Range>, contentType: Bytes, content: Bytes): seq<M.Part>
    requires AllInBounds(rs, |content|)
  {
    if rs == [] then [] else [RangePart(rs[0], contentType, content)] + RangeParts(rs[1..], contentType, content)
  }

  lemma {:induction false} RenderConcat(a: seq<Token>, b: seq<Token>, content: Bytes)
    requires AllFit(a, |content|) && AllFit(b, |content|)
    ensures AllFit(a + b, |content|)
    ensures RenderAll(a + b, content) == RenderAll(a, content) + RenderAll(b, content)
  {
    if a == [] {
      assert a + b == b;
    } else {
      assert (a + b)[1..] == a[1..] + b;
      RenderConcat(a[1..], b, content);
    }
  }

  /** Is `text` what the tokens render as? */
  ghost predicate Renders(ts: seq<Token>, content: Bytes, text: Bytes)
  {
    AllFit(ts, |content|) && RenderAll(ts, content) == text
  }

  lemma RenderOne(t: Token, content: Bytes)
    requires Fits(t, |content|)
    ensures AllFit([t], |content|) && RenderAll([t], content) == Render(t, content)
  {
    assert [t][1..] == [];
    assert RenderAll([t], content) == Render(t, content) + RenderAll([], content);
  }

  lemma RenderPair(t: Token, u: Token, content: Bytes)
    requires Fits(t, |content|) && Fits(u, |content|)
    ensures AllFit([t, u], |content|) && RenderAll([t, u], content) == Render(t, content) + Render(u, content)
  {
    assert [t, u] == [t] + [u];
    RenderOne(t, content);
    RenderOne(u, content);
    RenderConcat([t], [u], content);
  }

  lemma RenderTexts(a: Bytes, b: Bytes, c: Bytes, content: Bytes)
    ensures Renders([Text(a), Text(b), Text(c)], content, a + b + c)
  {
    assert [Text(a), Text(b), Text(c)] == [Text(a), Text(b)] + [Text(c)];
    RenderPair(Text(a), Text(b), content);
    RenderOne(Text(c), content);
    RenderConcat([Text(a), Text(b)], [Text(c)], content);
  }

  function HeadTokens(boundary: Bytes): seq<Token> { [Text(DASHES), Text(boundary), Text(CRLF)] }

  function TypeTokens(contentType: Bytes): seq<Token>
  {
    if contentType == [] then [] else [Text(CONTENT_TYPE), Text(contentType), Text(CRLF)]
  }

  function TypeText(contentType: Bytes): Bytes
  {
    if contentType == [] then [] else CONTENT_TYPE + contentType + CRLF
  }

  function FieldTokens(field: Bytes): seq<Token> { [Text(CONTENT_RANGE), Text(field), Text(CRLF), Text(CRLF)] }

  function DataTokens(offset: nat, length: nat): seq<Token> { [Stretch(offset, length), Text(CRLF)] }

  lemma RenderData(offset: nat, length: nat, content: Bytes)
    requires offset + length <= |content|
    ensures Renders(DataTokens(offset, length), content, content[offset..offset + length] + CRLF)
  {
    RenderPair(Stretch(offset, length), Text(CRLF), content);
  }

  lemma RenderField(field: Bytes, content: Bytes)
    ensures Renders(FieldTokens(field), content, CONTENT_RANGE + field + CRLF + CRLF)
  {
    var ts := [Text(CONTENT_RANGE), Text(field), Text(CRLF)];
    assert FieldTokens(field) == ts + [Text(CRLF)];
    RenderTexts(CONTENT_RANGE, field, CRLF, content);
    RenderOne(Text(CRLF), content);
    RenderConcat(ts, [Text(CRLF)], content);
  }

  lemma LinesOf(contentType: Bytes, line: Bytes)
    ensures P.Lines(P.TypeLines(contentType) + [line])
         == TypeText(contentType) + (line + CRLF)
  {
    assert P.Lines([line]) == line + CRLF + P.Lines([]);
    if contentType != [] {
      var first := CONTENT_TYPE + contentType;
      assert ([first] + [line])[1..] == [line];
      assert P.Lines([first] + [line]) == first + CRLF + P.Lines([line]);
    }
  }

  lemma RenderFour(t0: seq<Token>, t1: seq<Token>, t2: seq<Token>, t3: seq<Token>, content: Bytes,
                   a: Bytes, b: Bytes, c: Bytes, d: Bytes)
    requires Renders(t0, content, a) && Renders(t1, content, b)
    requires Renders(t2, content, c) && Renders(t3, content, d)
    ensures Renders(t0 + t1 + t2 + t3, content, a + b + c + d)
  {
    RenderConcat(t0, t1, content);
    RenderConcat(t0 + t1, t2, content);
    RenderConcat(t0 + t1 + t2, t3, content);
  }

  lemma RenderType(contentType: Bytes, content: Bytes)
    ensures Renders(TypeTokens(contentType), content, TypeText(contentType))
  {
    RenderTexts(CONTENT_TYPE, contentType, CRLF, content);
  }

  lemma PartTokensAre(r: Range, boundary: Bytes, contentType: Bytes, len: nat)
    requires InBounds(r, len)
    ensures PartTokens(r, boundary, contentType, len)
         == HeadTokens(boundary) + TypeTokens(contentType)
            + FieldTokens(ContentRange(r.first, r.last - r.first + 1, len)) + DataTokens(r.first, r.last - r.first + 1)
  {
  }

  lemma RenderGroups(boundary: Bytes, contentType: Bytes, field: Bytes, offset: nat, length: nat, content: Bytes)
    requires offset + length <= |content|
    ensures Renders(HeadTokens(boundary) + TypeTokens(contentType) + FieldTokens(field) + DataTokens(offset, length),
                    content,
                    DASHES + boundary + CRLF + TypeText(contentType)
                    + (CONTENT_RANGE + field + CRLF + CRLF) + (content[offset..offset + length] + CRLF))
  {
    RenderTexts(DASHES, boundary, CRLF, content);
    RenderType(contentType, content);
    RenderField(field, content);
    RenderData(offset, length, content);
    RenderFour(HeadTokens(boundary), TypeTokens(contentType), FieldTokens(field), DataTokens(offset, length), content,
               DASHES + boundary + CRLF, TypeText(contentType),
               CONTENT_RANGE + field + CRLF + CRLF, content[offset..offset + length] + CRLF);
  }

  lemma GroupsAreAPart(boundary: Bytes, contentType: Bytes, field: Bytes, offset: nat, length: nat, content: Bytes)
    requires offset + length <= |content|
    ensures Renders(HeadTokens(boundary) + TypeTokens(contentType) + FieldTokens(field) + DataTokens(offset, length),
                    content,
                    DASHES + boundary + CRLF + P.Lines(P.TypeLines(contentType) + [CONTENT_RANGE + field]) + CRLF
                    + content[offset..offset + length] + CRLF)
  {
    RenderGroups(boundary, contentType, field, offset, length, content);
    LinesOf(contentType, CONTENT_RANGE + field);
    Gather(DASHES + boundary + CRLF, TypeText(contentType), CONTENT_RANGE + field, content[offset..offset + length]);
  }

  /** One part as it is rendered. */
  lemma PartRendered(r: Range, boundary: Bytes, contentType: Bytes, content: Bytes)
    requires InBounds(r, |content|)
    ensures AllFit(PartTokens(r, boundary, contentType, |content|), |content|)
    ensures RenderAll(PartTokens(r, boundary, contentType, |content|), content)
         == DASHES + boundary + CRLF + P.Lines(RangePart(r, contentType, content).lines) + CRLF
            + RangePart(r, contentType, content).content + CRLF
  {
    var length: nat := r.last - r.first + 1;
    PartTokensAre(r, boundary, contentType, |content|);
    GroupsAreAPart(boundary, contentType, ContentRange(r.first, length, |content|), r.first, length, content);
  }

  lemma Gather(a: Bytes, b: Bytes, c: Bytes, d: Bytes)
    ensures a + b + (c + CRLF + CRLF) + (d + CRLF) == a + (b + (c + CRLF)) + CRLF + d + CRLF
  {
  }

  lemma ClosingRendered(boundary: Bytes, contentType: Bytes, content: Bytes)
    ensures RenderAll(Tokens([], boundary, contentType, |content|), content) == P.Opened(boundary, []) + DASHES
  {
    RenderTexts(DASHES, boundary, DASHES, content);
  }

  /** The body is what the multipart serialiser would write for the parts, less
      the CRLF behind the closing `--`. */
  lemma {:induction false} BodyIsMultipart(rs: seq<Range>, boundary: Bytes, contentType: Bytes, content: Bytes)
    requires AllInBounds(rs, |content|)
    ensures AllFit(Tokens(rs, boundary, contentType, |content|), |content|)
    ensures RenderAll(Tokens(rs, boundary, contentType, |content|), content)
         == P.Opened(boundary, RangeParts(rs, contentType, content)) + DASHES
  {
    var len := |content|;
    TokensFit(rs, boundary, contentType, len);
    if rs == [] {
      ClosingRendered(boundary, contentType, content);
    } else {
      BodyIsMultipart(rs[1..], boundary, contentType, content);
      PartRendered(rs[0], boundary, contentType, content);
      var first, others := PartTokens(rs[0], boundary, contentType, len), Tokens(rs[1..], boundary, contentType, len);
      RenderConcat(first, others, content);
      var parts := RangeParts(rs, contentType, content);
      assert parts[1..] == RangeParts(rs[1..], contentType, content);
      Reassociate(RenderAll(first, content), P.Opened(boundary, parts[1..]), DASHES);
    }
  }

  // The Content-Range line ------------------------------------------------------------------

  function DigitsValue(s: Bytes): int
  {
    if RangeHeader.AllDigits(s) then RangeHeader.Value(s) else -1
  }

  datatype Positions = Positions(first: int, last: int, len: int)

  /** Reading `bytes first-last/length`. */
  function ReadContentRange(s: Bytes): Positions
  {
    if BYTES <= s then ReadPositions(s[|BYTES|..]) else Positions(-1, -1, -1)
  }

  function ReadPositions(s: Bytes): Positions
  {
    var (first, rest) := Text.Divided(s, RangeHeader.DASH);
    var (last, len) := Text.Divided(rest, SLASH[0]);
    Positions(DigitsValue(first), DigitsValue(last), DigitsValue(len))
  }

  function Field(a: Bytes, b: Bytes, c: Bytes): Bytes { BYTES + a + [RangeHeader.DASH] + b + SLASH + c }

  lemma PositionsRead(a: Bytes, b: Bytes, c: Bytes)
    requires RangeHeader.AllDigits(a) && RangeHeader.AllDigits(b) && RangeHeader.AllDigits(c)
    ensures ReadPositions(a + [RangeHeader.DASH] + (b + SLASH + c))
         == Positions(RangeHeader.Value(a), RangeHeader.Value(b), RangeHeader.Value(c))
  {
    Text.DivideOfJoin(a, RangeHeader.DASH, b + SLASH + c);
    Text.DivideOfJoin(b, SLASH[0], c);
  }

  lemma FieldReads(a: Bytes, b: Bytes, c: Bytes)
    requires RangeHeader.AllDigits(a) && RangeHeader.AllDigits(b) && RangeHeader.AllDigits(c)
    ensures ReadContentRange(Field(a, b, c))
         == Positions(RangeHeader.Value(a), RangeHeader.Value(b), RangeHeader.Value(c))
  {
    SixTexts(BYTES, a, [RangeHeader.DASH], b, SLASH, c);
    PositionsRead(a, b, c);
    ReadsBehind(a + [RangeHeader.DASH] + (b + SLASH + c));
  }

  lemma ReadsBehind(text: Bytes)
    ensures ReadContentRange(BYTES + text) == ReadPositions(text)
  {
    Behind(BYTES, text);
  }

  lemma Behind(a: Bytes, b: Bytes)
    ensures a <= a + b && (a + b)[|a|..] == b
  {
  }

  lemma SixTexts(h: Bytes, a: Bytes, d: Bytes, b: Bytes, e: Bytes, c: Bytes)
    ensures h + a + d + b + e + c == h + (a + d + (b + e + c))
  {
  }

  lemma ContentRangeReads(offset: nat, length: nat, len: nat)
    requires length > 0
    ensures ReadContentRange(ContentRange(offset, length, len)) == Positions(offset, offset + length - 1, len)
  {
    var a, b, c := RangeHeader.Decimal(offset), RangeHeader.Decimal(offset + length - 1), RangeHeader.Decimal(len);
    FieldReads(a, b, c);
    assert ContentRange(offset, length, len) == Field(a, b, c);
    RangeHeader.ValueOfDecimal(offset);
    RangeHeader.ValueOfDecimal(offset + length - 1);
    RangeHeader.ValueOfDecimal(len);
  }

  /** A Content-Range line that reads as these positions. */
  ghost predicate LineNames(line: Bytes, p: Positions)
  {
    exists field :: line == CONTENT_RANGE + field && ReadContentRange(field) == p
  }

  /** Does the part hold the bytes of the range, and its last header line say
      which they are? */
  ghost predicate NamesItsBytes(part: M.Part, r: Range, content: Bytes)
    requires InBounds(r, |content|)
  {
    && part.content == content[r.first..r.last + 1]
    && part.lines != []
    && LineNames(part.lines[|part.lines| - 1], Positions(r.first, r.last, |content|))
  }

  lemma FieldNames(field: Bytes, p: Positions)
    requires ReadContentRange(field) == p
    ensures LineNames(CONTENT_RANGE + field, p)
  {
  }

  lemma RangeLineNames(r: Range, length: nat, len: nat, line: Bytes)
    requires InBounds(r, len) && length == r.last - r.first + 1
    requires line == CONTENT_RANGE + ContentRange(r.first, length, len)
    ensures LineNames(line, Positions(r.first, r.last, len))
  {
    ContentRangeReads(r.first, length, len);
    FieldNames(ContentRange(r.first, length, len), Positions(r.first, r.last, len));
  }

  lemma PartNamesItsBytes(r: Range, contentType: Bytes, content: Bytes)
    requires InBounds(r, |content|)
    ensures NamesItsBytes(RangePart(r, contentType, content), r, content)
  {
    RangeLineNames(r, r.last - r.first + 1, |content|, RangeLine(r, |content|));
  }

  /** One part for every range, in the same order. */
  lemma {:induction false} PartsAreRangeParts(rs: seq<Range>, contentType: Bytes, content: Bytes)
    requires AllInBounds(rs, |content|)
    ensures var parts := RangeParts(rs, contentType, content);
            && |parts| == |rs|
            && forall i | 0 <= i < |rs| :: parts[i] == RangePart(rs[i], contentType, content)
  {
    if rs != [] {
      PartsAreRangeParts(rs[1..], contentType, content);
    }
  }

  lemma PartsNameTheirBytes(rs: seq<Range>, contentType: Bytes, content: Bytes)
    requires AllInBounds(rs, |content|)
    ensures var parts := RangeParts(rs, contentType, content);
            && |parts| == |rs|
            && forall i | 0 <= i < |rs| :: NamesItsBytes(parts[i], rs[i], content)
  {
    PartsAreRangeParts(rs, contentType, content);
    forall i | 0 <= i < |rs|
      ensures NamesItsBytes(RangePart(rs[i], contentType, content), rs[i], content)
    {
      PartNamesItsBytes(rs[i], contentType, content);
    }
  }

  // Which requests fit ---------------------------------------------------------------------

  lemma {:induction false} DecimalLength(n: nat, k: nat)
    requires k > 0 && n < Power(10, k)
    ensures |RangeHeader.Decimal(n)| <= k
  {
    if n >= 10 {
      assert Power(10, 1) == 10 * Power(10, 0);
      DecimalLength(n / 10, k - 1);
    }
  }

  lemma NineteenDigits()
    ensures RangeHeader.LLONG_MAX < Power(10, 19)
  {
    assert Power(10, 4) == 10000;
    assert Power(10, 8) == 10000 * Power(10, 4);
    assert Power(10, 12) == 10000 * Power(10, 8);
    assert Power(10, 16) == 10000 * Power(10, 12);
    assert Power(10, 19) == 1000 * Power(10, 16);
  }

  lemma NoCrNoCrlf(text: Bytes)
    requires CR !in text
    ensures !Occurs(text, CRLF)
  {
    forall i
      ensures !OccursAt(text, CRLF, i)
    {
      if 0 <= i && i + 2 <= |text| {
        assert text[i..i + 2][0] == text[i] != CR;
      }
    }
  }

  lemma RangeLineFits(cb: M.Callbacks, r: Range, len: nat)
    requires InBounds(r, len) && len <= RangeHeader.LLONG_MAX && cb.line(RangeLine(r, len))
    ensures P.LineFits(cb, RangeLine(r, len))
  {
    NineteenDigits();
    DecimalLength(r.first, 19);
    DecimalLength(r.last, 19);
    DecimalLength(len, 19);
    assert CR !in BYTES && CR !in CONTENT_RANGE && CR !in SLASH;
    NoCrNoCrlf(RangeLine(r, len));
  }

  lemma TypeLineIsFree(contentType: Bytes)
    requires !Occurs(contentType, CRLF)
    ensures !Occurs(CONTENT_TYPE + contentType, CRLF)
  {
    var line := CONTENT_TYPE + contentType;
    assert CR !in CONTENT_TYPE;
    forall i
      ensures !OccursAt(line, CRLF, i)
    {
      if |CONTENT_TYPE| <= i && i + 2 <= |line| {
        assert line[i..i + 2] == contentType[i - |CONTENT_TYPE|..i - |CONTENT_TYPE| + 2];
        assert !OccursAt(contentType, CRLF, i - |CONTENT_TYPE|);
      } else if 0 <= i && i + 2 <= |line| {
        assert line[i..i + 2][0] == line[i] && line[i] in CONTENT_TYPE;
      }
    }
  }

  lemma StretchIsFree(text: Bytes, d: Bytes, from: nat, to: nat)
    requires from <= to <= |text| && !Occurs(text, d)
    ensures !Occurs(text[from..to], d)
  {
    var tail, stretch := text[from..], text[from..to];
    P.SuffixIsFreeToo(text, d, from);
    assert tail == stretch + text[to..];
    forall i
      ensures !OccursAt(stretch, d, i)
    {
      if i + |d| <= |stretch| {
        OccursInExtension(stretch, text[to..], d, i);
        assert !OccursAt(tail, d, i);
      }
    }
  }

  /** What is asked of the content, its type and the reader's treatment of lines,
      whatever the ranges are. */
  ghost predicate Sendable(s: M.Setup, contentType: Bytes, content: Bytes)
  {
    && |content| <= RangeHeader.LLONG_MAX
    && !Occurs(content, s.closing)
    && (contentType != [] ==>
          && !Occurs(contentType, CRLF)
          && |CONTENT_TYPE + contentType| < HEADER_MAX_LENGTH
          && s.cb.line(CONTENT_TYPE + contentType))
    && forall r | InBounds(r, |content|) :: s.cb.line(RangeLine(r, |content|))
  }

  lemma RangePartFits(s: M.Setup, r: Range, contentType: Bytes, content: Bytes)
    requires InBounds(r, |content|) && Sendable(s, contentType, content)
    ensures P.PartFits(s, RangePart(r, contentType, content))
  {
    StretchIsFree(content, s.closing, r.first, r.last + 1);
    RangeLineFits(s.cb, r, |content|);
    if contentType != [] {
      TypeLineIsFree(contentType);
    }
  }

  lemma RangePartsFit(s: M.Setup, rs: seq<Range>, contentType: Bytes, content: Bytes)
    requires AllInBounds(rs, |content|) && Sendable(s, contentType, content)
    ensures P.AllFit(s, RangeParts(rs, contentType, content))
  {
    PartsAreRangeParts(rs, contentType, content);
    forall p | p in RangeParts(rs, contentType, content)
      ensures P.PartFits(s, p)
    {
      var i :| 0 <= i < |rs| && p == RangePart(rs[i], contentType, content);
      RangePartFits(s, rs[i], contentType, content);
    }
  }

  function RangesBody(rs: seq<Range>, boundary: Bytes, contentType: Bytes, content: Bytes): Bytes
    requires AllInBounds(rs, |content|)
  {
    TokensFit(rs, boundary, contentType, |content|);
    RenderAll(Tokens(rs, boundary, contentType, |content|), content)
  }

  /** The parts arrive, one for every range, each naming its bytes and holding
      them. */
  ghost predicate Arrive(s: M.Setup, rs: seq<Range>, content: Bytes, blocks: seq<Bytes>)
    requires AllInBounds(rs, |content|)
  {
    var (end, ok) := M.FeedAll(s, M.INITIAL, blocks);
    var parts := M.Assemble(end.events);
    && ok && end.valid && |parts| == |rs|
    && forall i | 0 <= i < |rs| :: NamesItsBytes(parts[i], rs[i], content)
  }

  lemma BodyArrives(s: M.Setup, rs: seq<Range>, contentType: Bytes, content: Bytes, blocks: seq<Bytes>)
    requires rs != [] && AllInBounds(rs, |content|) && Sendable(s, contentType, content)
    requires s == M.SetupFor(s.boundary, s.cb) && CR !in s.boundary && P.ReceiversAccept(s.cb)
    requires Concat(blocks) == RangesBody(rs, s.boundary, contentType, content)
    ensures Arrive(s, rs, content, blocks)
  {
    BodyIsMultipart(rs, s.boundary, contentType, content);
    RangePartsFit(s, rs, contentType, content);
    MultipartClosing.NoFinalLineEnd(s, RangeParts(rs, contentType, content), blocks);
    PartsNameTheirBytes(rs, contentType, content);
  }

  /** From the request to the client: for every request that is let through,
      every order of the sort and every cut of the response body, a multipart
      reader gets one part per coalesced range, each naming its bytes and
      holding them. */
  lemma RangesArriveAsParts(
    rs: seq<Range>, sorted: seq<Range>, s: M.Setup, contentType: Bytes, content: Bytes, blocks: seq<Bytes>)
    requires rs != [] && Acceptable(rs, |content|) && SortResult(NormalizeAll(rs, |content|), sorted)
    requires s == M.SetupFor(s.boundary, s.cb) && CR !in s.boundary && P.ReceiversAccept(s.cb)
    requires Sendable(s, contentType, content)
    ensures var result := Coalesced(sorted, |content|);
            && AllInBounds(result, |content|)
            && (Concat(blocks) == RangesBody(result, s.boundary, contentType, content) ==>
                  Arrive(s, result, content, blocks))
  {
    var result := Coalesced(sorted, |content|);
    CoalescingServesTheRequest(rs, sorted, |content|);
    if Concat(blocks) == RangesBody(result, s.boundary, contentType, content) {
      BodyArrives(s, result, contentType, content, blocks);
    }
  }
}
