/** The body of a response to several ranges, and the length announced for it.
    Both come from one traversal that differs only in what it does with a piece. */
module MultipartRanges {
  import opened Bytes
  import opened Common
  import opened Ranges
  import opened RangesProperties
  import opened RangeHeader

  /** "Content-Range: " */
  const CONTENT_RANGE: Bytes := [67, 111, 110, 116, 101, 110, 116, 45, 82, 97, 110, 103, 101, 58, 32]
  /** "bytes " */
  const BYTES: Bytes := [98, 121, 116, 101, 115, 32]
  const SLASH: Bytes := [47]

  /** A token of the traversal: a text, or a stretch of the content. */
  datatype Token = Text(text: Bytes) | Stretch(offset: nat, length: nat)

  function OffsetAndLength(r: Range, len: nat): (r': (nat, nat))
    requires InBounds(r, len)
    ensures r'.0 + r'.1 <= len
  {
    (r.first, r.last - r.first + 1)
  }

  function ContentRange(offset: nat, length: nat, len: nat): Bytes
    requires length > 0
  {
    BYTES + Decimal(offset) + [DASH] + Decimal(offset + length - 1) + SLASH + Decimal(len)
  }

  function PartTokens(r: Range, boundary: Bytes, contentType: Bytes, len: nat): seq<Token>
    requires InBounds(r, len)
  {
    var (offset, length) := OffsetAndLength(r, len);
    [Text(DASHES), Text(boundary), Text(CRLF)]
    + (if contentType == [] then [] else [Text(CONTENT_TYPE), Text(contentType), Text(CRLF)])
    + [Text(CONTENT_RANGE), Text(ContentRange(offset, length, len)), Text(CRLF), Text(CRLF)]
    + [Stretch(offset, length), Text(CRLF)]
  }

  function Tokens(rs: seq<Range>, boundary: Bytes, contentType: Bytes, len: nat): seq<Token>
    requires AllInBounds(rs, len)
  {
    if rs == [] then [Text(DASHES), Text(boundary), Text(DASHES)]
    else PartTokens(rs[0], boundary, contentType, len) + Tokens(rs[1..], boundary, contentType, len)
  }

  predicate Fits(t: Token, len: nat)
  {
    t.Stretch? ==> t.offset + t.length <= len
  }

  predicate AllFit(ts: seq<Token>, len: nat)
  {
    forall i | 0 <= i < |ts| :: Fits(ts[i], len)
  }

  function Render(t: Token, content: Bytes): Bytes
    requires Fits(t, |content|)
  {
    match t
    case Text(text) => text
    case Stretch(offset, length) => content[offset..offset + length]
  }

  function RenderAll(ts: seq<Token>, content: Bytes): Bytes
    requires AllFit(ts, |content|)
  {
    if ts == [] then [] else Render(ts[0], content) + RenderAll(ts[1..], content)
  }

  function Size(t: Token): nat
  {
    match t
    case Text(text) => |text|
    case Stretch(_, length) => length
  }

  function SizeAll(ts: seq<Token>): nat
  {
    if ts == [] then 0 else Size(ts[0]) + SizeAll(ts[1..])
  }

  /** The tokens in the order in which the callbacks see them. */
  method ProcessMultipartRanges(rs: seq<Range>, boundary: Bytes, contentType: Bytes, len: nat) returns (ts: seq<Token>)
    requires AllInBounds(rs, len)
    ensures ts == Tokens(rs, boundary, contentType, len)
  {
    ts := [];
    ghost var total := Tokens(rs, boundary, contentType, len);
    assert rs[0..] == rs;
    for i := 0 to |rs|
      invariant ts + Tokens(rs[i..], boundary, contentType, len) == total
    {
      ghost var before := ts;
      var (offset, length) := OffsetAndLength(rs[i], len);
      var part := [Text(DASHES), Text(boundary), Text(CRLF)];
      if contentType != [] {
        part := part + [Text(CONTENT_TYPE), Text(contentType), Text(CRLF)];
      }
      var field := ContentRange(offset, length, len);
      part := part + [Text(CONTENT_RANGE), Text(field), Text(CRLF), Text(CRLF)];
      part := part + [Stretch(offset, length), Text(CRLF)];
      assert part == PartTokens(rs[i], boundary, contentType, len);
      ts := ts + part;
      assert rs[i..][1..] == rs[i + 1..];
      Reassociate(before, part, Tokens(rs[i + 1..], boundary, contentType, len));
    }
    ts := ts + [Text(DASHES), Text(boundary), Text(DASHES)];
  }

  lemma {:induction false} TokensFit(rs: seq<Range>, boundary: Bytes, contentType: Bytes, len: nat)
    requires AllInBounds(rs, len)
    ensures AllFit(Tokens(rs, boundary, contentType, len), len)
  {
    if rs != [] {
      TokensFit(rs[1..], boundary, contentType, len);
    }
  }

  method MakeMultipartRangesData(rs: seq<Range>, boundary: Bytes, contentType: Bytes, content: Bytes)
      returns (data: Bytes)
    requires AllInBounds(rs, |content|)
    ensures AllFit(Tokens(rs, boundary, contentType, |content|), |content|)
    ensures data == RenderAll(Tokens(rs, boundary, contentType, |content|), content)
  {
    TokensFit(rs, boundary, contentType, |content|);
    var ts := ProcessMultipartRanges(rs, boundary, contentType, |content|);
    data := AppendTokens(ts, content);
  }

  /** What the callbacks of `make_multipart_ranges_data` do, token by token. */
  method AppendTokens(ts: seq<Token>, content: Bytes) returns (data: Bytes)
    requires AllFit(ts, |content|)
    ensures data == RenderAll(ts, content)
  {
    data := [];
    ghost var total := RenderAll(ts, content);
    assert ts[0..] == ts;
    for i := 0 to |ts|
      invariant data + RenderAll(ts[i..], content) == total
    {
      RenderFront(ts, i, content, data);
      data := data + Render(ts[i], content);
    }
  }

  lemma RenderFront(ts: seq<Token>, i: nat, content: Bytes, data: Bytes)
    requires AllFit(ts, |content|) && i < |ts|
    ensures data + RenderAll(ts[i..], content) == data + Render(ts[i], content) + RenderAll(ts[i + 1..], content)
  {
    assert ts[i..][1..] == ts[i + 1..];
    Reassociate(data, Render(ts[i], content), RenderAll(ts[i + 1..], content));
  }

  method GetMultipartRangesDataLength(rs: seq<Range>, boundary: Bytes, contentType: Bytes, len: nat) returns (n: nat)
    requires AllInBounds(rs, len)
    ensures n == SizeAll(Tokens(rs, boundary, contentType, len))
  {
    var ts := ProcessMultipartRanges(rs, boundary, contentType, len);
    n := 0;
    assert ts[0..] == ts;
    for i := 0 to |ts|
      invariant n + SizeAll(ts[i..]) == SizeAll(ts)
    {
      assert ts[i..][1..] == ts[i + 1..];
      n := n + Size(ts[i]);
    }
  }

  lemma {:induction false} SizeIsRenderedLength(ts: seq<Token>, content: Bytes)
    requires AllFit(ts, |content|)
    ensures |RenderAll(ts, content)| == SizeAll(ts)
  {
    if ts != [] {
      SizeIsRenderedLength(ts[1..], content);
    }
  }

  /** Does a token list hand out position p of the content? */
  predicate Carries(ts: seq<Token>, p: int)
  {
    ts != [] && ((ts[0].Stretch? && ts[0].offset <= p < ts[0].offset + ts[0].length) || Carries(ts[1..], p))
  }

  lemma {:induction false} CarriesConcat(a: seq<Token>, b: seq<Token>, p: int)
    ensures Carries(a + b, p) <==> Carries(a, p) || Carries(b, p)
  {
    if a == [] {
      assert a + b == b;
    } else {
      assert (a + b)[1..] == a[1..] + b;
      CarriesConcat(a[1..], b, p);
    }
  }

  lemma {:induction false} TextsCarryNothing(ts: seq<Token>, p: int)
    requires forall i | 0 <= i < |ts| :: ts[i].Text?
    ensures !Carries(ts, p)
  {
    if ts != [] {
      TextsCarryNothing(ts[1..], p);
    }
  }

  lemma PartCarries(r: Range, boundary: Bytes, contentType: Bytes, len: nat, p: int)
    requires InBounds(r, len)
    ensures Carries(PartTokens(r, boundary, contentType, len), p) <==> Holds(r, p)
  {
    var (offset, length) := OffsetAndLength(r, len);
    var ts := PartTokens(r, boundary, contentType, len);
    var head, tail := ts[..|ts| - 2], [Stretch(offset, length), Text(CRLF)];
    assert ts == head + tail && tail[1..] == [Text(CRLF)];
    TextsCarryNothing(head, p);
    TextsCarryNothing([Text(CRLF)], p);
    CarriesConcat(head, tail, p);
  }

  lemma {:induction false} BodyCarries(rs: seq<Range>, boundary: Bytes, contentType: Bytes, len: nat, p: int)
    requires AllInBounds(rs, len)
    ensures Carries(Tokens(rs, boundary, contentType, len), p) <==> Covers(rs, p)
  {
    if rs == [] {
      TextsCarryNothing(Tokens(rs, boundary, contentType, len), p);
    } else {
      BodyCarries(rs[1..], boundary, contentType, len, p);
      PartCarries(rs[0], boundary, contentType, len, p);
      CarriesConcat(PartTokens(rs[0], boundary, contentType, len), Tokens(rs[1..], boundary, contentType, len), p);
      CoversCons(rs, p);
    }
  }

  lemma CoversCons(rs: seq<Range>, p: int)
    requires rs != []
    ensures Covers(rs, p) <==> Holds(rs[0], p) || Covers(rs[1..], p)
  {
    if Covers(rs[1..], p) {
      var i :| 0 <= i < |rs| - 1 && Holds(rs[1..][i], p);
      assert Holds(rs[i + 1], p);
    }
    if Covers(rs, p) && !Holds(rs[0], p) {
      var i :| 0 <= i < |rs| && Holds(rs[i], p);
      assert Holds(rs[1..][i - 1], p);
    }
  }

  /** For every request that is let through, whatever order the sort chose: the
      ranges meet the assertions of the traversal, the announced length is the
      length of the body, and the body carries exactly the requested bytes of
      the content. */
  lemma AcceptedRequestsAreServed(
    rs: seq<Range>, sorted: seq<Range>, boundary: Bytes, contentType: Bytes, content: Bytes)
    requires rs != [] && Acceptable(rs, |content|) && SortResult(NormalizeAll(rs, |content|), sorted)
    ensures var len := |content|;
            var result := Coalesced(sorted, len);
            && AllInBounds(result, len)
            && var ts := Tokens(result, boundary, contentType, len);
            && AllFit(ts, len)
            && |RenderAll(ts, content)| == SizeAll(ts)
            && forall p :: Carries(ts, p) <==> AnyRequested(rs, len, p)
  {
    var len := |content|;
    CoalescingServesTheRequest(rs, sorted, len);
    var result := Coalesced(sorted, len);
    TokensFit(result, boundary, contentType, len);
    SizeIsRenderedLength(Tokens(result, boundary, contentType, len), content);
    forall p
      ensures Carries(Tokens(result, boundary, contentType, len), p) <==> AnyRequested(rs, len, p)
    {
      BodyCarries(result, boundary, contentType, len, p);
    }
  }
}
