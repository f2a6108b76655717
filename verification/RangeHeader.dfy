/** Printing and parsing a `Range` header. */
module RangeHeader {
  import opened Bytes
  import opened Common
  import opened Text
  import opened Ranges
  import TextPieces

  const DASH: byte := 45
  const COMMA: byte := 44
  const BYTES_EQ: Bytes := [98, 121, 116, 101, 115, 61]
  const LLONG_MAX: nat := 0x7FFF_FFFF_FFFF_FFFF

  // Decimal numbers -----------------------------------------------------------------

  predicate IsDigit(c: byte) { 48 <= c <= 57 }

  predicate AllDigits(s: Bytes)
  {
    forall i | 0 <= i < |s| :: IsDigit(s[i])
  }

  function Decimal(n: nat): (s: Bytes)
    ensures s != [] && AllDigits(s)
  {
    if n < 10 then [48 + n] else Decimal(n / 10) + [48 + n % 10]
  }

  /** `std::to_string`. */
  function ToString(n: int): Bytes
  {
    if n < 0 then [DASH] + Decimal(-n) else Decimal(n)
  }

  function Value(s: Bytes): nat
    requires AllDigits(s)
  {
    if s == [] then 0 else 10 * Value(s[..|s| - 1]) + (s[|s| - 1] - 48)
  }

  lemma {:induction false} ValueOfDecimal(n: nat)
    ensures Value(Decimal(n)) == n
  {
    var s := Decimal(n);
    if n >= 10 {
      assert s[..|s| - 1] == Decimal(n / 10);
      ValueOfDecimal(n / 10);
    } else {
      assert s[..0] == [];
    }
  }

  // One range ------------------------------------------------------------------------

  function EndText(n: int): Bytes
  {
    if n == -1 then [] else ToString(n)
  }

  function RangeText(r: Range): Bytes
  {
    EndText(r.first) + [DASH] + EndText(r.last)
  }

  /** An absent end is -1; too long a number is an exception, which fails the
      header. */
  function ParseEnd(s: Bytes): Option<int>
  {
    var n: int := if s == [] then -1 else if AllDigits(s) then Value(s) else LLONG_MAX + 1;
    if n <= LLONG_MAX then Some(n) else None
  }

  function ParseRange(s: Bytes): Option<Range>
  {
    if DASH !in s then None
    else
      var (lhs, rhs) := Divided(s, DASH);
      match (ParseEnd(lhs), ParseEnd(rhs))
      case (Some(first), Some(last)) =>
        if (first == -1 && last == -1) || (first != -1 && last != -1 && first > last) then None
        else Some(Range(first, last))
      case _ => None
  }

  function ParseRanges(pieces: seq<Bytes>): Option<seq<Range>>
  {
    if pieces == [] then Some([])
    else
      match (ParseRange(pieces[0]), ParseRanges(pieces[1..]))
      case (Some(r), Some(rest)) => Some([r] + rest)
      case _ => None
  }

  function ParseHeader(s: Bytes): Option<seq<Range>>
  {
    if |s| > 7 && BYTES_EQ <= s then
      match ParseRanges(Pieces(s[6..], COMMA))
      case Some(rs) => if rs == [] then None else Some(rs)
      case None => None
    else None
  }

  function RangeTexts(rs: seq<Range>): seq<Bytes>
  {
    seq(|rs|, i requires 0 <= i < |rs| => RangeText(rs[i]))
  }

  function HeaderText(rs: seq<Range>): Bytes
  {
    BYTES_EQ + Join(RangeTexts(rs), [COMMA] + [32])
  }

  // The code ---------------------------------------------------------------------------

  method MakeRangeHeader(rs: seq<Range>) returns (field: Bytes)
    ensures field == HeaderText(rs)
  {
    field := BYTES_EQ;
    for i := 0 to |rs|
      invariant field == HeaderText(rs[..i])
    {
      if i != 0 {
        field := field + [COMMA, 32];
      }
      if rs[i].first != -1 {
        field := field + ToString(rs[i].first);
      }
      field := field + [DASH];
      if rs[i].last != -1 {
        field := field + ToString(rs[i].last);
      }
      HeaderSnoc(rs, i);
    }
    assert rs[..|rs|] == rs;
  }

  lemma HeaderSnoc(rs: seq<Range>, i: nat)
    requires i < |rs|
    ensures HeaderText(rs[..i + 1]) ==
            HeaderText(rs[..i]) + (if i == 0 then [] else [COMMA, 32])
            + EndText(rs[i].first) + [DASH] + EndText(rs[i].last)
  {
    TextsSnoc(rs, i);
    JoinedSnoc(RangeTexts(rs[..i]), RangeText(rs[i]));
    Append(BYTES_EQ, Join(RangeTexts(rs[..i]), [COMMA] + [32]), if i == 0 then [] else [COMMA, 32],
           EndText(rs[i].first), EndText(rs[i].last));
  }

  lemma TextsSnoc(rs: seq<Range>, i: nat)
    requires i < |rs|
    ensures RangeTexts(rs[..i + 1]) == RangeTexts(rs[..i]) + [RangeText(rs[i])]
  {
  }

  lemma JoinedSnoc(texts: seq<Bytes>, last: Bytes)
    ensures Join(texts + [last], [COMMA] + [32]) ==
            Join(texts, [COMMA] + [32]) + ((if texts == [] then [] else [COMMA, 32]) + last)
  {
    JoinSnoc(texts, last, [COMMA] + [32]);
    assert [COMMA] + [32] == [COMMA, 32];
  }

  lemma Append(h: Bytes, texts: Bytes, sep: Bytes, first: Bytes, last: Bytes)
    ensures h + texts + sep + first + [DASH] + last == h + (texts + (sep + (first + [DASH] + last)))
  {
  }

  /** The callback of `parse_range_header`, with what it throws. */
  method TakeRange(piece: Bytes) returns (r: Option<Range>)
    ensures r == ParseRange(piece)
  {
    if DASH !in piece {
      return None;
    }
    var lhs, rhs := Divide(piece, DASH);
    if !AllDigits(lhs) || !AllDigits(rhs) {
      return None;
    }
    if Value(lhs) > LLONG_MAX || Value(rhs) > LLONG_MAX {
      return None;
    }
    var first: int := if lhs == [] then -1 else Value(lhs);
    var last: int := if rhs == [] then -1 else Value(rhs);
    if (first == -1 && last == -1) || (first != -1 && last != -1 && first > last) {
      return None;
    }
    return Some(Range(first, last));
  }

  function Prepend(rs: seq<Range>, o: Option<seq<Range>>): Option<seq<Range>>
  {
    match o
    case None => None
    case Some(rest) => Some(rs + rest)
  }

  lemma ParseOneMore(rs: seq<Range>, pieces: seq<Bytes>, i: nat)
    requires i < |pieces|
    ensures Prepend(rs, ParseRanges(pieces[i..])) ==
            match ParseRange(pieces[i])
            case None => None
            case Some(r) => Prepend(rs + [r], ParseRanges(pieces[i + 1..]))
  {
    assert pieces[i..][1..] == pieces[i + 1..];
    match (ParseRange(pieces[i]), ParseRanges(pieces[i + 1..]))
    case (Some(r), Some(rest)) => assert rs + ([r] + rest) == rs + [r] + rest;
    case _ =>
  }

  method ParseRangeHeader(s: Bytes) returns (ok: bool, rs: seq<Range>)
    ensures ok == ParseHeader(s).Some?
    ensures ok ==> Some(rs) == ParseHeader(s)
  {
    rs := [];
    if !(|s| > 7 && s[..6] == BYTES_EQ) {
      return false, [];
    }
    var pieces := Split(s[6..], COMMA);
    ghost var total := ParseRanges(pieces);
    var valid := true;
    assert pieces[0..] == pieces && Prepend([], total) == total by {
      assert total.Some? ==> [] + total.value == total.value;
    }
    for i := 0 to |pieces|
      invariant total == if valid then Prepend(rs, ParseRanges(pieces[i..])) else None
    {
      if valid {
        var r := TakeRange(pieces[i]);
        ParseOneMore(rs, pieces, i);
        if r.None? {
          valid := false;
        } else {
          rs := rs + [r.value];
        }
      }
    }
    ok := valid && rs != [];
    assert rs + [] == rs;
  }

  // The round trip ------------------------------------------------------------------------

  predicate EndFits(n: int) { -1 <= n <= LLONG_MAX }

  predicate Printable(r: Range)
  {
    && EndFits(r.first) && EndFits(r.last)
    && !(r.first == -1 && r.last == -1)
    && (r.first != -1 && r.last != -1 ==> r.first <= r.last)
  }

  lemma EndTextIsRead(n: int)
    ensures ParseEnd(EndText(n)) == if EndFits(n) then Some(n) else None
    ensures n >= -1 ==> DASH !in EndText(n)
  {
    if n >= 0 {
      ValueOfDecimal(n);
    } else if n < -1 {
      assert EndText(n)[0] == DASH && !IsDigit(DASH);
    }
  }

  /** Parsing a printed range gives it back, or fails if it is not one that may
      be printed. */
  lemma RangeTextIsRead(r: Range)
    ensures ParseRange(RangeText(r)) == if Printable(r) then Some(r) else None
  {
    var s := RangeText(r);
    EndTextIsRead(r.first);
    EndTextIsRead(r.last);
    assert s[|EndText(r.first)|] == DASH;
    if r.first >= -1 {
      DivideOfJoin(EndText(r.first), DASH, EndText(r.last));
    } else {
      var rest := Decimal(-r.first) + [DASH] + EndText(r.last);
      assert s == [] + [DASH] + rest;
      DivideOfJoin([], DASH, rest);
      assert rest[|Decimal(-r.first)|] == DASH && !IsDigit(DASH);
    }
  }

  lemma EndTextIsPlain(n: int)
    ensures forall i | 0 <= i < |EndText(n)| :: IsDigit(EndText(n)[i]) || EndText(n)[i] == DASH
  {
  }

  lemma RangeTextIsSolid(r: Range)
    ensures Solid(RangeText(r), COMMA)
  {
    EndTextIsPlain(r.first);
    EndTextIsPlain(r.last);
    var s := RangeText(r);
    assert forall i | 0 <= i < |s| :: IsDigit(s[i]) || s[i] == DASH;
  }

  predicate AllPrintable(rs: seq<Range>)
  {
    forall i | 0 <= i < |rs| :: Printable(rs[i])
  }

  lemma AllPrintableTail(rs: seq<Range>)
    requires rs != []
    ensures AllPrintable(rs) <==> Printable(rs[0]) && AllPrintable(rs[1..])
  {
    assert rs == [rs[0]] + rs[1..];
  }

  lemma ParseCons(piece: Bytes, pieces: seq<Bytes>)
    ensures ParseRanges([piece] + pieces) ==
            match ParseRange(piece)
            case None => None
            case Some(r) => Prepend([r], ParseRanges(pieces))
  {
    assert ([piece] + pieces)[1..] == pieces;
  }

  lemma TextsCons(rs: seq<Range>)
    requires rs != []
    ensures RangeTexts(rs) == [RangeText(rs[0])] + RangeTexts(rs[1..])
  {
  }

  lemma {:induction false} RangeTextsAreRead(rs: seq<Range>)
    ensures ParseRanges(RangeTexts(rs)) == if AllPrintable(rs) then Some(rs) else None
  {
    if rs != [] {
      var rest := rs[1..];
      assert rs == [rs[0]] + rest;
      TextsCons(rs);
      RangeTextIsRead(rs[0]);
      RangeTextsAreRead(rest);
      AllPrintableTail(rs);
      ParseCons(RangeText(rs[0]), RangeTexts(rest));
    }
  }

  lemma HeaderTextParts(rs: seq<Range>)
    requires rs != []
    ensures |HeaderText(rs)| >= 6 + |RangeText(rs[0])|
  {
    assert RangeTexts(rs)[0] == RangeText(rs[0]);
  }

  lemma TextsAreFound(rs: seq<Range>)
    ensures Pieces(HeaderText(rs)[6..], COMMA) == RangeTexts(rs)
  {
    assert HeaderText(rs)[6..] == [] + Join(RangeTexts(rs), [COMMA] + [32]);
    var texts := RangeTexts(rs);
    forall i | 0 <= i < |texts|
      ensures Solid(texts[i], COMMA)
    {
      RangeTextIsSolid(rs[i]);
    }
    SplitOfJoin(texts, COMMA, [32], []);
  }

  /** `parse_range_header` gives back what `make_range_header` printed if and only
      if the list is nonempty and every range in it has at least one end, no
      negative one, and its ends in order. */
  lemma ParseUndoesMake(rs: seq<Range>)
    ensures ParseHeader(HeaderText(rs)) == Some(rs) <==> rs != [] && AllPrintable(rs)
  {
    var texts, s := RangeTexts(rs), HeaderText(rs);
    TextsAreFound(rs);
    RangeTextsAreRead(rs);
    if rs != [] && Printable(rs[0]) {
      assert |RangeText(rs[0])| >= 2;
      HeaderTextParts(rs);
    }
  }

  // Any header -----------------------------------------------------------------------------

  /** The number a text stands for, -1 for none. */
  function End(s: Bytes): int
    requires AllDigits(s)
  {
    if s == [] then -1 else Value(s)
  }

  predicate EndsFit(a: Bytes, b: Bytes)
  {
    && AllDigits(a) && AllDigits(b)
    && Value(a) <= LLONG_MAX && Value(b) <= LLONG_MAX
    && !(a == [] && b == [])
    && (a != [] && b != [] ==> Value(a) <= Value(b))
  }

  /** A range is two numbers within the limit, in any spelling, with a dash between
      them; one of them may be missing, and two must be in order. */
  lemma ParseRangeIs(a: Bytes, b: Bytes)
    requires DASH !in a
    ensures ParseRange(a + [DASH] + b) == if EndsFit(a, b) then Some(Range(End(a), End(b))) else None
  {
    DivideOfJoin(a, DASH, b);
    assert (a + [DASH] + b)[|a|] == DASH;
  }

  lemma NoDashNoRange(s: Bytes)
    requires DASH !in s
    ensures ParseRange(s) == None
  {
  }

  /** Every piece must be a range. */
  lemma {:induction false} OneBadPieceFails(pieces: seq<Bytes>)
    ensures ParseRanges(pieces).Some? <==> forall p | p in pieces :: ParseRange(p).Some?
    ensures ParseRanges(pieces).Some? ==>
              && |ParseRanges(pieces).value| == |pieces|
              && forall i | 0 <= i < |pieces| :: ParseRange(pieces[i]) == Some(ParseRanges(pieces).value[i])
  {
    if pieces != [] {
      OneBadPieceFails(pieces[1..]);
      assert pieces == [pieces[0]] + pieces[1..];
    }
  }

  /** A header is taken exactly if it starts with the unit, there is at least one piece
      behind it, and every piece is a range. */
  lemma HeaderIsTakenIff(s: Bytes)
    ensures ParseHeader(s).Some? <==>
            && BYTES_EQ <= s && Pieces(s[6..], COMMA) != []
            && forall p | p in Pieces(s[6..], COMMA) :: ParseRange(p).Some?
  {
    if BYTES_EQ <= s {
      OneBadPieceFails(Pieces(s[6..], COMMA));
      if |s| <= 7 {
        ShortHasNoRange(s[6..]);
      }
    }
  }

  /** One byte is no range. */
  lemma ShortHasNoRange(t: Bytes)
    requires |t| <= 1
    ensures forall p | p in Pieces(t, COMMA) :: ParseRange(p).None?
  {
    TextPieces.PiecesAreOf(t, COMMA);
    forall p | p in Pieces(t, COMMA)
      ensures ParseRange(p).None?
    {
      assert TextPieces.PieceOf(p, t, COMMA);
      OneByteIsNoRange(p);
    }
  }

  lemma OneByteIsNoRange(p: Bytes)
    requires |p| <= 1
    ensures ParseRange(p).None?
  {
    if p == [DASH] {
      assert [] + [DASH] + [] == p;
      ParseRangeIs([], []);
    }
  }
}
