/** Trailer fields read with `parse_header`: when those received are those sent. */
module TrailerFields {
  import opened Bytes
  import opened Chunked
  import opened ChunkedProperties
  import opened HeaderFields
  import PathEscapes

  function HeaderRules(declared: Bytes -> bool): TrailerRules
  {
    TrailerRules(ParseHeader, declared)
  }

  /** The fields sent that the header section announced. */
  function Announced(declared: Bytes -> bool, fields: seq<Field>): seq<Field>
  {
    if fields == [] then [] else AnnouncedOf(declared, fields[0]) + Announced(declared, fields[1..])
  }

  function AnnouncedOf(declared: Bytes -> bool, f: Field): seq<Field>
  {
    if declared(f.key) then [f] else []
  }

  /** A field of correct syntax, on a line within the limit. */
  predicate SendableField(f: Field)
  {
    IsField(f) && |FieldLine(f)| + 2 <= HEADER_MAX_LENGTH
  }

  predicate AllSendable(fields: seq<Field>)
  {
    forall f | f in fields :: SendableField(f)
  }

  predicate AllLiteral(declared: Bytes -> bool, fields: seq<Field>)
  {
    forall f | f in fields && declared(f.key) :: IsLiteral(f)
  }

  /** The announced fields are received as they were sent, and exactly the bytes
      behind them left unread, if and only if nothing in the value of an announced
      field is decoded. */
  lemma TrailersComeBackIff(declared: Bytes -> bool, fields: seq<Field>, suffix: Bytes)
    requires AllSendable(fields)
    requires fields != [] ==> |Announced(declared, fields[..|fields| - 1])| < HEADER_MAX_COUNT
    ensures TrailersInto(HeaderRules(declared), FieldLines(fields) + CRLF + suffix, [])
              == TrailerResult(true, suffix, Announced(declared, fields))
       <==> AllLiteral(declared, fields)
  {
    var rules := HeaderRules(declared);
    forall i | 0 <= i < |fields|
      ensures FieldFits(rules, fields[i])
    {
      SendableFits(declared, fields[i]);
    }
    if fields != [] {
      KeptIsAnnouncedIff(declared, fields[..|fields| - 1]);
    }
    TrailersAreRead(rules, fields, suffix, []);
    assert [] + Kept(rules, fields) == Kept(rules, fields);
    KeptIsAnnouncedIff(declared, fields);
  }

  /** A field of correct syntax is parsed, with its own name. */
  lemma FieldIsParsed(f: Field)
    requires IsField(f)
    ensures ParseHeader(FieldLine(f))
         == Parsed(Field(f.key, if IsVerbatim(f.key) then f.val else PathEscapes.DecodePath(f.val)))
  {
    ParseOfLine(f);
    ValueIsTrimmed(f.val);
  }

  lemma LineHasNoCrlf(f: Field)
    requires IsField(f)
    ensures !Occurs(FieldLine(f), CRLF)
  {
    var line := FieldLine(f);
    TokenHasNoColon(f.key);
    assert CR !in f.val && CR !in COLON_SPACE;
    forall i
      ensures !OccursAt(line, CRLF, i)
    {
      if 0 <= i && i + 2 <= |line| {
        assert line[i..i + 2][0] == line[i];
      }
    }
  }

  lemma SendableFits(declared: Bytes -> bool, f: Field)
    requires SendableField(f)
    ensures FieldFits(HeaderRules(declared), f)
  {
    FieldIsParsed(f);
    LineHasNoCrlf(f);
  }

  lemma KeptOfIff(declared: Bytes -> bool, f: Field)
    requires IsField(f)
    ensures |KeptOf(HeaderRules(declared), f)| == |AnnouncedOf(declared, f)|
    ensures KeptOf(HeaderRules(declared), f) == AnnouncedOf(declared, f) <==> (declared(f.key) ==> IsLiteral(f))
  {
    FieldIsParsed(f);
    FieldComesBackIff(f);
  }

  lemma SplitEquality(a: seq<Field>, b: seq<Field>, c: seq<Field>, d: seq<Field>)
    requires |a| == |c|
    ensures a + b == c + d <==> a == c && b == d
  {
    if a + b == c + d {
      assert a == (a + b)[..|a|] && b == (a + b)[|a|..] && c == (c + d)[..|a|] && d == (c + d)[|a|..];
    }
  }

  lemma LiteralCons(declared: Bytes -> bool, fields: seq<Field>)
    requires fields != []
    ensures AllLiteral(declared, fields)
       <==> (declared(fields[0].key) ==> IsLiteral(fields[0])) && AllLiteral(declared, fields[1..])
  {
    assert fields == [fields[0]] + fields[1..];
  }

  /** As many fields are kept as were announced, and the same ones exactly if the
      values are literal. */
  lemma {:induction false} KeptIsAnnouncedIff(declared: Bytes -> bool, fields: seq<Field>)
    requires AllSendable(fields)
    ensures |Kept(HeaderRules(declared), fields)| == |Announced(declared, fields)|
    ensures Kept(HeaderRules(declared), fields) == Announced(declared, fields) <==> AllLiteral(declared, fields)
  {
    if fields != [] {
      var rules, rest := HeaderRules(declared), fields[1..];
      assert SendableField(fields[0]);
      KeptOfIff(declared, fields[0]);
      KeptIsAnnouncedIff(declared, rest);
      LiteralCons(declared, fields);
      SplitEquality(KeptOf(rules, fields[0]), Kept(rules, rest),
                    AnnouncedOf(declared, fields[0]), Announced(declared, rest));
    }
  }
}
