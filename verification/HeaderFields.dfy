/** One header line: the name and value that `parse_header` takes from it, and
    which fields come back as they were sent. */
module HeaderFields {
  import opened Bytes
  import opened Common
  import opened CText
  import opened Text
  import TextPieces
  import FormDataHeaders
  import opened PathEscapes
  import opened Chunked

  const COLON: byte := 58
  /** "Location" and "Referer" */
  const LOCATION: Bytes := [76, 111, 99, 97, 116, 105, 111, 110]
  const REFERER: Bytes := [82, 101, 102, 101, 114, 101, 114]

  // Characters ---------------------------------------------------------------------------

  predicate IsTokenChar(c: byte)
  {
    || IsAlnum(c) || c == 33 || 35 <= c <= 39 || c == 42 || c == 43 || c == 45 || c == 46
    || 94 <= c <= 96 || c == 124 || c == 126
  }

  predicate IsFieldName(s: Bytes)
  {
    s != [] && forall i | 0 <= i < |s| :: IsTokenChar(s[i])
  }

  predicate IsFieldChar(c: byte) { 33 <= c <= 126 || 128 <= c }

  predicate IsFieldText(s: Bytes)
  {
    forall i | 0 <= i < |s| :: IsFieldChar(s[i]) || IsBlank(s[i])
  }

  /** Visible at both ends, with blanks at most in between. */
  predicate IsFieldValue(s: Bytes)
  {
    IsFieldText(s) && (s != [] ==> IsFieldChar(s[0]) && IsFieldChar(s[|s| - 1]))
  }

  predicate SameIgnoringCase(a: Bytes, b: Bytes)
  {
    |a| == |b| && forall i | 0 <= i < |a| :: FormDataHeaders.Lower(a[i]) == FormDataHeaders.Lower(b[i])
  }

  /** The values of these two fields are not decoded. */
  predicate IsVerbatim(key: Bytes)
  {
    SameIgnoringCase(key, LOCATION) || SameIgnoringCase(key, REFERER)
  }

  function ParseHeader(line: Bytes): HeaderResult
  {
    var text := DropBack(line);
    var (key, rest) := Divided(text, COLON);
    var val := DropFront(rest);
    if !IsFieldName(key) || COLON !in text || !IsFieldValue(val) then Malformed
    else Parsed(Field(key, if IsVerbatim(key) then val else DecodePath(val)))
  }

  // The code -----------------------------------------------------------------------------

  method IsFieldContent(s: Bytes) returns (r: bool)
    ensures r == IsFieldValue(s)
  {
    if s == [] {
      return true;
    }
    if |s| == 1 {
      return IsFieldChar(s[0]);
    }
    if |s| == 2 {
      return IsFieldChar(s[0]) && IsFieldChar(s[1]);
    }
    var i := 0;
    if !IsFieldChar(s[i]) {
      return false;
    }
    i := i + 1;
    while i < |s| - 1
      invariant 1 <= i <= |s| - 1
      invariant forall k | 0 <= k < i :: IsFieldChar(s[k]) || IsBlank(s[k])
    {
      var c := s[i];
      if !(IsBlank(c) || IsFieldChar(c)) {
        return false;
      }
      i := i + 1;
    }
    return IsFieldChar(s[i]);
  }

  /** Where the line ends without its trailing blanks. */
  method TextEnd(line: Bytes) returns (end: nat)
    ensures end <= |line| && line[..end] == DropBack(line)
  {
    end := |line|;
    assert line[..|line|] == line;
    while end > 0 && IsBlank(line[end - 1])
      invariant end <= |line|
      invariant DropBack(line[..end]) == DropBack(line)
    {
      assert line[..end][..end - 1] == line[..end - 1];
      end := end - 1;
    }
  }

  /** The value behind the colon, without the blanks in front of it. */
  method ValueBehind(text: Bytes, from: nat) returns (val: Bytes)
    requires from <= |text|
    ensures val == DropFront(text[from..])
  {
    var p := from;
    while p < |text| && IsBlank(text[p])
      invariant from <= p <= |text|
      invariant DropFront(text[p..]) == DropFront(text[from..])
    {
      assert text[p..][1..] == text[p + 1..];
      p := p + 1;
    }
    val := text[p..];
  }

  method ParseHeaderLine(line: Bytes) returns (r: HeaderResult)
    ensures r == ParseHeader(line)
  {
    var end := TextEnd(line);
    var text := line[..end];
    var p := 0;
    while p < |text| && text[p] != COLON
      invariant 0 <= p <= |text| && COLON !in text[..p]
    {
      p := p + 1;
    }
    IndexIs(text, COLON, p);
    var key := text[..p];
    if !IsFieldName(key) || p == |text| {
      assert p == |text| ==> text[..p] == text;
      return Malformed;
    }
    var val := ValueBehind(text, p + 1);
    var valid := IsFieldContent(val);
    if !valid {
      return Malformed;
    }
    if !IsVerbatim(key) {
      val := DecodePathComponent(val);
    }
    return Parsed(Field(key, val));
  }

  // One field ----------------------------------------------------------------------------

  /** A value that is taken as it is: nothing in it is decoded, or the name is one
      of the two that are not. */
  predicate IsLiteral(f: Field)
  {
    IsVerbatim(f.key) || NoEscape(f.val)
  }

  predicate IsField(f: Field) { IsFieldName(f.key) && IsFieldValue(f.val) }

  lemma TokenHasNoColon(key: Bytes)
    requires IsFieldName(key)
    ensures COLON !in key && CR !in key && !IsBlank(key[|key| - 1])
  {
  }

  lemma FieldLineParts(f: Field)
    requires COLON !in f.key
    ensures Divided(FieldLine(f), COLON) == (f.key, [SPACE] + f.val)
  {
    assert FieldLine(f) == f.key + [COLON] + ([SPACE] + f.val);
    DivideOfJoin(f.key, COLON, [SPACE] + f.val);
  }

  /** Trailing blanks are those of the value, or the one in front of it. */
  lemma {:induction false} DropBackOfJoin(head: Bytes, v: Bytes)
    requires head != [] && !IsBlank(head[|head| - 1])
    ensures DropBack(head + v) == head + DropBack(v)
    decreases |v|
  {
    if v != [] && IsBlank(v[|v| - 1]) {
      assert (head + v)[..|head + v| - 1] == head + v[..|v| - 1];
      DropBackOfJoin(head, v[..|v| - 1]);
    } else if v == [] {
      assert head + v == head && DropBack(v) == v;
    }
  }

  /** Blanks are dropped at one end, then at the other. */
  lemma {:induction false} TrimmedEitherWay(s: Bytes)
    ensures DropFront(DropBack(s)) == DropBack(DropFront(s))
    decreases |s|
  {
    if s != [] && IsBlank(s[0]) {
      TrimmedEitherWay(s[1..]);
      FrontOfDropBack(s);
    } else if s != [] {
      var head, v := s[..1], s[1..];
      assert s == head + v;
      DropBackOfJoin(head, v);
    }
  }

  lemma {:induction false} FrontOfDropBack(s: Bytes)
    requires s != [] && IsBlank(s[0])
    ensures DropFront(DropBack(s)) == DropFront(DropBack(s[1..]))
    decreases |s|
  {
    var n := |s| - 1;
    if IsBlank(s[n]) && n > 0 {
      assert s[..n][1..] == s[1..][..n - 1];
      FrontOfDropBack(s[..n]);
    }
  }

  /** What is parsed from a name that is a token, a colon, and any text. */
  lemma ParseOfText(key: Bytes, v: Bytes)
    requires IsFieldName(key)
    ensures ParseHeader(key + [COLON] + v) ==
            var val := Trimmed(v);
            if !IsFieldValue(val) then Malformed
            else Parsed(Field(key, if IsVerbatim(key) then val else DecodePath(val)))
  {
    var head := key + [COLON];
    TokenHasNoColon(key);
    DropBackOfJoin(head, v);
    DivideOfJoin(key, COLON, DropBack(v));
    assert (head + DropBack(v))[|key|] == COLON;
    TrimmedEitherWay(v);
  }

  /** The same for a field as it is written. */
  lemma ParseOfLine(f: Field)
    requires IsFieldName(f.key)
    ensures ParseHeader(FieldLine(f)) ==
            var val := Trimmed(f.val);
            if !IsFieldValue(val) then Malformed
            else Parsed(Field(f.key, if IsVerbatim(f.key) then val else DecodePath(val)))
  {
    assert FieldLine(f) == f.key + [COLON] + ([SPACE] + f.val);
    ParseOfText(f.key, [SPACE] + f.val);
    DropFrontBlank([SPACE], f.val);
  }

  /** Blanks on either side of a value do not count, and none are needed. */
  lemma AnySpacing(key: Bytes, before: Bytes, val: Bytes, behind: Bytes)
    requires IsFieldName(key) && IsFieldValue(val) && AllBlank(before) && AllBlank(behind)
    ensures ParseHeader(key + [COLON] + (before + val + behind))
         == Parsed(Field(key, if IsVerbatim(key) then val else DecodePath(val)))
  {
    ParseOfText(key, before + val + behind);
    if val == [] {
      BlankIsDropped(before + val + behind);
    } else {
      CoreStays(before, val, behind);
    }
  }

  /** A line without a colon, or with something else than a token in front of it, is
      malformed. */
  lemma NoNameNoField(line: Bytes)
    ensures COLON !in line ==> ParseHeader(line) == Malformed
  {
    TextPieces.DropBackKeeps(line);
  }

  lemma BadNameNoField(key: Bytes, v: Bytes)
    requires COLON !in key && !IsFieldName(key)
    ensures ParseHeader(key + [COLON] + v) == Malformed
  {
    DropBackOfJoin(key + [COLON], v);
    DivideOfJoin(key, COLON, DropBack(v));
  }

  /** `"(),/:;<=>?@[\]{}` */
  const DELIMITERS: Bytes := [34, 40, 41, 44, 47, 58, 59, 60, 61, 62, 63, 64, 91, 92, 93, 123, 125]

  /** The characters of a token are the visible ones but the delimiters; section
      5.6.2 of RFC 9110. */
  lemma TokenCharsAre(c: byte)
    ensures IsTokenChar(c) <==> 33 <= c <= 126 && c !in DELIMITERS
  {
  }

  /** Bytes that a value may have: everything but controls other than the tab. */
  lemma FieldBytesAre(c: byte)
    ensures IsFieldChar(c) || IsBlank(c) <==> c == 9 || (c >= 32 && c != 127)
  {
  }

  /** Sent as a line of its own, a field is parsed as itself exactly if its name is
      a token, its value is visible at both ends and has only visible bytes and
      blanks, and nothing in it is decoded. */
  lemma FieldComesBackIff(f: Field)
    ensures ParseHeader(FieldLine(f)) == Parsed(f) <==> IsField(f) && IsLiteral(f)
  {
    if IsFieldName(f.key) {
      var val := Trimmed(f.val);
      ParseOfLine(f);
      TextPieces.TrimmedKeeps(f.val);
      SameLengthIsWhole(f.val);
      DecodingShortens(val);
      DecodesToItselfIff(f.val);
      if IsFieldValue(f.val) {
        ValueIsTrimmed(f.val);
      }
    }
  }

  lemma ValueIsTrimmed(val: Bytes)
    requires IsFieldValue(val)
    ensures Trimmed(val) == val
  {
    if val != [] {
      CoreStays([], val, []);
      assert [] + val + [] == val;
    }
  }

  lemma {:induction false} SameLengthIsWhole(s: Bytes)
    ensures |Trimmed(s)| == |s| ==> Trimmed(s) == s
  {
    TextPieces.DropFrontKeeps(s);
    TextPieces.DropBackKeeps(DropFront(s));
    if s != [] && IsBlank(s[0]) {
      TextPieces.DropFrontKeeps(s[1..]);
    }
    var t := DropFront(s);
    if t != [] && IsBlank(t[|t| - 1]) {
      TextPieces.DropBackKeeps(t[..|t| - 1]);
    }
  }

  /** "100%25", and what it is decoded to */
  const ESCAPED_PERCENT: Bytes := [49, 48, 48] + [PERCENT, 50, 53]
  const PLAIN_PERCENT: Bytes := [49, 48, 48] + [PERCENT]

  /** The value `100%25` arrives as `100%`. */
  lemma PercentIsDecoded(key: Bytes)
    requires IsFieldName(key) && !IsVerbatim(key)
    ensures ParseHeader(FieldLine(Field(key, ESCAPED_PERCENT))) == Parsed(Field(key, PLAIN_PERCENT))
  {
    EscapedPercentIsValue();
    ValueArrives(key, ESCAPED_PERCENT);
    PercentDecodes();
  }

  lemma ValueArrives(key: Bytes, val: Bytes)
    requires IsFieldName(key) && !IsVerbatim(key) && IsFieldValue(val)
    ensures ParseHeader(FieldLine(Field(key, val))) == Parsed(Field(key, DecodePath(val)))
  {
    ParseOfLine(Field(key, val));
    ValueIsTrimmed(val);
  }

  lemma EscapedPercentIsValue()
    ensures IsFieldValue(ESCAPED_PERCENT)
  {
  }

  lemma PercentDecodes()
    ensures DecodePath(ESCAPED_PERCENT) == PLAIN_PERCENT
  {
    var escape: Bytes := [PERCENT, 50, 53];
    PercentEscape(escape);
    PlainByteFirst(48, escape);
    PlainByteFirst(48, [48] + escape);
    PlainByteFirst(49, [48] + ([48] + escape));
    assert ESCAPED_PERCENT == [49] + ([48] + ([48] + escape));
  }

  lemma PlainByteFirst(c: byte, rest: Bytes)
    requires c != PERCENT
    ensures DecodePath([c] + rest) == [c] + DecodePath(rest)
  {
    assert ([c] + rest)[1..] == rest;
  }

  lemma PercentEscape(val: Bytes)
    requires val == [PERCENT, 50, 53]
    ensures DecodePath(val) == [PERCENT]
  {
    assert val[1..1 + 2] == [50, 53];
    NumberOfTwo(50, 53);
    assert HexAt(val, 1, 2) == Some(37);
    assert PathStep(val) == ([PERCENT], 3);
    assert DecodePath(val) == [PERCENT] + DecodePath(val[3..]);
  }
}
