/** Content-Disposition lines from other writers: any letter case and spacing, values
    with or without quotes, and file names in the extended form. */
module FormDataReading {
  import opened Bytes
  import opened Common
  import opened CText
  import opened Text
  import opened TextPieces
  import opened PathEscapes
  import opened FormDataHeaders

  // The line -----------------------------------------------------------------------------

  predicate AllSpace(s: Bytes)
  {
    forall i | 0 <= i < |s| :: IsSpace(s[i])
  }

  predicate SameLetters(a: Bytes, b: Bytes)
  {
    |a| == |b| && HasHead(a, b)
  }

  /** A line in its parts: the two fixed words in any letters, blanks behind each, and
      the parameters. */
  datatype Line = Line(word: Bytes, blanks: Bytes, form: Bytes, more: Bytes, params: Bytes)

  function LineText(l: Line): Bytes { l.word + (l.blanks + (l.form + (l.more + l.params))) }

  predicate IsDisposition(l: Line)
  {
    && SameLetters(l.word, CONTENT_DISPOSITION) && AllSpace(l.blanks)
    && SameLetters(l.form, FORM_DATA) && AllSpace(l.more)
    && CR !in l.params && LF !in l.params
    && (l.params != [] ==> !IsSpace(l.params[0]))
  }

  lemma HeadIsTaken(head: Bytes, rest: Bytes, like: Bytes)
    requires SameLetters(head, like)
    ensures HasHead(head + rest, like) && (head + rest)[|like|..] == rest
  {
  }

  lemma BlanksAreTaken(blanks: Bytes, rest: Bytes)
    requires AllSpace(blanks) && (rest != [] ==> !IsSpace(rest[0]))
    ensures SkipSpace(blanks + rest) == rest
  {
    SpacesOf(blanks, rest);
  }

  lemma FormStartsSolid(form: Bytes, rest: Bytes)
    requires SameLetters(form, FORM_DATA)
    ensures !IsSpace((form + rest)[0])
  {
    assert (form + rest)[0] == form[0] && Lower(form[0]) == Lower(FORM_DATA[0]);
  }

  lemma DispositionIsRead(l: Line)
    requires IsDisposition(l)
    ensures DispositionText(LineText(l)) == Some(l.params)
  {
    var value := l.form + (l.more + l.params);
    HeadIsTaken(l.word, l.blanks + value, CONTENT_DISPOSITION);
    FormStartsSolid(l.form, l.more + l.params);
    BlanksAreTaken(l.blanks, value);
    HeadIsTaken(l.form, l.more + l.params, FORM_DATA);
    BlanksAreTaken(l.more, l.params);
  }

  /** A line has parameters exactly if it has those parts. */
  lemma DispositionTextIff(line: Bytes)
    ensures DispositionText(line).Some? <==> exists l :: IsDisposition(l) && LineText(l) == line
  {
    if DispositionText(line).Some? {
      var l := PartsOf(line);
    }
    forall l | IsDisposition(l) && LineText(l) == line
      ensures DispositionText(line).Some?
    {
      DispositionIsRead(l);
    }
  }

  lemma HeadOf(s: Bytes, like: Bytes)
    requires HasHead(s, like)
    ensures SameLetters(s[..|like|], like) && s[..|like|] + s[|like|..] == s
  {
  }

  lemma BlanksOf(s: Bytes)
    ensures AllSpace(s[..Spaces(s)]) && s[..Spaces(s)] + SkipSpace(s) == s
    ensures SkipSpace(s) != [] ==> !IsSpace(SkipSpace(s)[0])
  {
    SpacesMean(s);
  }

  lemma PartsOf(line: Bytes) returns (l: Line)
    requires DispositionText(line).Some?
    ensures IsDisposition(l) && LineText(l) == line
  {
    var behind := line[|CONTENT_DISPOSITION|..];
    var value := SkipSpace(behind);
    var rest := value[|FORM_DATA|..];
    HeadOf(line, CONTENT_DISPOSITION);
    BlanksOf(behind);
    HeadOf(value, FORM_DATA);
    BlanksOf(rest);
    l := Line(line[..|CONTENT_DISPOSITION|], behind[..Spaces(behind)], value[..|FORM_DATA|],
              rest[..Spaces(rest)], SkipSpace(rest));
  }

  // The parameters -------------------------------------------------------------------------

  /** A parameter as it is written. */
  datatype Written = Written(key: Bytes, val: Bytes, quoted: bool)

  function Value(w: Written): Bytes { if w.quoted then [QUOTATION] + w.val + [QUOTATION] else w.val }

  function TextOf(w: Written): Bytes { w.key + [EQ] + Value(w) }

  predicate IsWritten(w: Written)
  {
    && Solid(w.key, EQ) && SEMICOLON !in w.key && w.key[0] != QUOTATION
    && EQ !in w.val && SEMICOLON !in w.val
    && (!w.quoted ==> Solid(w.val, EQ) && w.val[0] != QUOTATION)
  }

  function Texts(ws: seq<Written>): seq<Bytes>
  {
    seq(|ws|, i requires 0 <= i < |ws| => TextOf(ws[i]))
  }

  /** What they are read as: of texts that are the same the first. */
  function Listed(ws: seq<Written>): seq<Param>
  {
    seq(|ws|, i requires 0 <= i < |ws| => Param(ws[i].key, ws[i].val))
  }

  lemma ValueIsSolid(w: Written)
    requires IsWritten(w)
    ensures Solid(Value(w), EQ) && SEMICOLON !in Value(w) && Unquoted(Value(w)) == w.val
  {
  }

  lemma ParamOfTwo(key: Bytes, val: Bytes)
    requires Solid(key, EQ) && Solid(val, EQ)
    ensures ParamOf(key + [EQ] + val) == [Param(Unquoted(key), Unquoted(val))]
  {
    SolidFirst(val, EQ, []);
    SolidFirst(key, EQ, val);
  }

  lemma TextIsSolid(key: Bytes, val: Bytes)
    requires Solid(key, EQ) && Solid(val, EQ) && SEMICOLON !in key && SEMICOLON !in val
    ensures Solid(key + [EQ] + val, SEMICOLON)
  {
    var text := key + [EQ] + val;
    assert text[0] == key[0] && text[|text| - 1] == val[|val| - 1];
  }

  lemma WrittenIsRead(w: Written)
    requires IsWritten(w)
    ensures ParamOf(TextOf(w)) == [Param(w.key, w.val)] && Solid(TextOf(w), SEMICOLON)
  {
    ValueIsSolid(w);
    ParamOfTwo(w.key, Value(w));
    TextIsSolid(w.key, Value(w));
  }

  predicate AllWritten(ws: seq<Written>)
  {
    && (forall i | 0 <= i < |ws| :: IsWritten(ws[i]))
    && (forall i, j | 0 <= i < j < |ws| :: TextOf(ws[i]) != TextOf(ws[j]))
  }

  lemma TextsCons(ws: seq<Written>)
    requires ws != []
    ensures Texts(ws) == [TextOf(ws[0])] + Texts(ws[1..])
    ensures Listed(ws) == [Param(ws[0].key, ws[0].val)] + Listed(ws[1..])
  {
  }

  lemma ParamsFirst(seen: set<Bytes>, text: Bytes, rest: seq<Bytes>)
    requires text !in seen
    ensures ParamsOf(seen, [text] + rest) == ParamOf(text) + ParamsOf(seen + {text}, rest)
  {
    assert ([text] + rest)[1..] == rest;
  }

  lemma {:induction false} TextsAreRead(ws: seq<Written>, seen: set<Bytes>)
    requires AllWritten(ws) && forall i | 0 <= i < |ws| :: TextOf(ws[i]) !in seen
    ensures ParamsOf(seen, Texts(ws)) == Listed(ws)
    decreases |ws|
  {
    if ws != [] {
      var text, rest := TextOf(ws[0]), ws[1..];
      WrittenIsRead(ws[0]);
      TextsCons(ws);
      ParamsFirst(seen, text, Texts(rest));
      forall i | 0 <= i < |rest|
        ensures IsWritten(rest[i]) && TextOf(rest[i]) !in seen + {text}
        ensures forall j | i < j < |rest| :: TextOf(rest[i]) != TextOf(rest[j])
      {
        assert rest[i] == ws[i + 1];
      }
      TextsAreRead(rest, seen + {text});
    }
  }

  /** Parameters that differ, with or without quotes around their values, are read in
      their order, also when blanks follow the semicolons. */
  lemma ParamsAreRead(ws: seq<Written>, blanks: Bytes)
    requires AllWritten(ws) && AllBlank(blanks) && SEMICOLON !in blanks
    ensures ParamsOf({}, Pieces(Join(Texts(ws), [SEMICOLON] + blanks), SEMICOLON)) == Listed(ws)
  {
    forall i | 0 <= i < |ws|
      ensures Solid(Texts(ws)[i], SEMICOLON)
    {
      WrittenIsRead(ws[i]);
    }
    SplitOfJoin(Texts(ws), SEMICOLON, blanks, []);
    assert [] + Join(Texts(ws), [SEMICOLON] + blanks) == Join(Texts(ws), [SEMICOLON] + blanks);
    TextsAreRead(ws, {});
  }

  /** A parameter text that comes again adds nothing. */
  lemma RepeatIsPassedOver(seen: set<Bytes>, text: Bytes, rest: seq<Bytes>)
    requires text in seen
    ensures ParamsOf(seen, [text] + rest) == ParamsOf(seen, rest)
  {
    assert ([text] + rest)[1..] == rest && seen + {text} == seen;
    assert [] + ParamsOf(seen, rest) == ParamsOf(seen, rest);
  }

  // What an entry gets ---------------------------------------------------------------------

  lemma {:induction false} FirstOfKey(params: seq<Param>, i: nat)
    requires i < |params| && forall j | 0 <= j < i :: params[j].key != params[i].key
    ensures Lookup(params, params[i].key) == Some(params[i].val)
  {
    if i > 0 {
      FirstOfKey(params[1..], i - 1);
    }
  }

  lemma {:induction false} NoneOfKey(params: seq<Param>, key: Bytes)
    requires forall j | 0 <= j < |params| :: params[j].key != key
    ensures Lookup(params, key) == None
  {
    if params != [] {
      NoneOfKey(params[1..], key);
    }
  }

  /** Without a name the form fails. */
  lemma NameIsNeeded(e: Entry, params: seq<Param>)
    requires forall j | 0 <= j < |params| :: params[j].key != NAME
    ensures WithParams(e, params) == None
  {
    NoneOfKey(params, NAME);
  }

  /** An extended file name in something else than UTF-8, or without one, fails. */
  lemma OtherCharsetFails(e: Entry, params: seq<Param>, i: nat)
    requires i < |params| && params[i].key == FILENAME_EXT && forall j | 0 <= j < i :: params[j].key != FILENAME_EXT
    requires !HasHead(params[i].val, UTF_8) || params[i].val[|UTF_8|..] == []
    ensures WithParams(e, params) == None
  {
    FirstOfKey(params, i);
  }

  /** Every byte as an escape. */
  function EscapeAll(s: Bytes): Bytes
  {
    if s == [] then [] else Escaped(s[0]) + EscapeAll(s[1..])
  }

  lemma {:induction false} EscapesAreDecoded(s: Bytes)
    ensures DecodePath(EscapeAll(s)) == s
    ensures forall c | c in EscapeAll(s) :: c == PERCENT || IsHex(c)
    ensures s != [] ==> EscapeAll(s) != []
  {
    if s != [] {
      EscapesAreDecoded(s[1..]);
      EscapeIsDecoded(UpperHex(s[0] / 16), UpperHex(s[0] % 16), EscapeAll(s[1..]));
    }
  }

  /** The parameters for a name and a file name in the extended form, with a plain one
      before it for those who do not know that. */
  function ExtendedParams(name: Bytes, plain: Bytes, charset: Bytes, filename: Bytes): seq<Written>
  {
    [Written(NAME, name, true), Written(FILENAME, plain, true),
     Written(FILENAME_EXT, charset + EscapeAll(filename), false)]
  }

  lemma ExtendedValueFits(charset: Bytes, filename: Bytes)
    requires SameLetters(charset, UTF_8) && filename != []
    ensures IsWritten(Written(FILENAME_EXT, charset + EscapeAll(filename), false))
  {
    var encoded := EscapeAll(filename);
    var val := charset + encoded;
    EscapesAreDecoded(filename);
    CharsetIsPlain(charset);
    assert val[0] == charset[0] && val[|val| - 1] == encoded[|encoded| - 1];
    assert encoded[|encoded| - 1] in encoded;
  }

  lemma ThreeKeysDiffer(a: Bytes, b: Bytes, c: Bytes)
    ensures NAME + [EQ] + a != FILENAME + [EQ] + b && NAME + [EQ] + a != FILENAME_EXT + [EQ] + c
    ensures FILENAME + [EQ] + b != FILENAME_EXT + [EQ] + c
  {
    assert (NAME + [EQ] + a)[0] == 110 && (FILENAME + [EQ] + b)[0] == 102 && (FILENAME_EXT + [EQ] + c)[0] == 102;
    assert (FILENAME + [EQ] + b)[8] == EQ && (FILENAME_EXT + [EQ] + c)[8] == 42;
  }

  lemma ExtendedIsWritten(name: Bytes, plain: Bytes, charset: Bytes, filename: Bytes)
    requires EQ !in name && SEMICOLON !in name && EQ !in plain && SEMICOLON !in plain
    requires SameLetters(charset, UTF_8) && filename != []
    ensures AllWritten(ExtendedParams(name, plain, charset, filename))
  {
    ExtendedValueFits(charset, filename);
    ThreeKeysDiffer([QUOTATION] + name + [QUOTATION], [QUOTATION] + plain + [QUOTATION], charset + EscapeAll(filename));
  }

  lemma CharsetIsPlain(charset: Bytes)
    requires SameLetters(charset, UTF_8)
    ensures EQ !in charset && SEMICOLON !in charset && charset[0] != QUOTATION && !IsBlank(charset[0])
  {
    forall i | 0 <= i < |charset|
      ensures charset[i] != EQ && charset[i] != SEMICOLON && charset[i] != QUOTATION && !IsBlank(charset[i])
    {
      assert Lower(charset[i]) == Lower(UTF_8[i]);
    }
  }

  /** In the extended form any file name arrives, and overrides the plain one. */
  lemma AnyFilenameArrives(e: Entry, name: Bytes, plain: Bytes, charset: Bytes, filename: Bytes, blanks: Bytes)
    requires EQ !in name && SEMICOLON !in name && EQ !in plain && SEMICOLON !in plain
    requires SameLetters(charset, UTF_8) && filename != [] && AllBlank(blanks) && SEMICOLON !in blanks
    ensures var ws := ExtendedParams(name, plain, charset, filename);
            WithParams(e, ParamsOf({}, Pieces(Join(Texts(ws), [SEMICOLON] + blanks), SEMICOLON)))
            == Some(e.(name := name, filename := filename))
  {
    var ws := ExtendedParams(name, plain, charset, filename);
    ExtendedIsWritten(name, plain, charset, filename);
    ParamsAreRead(ws, blanks);
    FirstOfKey(Listed(ws), 0);
    FirstOfKey(Listed(ws), 1);
    FirstOfKey(Listed(ws), 2);
    HeadIsTaken(charset, EscapeAll(filename), UTF_8);
    EscapesAreDecoded(filename);
  }

  /** Lines of any other name leave the entry as it is. */
  lemma OtherLinesAreIgnored(e: Entry, line: Bytes)
    requires !HasHead(line, CONTENT_TYPE_KEY) && !HasHead(line, CONTENT_DISPOSITION)
    ensures WithLine(e, line) == Some(e)
  {
  }

  /** The content type is taken without the blanks around it, whatever the letters of
      the name. */
  lemma TypeIsRead(e: Entry, word: Bytes, before: Bytes, contentType: Bytes, behind: Bytes)
    requires SameLetters(word, CONTENT_TYPE_KEY) && AllBlank(before) && AllBlank(behind)
    requires contentType != [] && !IsBlank(contentType[0]) && !IsBlank(contentType[|contentType| - 1])
    ensures WithLine(e, word + (before + contentType + behind)) == Some(e.(contentType := contentType))
  {
    HeadIsTaken(word, before + contentType + behind, CONTENT_TYPE_KEY);
    CoreStays(before, contentType, behind);
  }
}
