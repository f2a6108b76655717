/** Form-data items, written by the serialiser and read back by the parser: for
    exactly which names, file names and content types that gives the items. */
module MultipartItems {
  import opened Bytes
  import opened Common
  import CText
  import opened Text
  import opened TextPieces
  import opened Multipart
  import opened MultipartProperties
  import opened MultipartWriter
  import PathEscapes
  import F = FormDataHeaders

  // The result -------------------------------------------------------------------------

  /** Text that the parameters of a Content-Disposition line can carry.  A quote is
      no harm; what separates parameters, keys or lines is. */
  predicate Clean(text: Bytes)
  {
    F.SEMICOLON !in text && EQ !in text && CR !in text && LF !in text
  }

  predicate Readable(item: Item)
  {
    Clean(item.name) && Clean(item.filename) && Trimmed(item.contentType) == item.contentType
  }

  /** What the parser makes of a part. */
  function ReadPart(p: Part): Option<Item>
  {
    match F.WithLines(F.EMPTY, p.lines)
    case None => None
    case Some(e) => Some(Item(e.name, e.filename, e.contentType, p.content))
  }

  function ReadParts(parts: seq<Part>): Option<seq<Item>>
  {
    if parts == [] then Some([])
    else
      match (ReadPart(parts[0]), ReadParts(parts[1..]))
      case (Some(item), Some(items)) => Some([item] + items)
      case _ => None
  }

  /** The parser with the treatment of header lines it has: `parseHeader` for the
      syntax of a line, then `FormDataHeaders`. */
  function FormSetup(boundary: Bytes, parseHeader: Bytes -> bool, header: seq<Part> -> bool,
                     content: seq<Event> -> bool): Setup
  {
    SetupFor(boundary, Callbacks(line => parseHeader(line) && F.Taken(line), header, content))
  }

  /** Every call succeeds, the form ends valid, and its parts read as the items. */
  ghost predicate ComesBack(s: Setup, items: seq<Item>, blocks: seq<Bytes>)
  {
    var (end, ok) := FeedAll(s, INITIAL, blocks);
    ok && end.valid && ReadParts(Assemble(end.events)) == Some(items)
  }

  /** The parser that would take every line of correct syntax. */
  function Lenient(s: Setup, parseHeader: Bytes -> bool): Setup { s.(cb := s.cb.(line := parseHeader)) }

  // One parameter ----------------------------------------------------------------------

  /** A key as it is written. */
  predicate IsWord(word: Bytes)
  {
    Solid(word, EQ) && F.SEMICOLON !in word && word[0] != F.QUOTATION
  }

  function Opening(word: Bytes): Bytes { word + [EQ] + QUOTE }

  /** A value that separates nothing. */
  predicate Plain(val: Bytes) { F.SEMICOLON !in val && EQ !in val }

  lemma UnquotedKeeps(s: Bytes)
    ensures |F.Unquoted(s)| <= |s| && forall c | c in F.Unquoted(s) :: c in s
  {
  }

  lemma ParamOfPieces(word: Bytes, rest: Bytes)
    requires IsWord(word)
    ensures var kvs := Pieces(rest, EQ);
            F.ParamOf(word + [EQ] + rest) == [Param(word, F.Unquoted(if kvs == [] then [] else kvs[|kvs| - 1]))]
  {
    SolidFirst(word, EQ, rest);
  }

  lemma LastIsPlain(text: Bytes)
    requires F.SEMICOLON !in text
    ensures var kvs := Pieces(text, EQ); Plain(F.Unquoted(if kvs == [] then [] else kvs[|kvs| - 1]))
  {
    var kvs := Pieces(text, EQ);
    PiecesAreOf(text, EQ);
    if kvs != [] {
      var last := kvs[|kvs| - 1];
      assert PieceOf(last, text, EQ);
      UnquotedKeeps(last);
    }
  }

  /** Whatever follows the opening of a parameter, its value is plain. */
  lemma ParamOfOpening(word: Bytes, w: Bytes) returns (val: Bytes)
    requires IsWord(word) && F.SEMICOLON !in w
    ensures F.ParamOf(Opening(word) + w) == [Param(word, val)] && Plain(val)
  {
    var kvs := Pieces(QUOTE + w, EQ);
    ParamOfPieces(word, QUOTE + w);
    Reassociate(word + [EQ], QUOTE, w);
    LastIsPlain(QUOTE + w);
    val := F.Unquoted(if kvs == [] then [] else kvs[|kvs| - 1]);
  }

  lemma QuotedIsSolid(text: Bytes, d: byte)
    requires d !in text && d != F.QUOTATION
    ensures Solid(QUOTE + text + QUOTE, d) && F.Unquoted(QUOTE + text + QUOTE) == text
  {
  }

  /** A value without an equals sign is read as it was written. */
  lemma ParamOfText(word: Bytes, text: Bytes)
    requires IsWord(word) && EQ !in text
    ensures F.ParamOf(Opening(word) + text + QUOTE) == [Param(word, text)]
  {
    var quoted := QUOTE + text + QUOTE;
    QuotedIsSolid(text, EQ);
    SolidFirst(quoted, EQ, []);
    SolidFirst(word, EQ, quoted);
    assert Opening(word) + text + QUOTE == word + [EQ] + quoted;
  }

  /** The first parameter of a text, whatever follows its opening. */
  lemma FirstParam(word: Bytes, v: Bytes, seen: set<Bytes>) returns (val: Bytes, more: seq<Param>)
    requires IsWord(word) && forall p | p in seen :: p == [] || p[0] != word[0]
    ensures Plain(val)
    ensures F.ParamsOf(seen, Pieces(Opening(word) + v, F.SEMICOLON)) == [Param(word, val)] + more
  {
    var w := FirstPiece(Opening(word), v, F.SEMICOLON);
    val := ParamOfOpening(word, w);
    var pieces := Pieces(Opening(word) + v, F.SEMICOLON);
    more := F.ParamsOf(seen + {pieces[0]}, pieces[1..]);
  }

  /** The same when its value is followed by the end, or by the next parameter. */
  lemma TextParam(word: Bytes, text: Bytes, next: Bytes, seen: set<Bytes>)
    requires IsWord(word) && Plain(text) && forall p | p in seen :: p == [] || p[0] != word[0]
    ensures var piece := Opening(word) + text + QUOTE;
            && F.ParamsOf(seen, Pieces(piece, F.SEMICOLON)) == [Param(word, text)]
            && F.ParamsOf(seen, Pieces(piece + [F.SEMICOLON] + next, F.SEMICOLON))
            == [Param(word, text)] + F.ParamsOf(seen + {piece}, Pieces(next, F.SEMICOLON))
  {
    var piece := Opening(word) + text + QUOTE;
    assert Solid(piece, F.SEMICOLON);
    SolidFirst(piece, F.SEMICOLON, next);
    ParamOfText(word, text);
    var none: seq<Bytes> := [];
    assert [piece][1..] == none && F.ParamsOf(seen + {piece}, none) == [];
    assert ([piece] + Pieces(next, F.SEMICOLON))[1..] == Pieces(next, F.SEMICOLON);
  }

  // The parameters of an item ------------------------------------------------------------

  function ItemParams(item: Item): seq<Param>
  {
    F.ParamsOf({}, Pieces(DispositionParams(item), F.SEMICOLON))
  }

  lemma WordsAreWords()
    ensures IsWord(F.NAME) && IsWord(F.FILENAME)
    ensures NAME_OPEN == Opening(F.NAME) && FILENAME_OPEN == Opening(F.FILENAME)
  {
  }

  lemma LookupFirst(p: Param, more: seq<Param>, key: Bytes)
    ensures F.Lookup([p] + more, key) == if p.key == key then Some(p.val) else F.Lookup(more, key)
  {
    assert ([p] + more)[1..] == more;
  }

  /** The name that is read is plain, whatever was written. */
  lemma NameIsPlain(item: Item)
    ensures var name := F.Lookup(ItemParams(item), F.NAME); name.Some? && Plain(name.value)
  {
    WordsAreWords();
    var rest := DispositionParams(item)[|NAME_OPEN|..];
    assert DispositionParams(item) == NAME_OPEN + rest;
    var val, more := FirstParam(F.NAME, rest, {});
    LookupFirst(Param(F.NAME, val), more, F.NAME);
  }

  lemma LeadingBlank(s: Bytes, d: byte)
    requires d != SPACE
    ensures Pieces([SPACE] + s, d) == Pieces(s, d)
  {
    var t, i := [SPACE] + s, Index(s, d);
    assert t[..1 + i] == [SPACE] + s[..i] && t[1..] == s;
    DropFrontBlank([SPACE], s[..i]);
    IndexIs(t, d, 1 + i);
    assert s[..|s|] == s && t[..|t|] == t;
    if i < |s| {
      assert t[i + 2..] == s[i + 1..];
    }
  }

  /** With a plain name the rest of the parameters are those of the file name. */
  lemma PlainName(item: Item)
    requires Plain(item.name)
    ensures ItemParams(item) == [Param(F.NAME, item.name)]
      + if item.filename == [] then [] else F.ParamsOf({NameText(item)}, Pieces(FilenameText(item), F.SEMICOLON))
  {
    WordsAreWords();
    var next := [SPACE] + FilenameText(item);
    TextParam(F.NAME, item.name, next, {});
    assert {} + {NameText(item)} == {NameText(item)};
    if item.filename == [] {
      assert DispositionParams(item) == NameText(item);
    } else {
      LeadingBlank(FilenameText(item), F.SEMICOLON);
      Reassociate(NameText(item), [F.SEMICOLON], next);
    }
  }

  /** A key and its value leave room for nothing else. */
  lemma ValueIsShort(piece: Bytes, val: Bytes)
    requires Param(F.FILENAME_EXT, val) in F.ParamOf(piece)
    ensures |val| == 0 || |val| + 10 <= |piece|
  {
    var kvs := Pieces(piece, EQ);
    UnquotedKeeps(kvs[0]);
    if |kvs| > 1 {
      FirstAndLast(piece, EQ);
      UnquotedKeeps(kvs[|kvs| - 1]);
    }
  }

  lemma {:induction false} ExtendedIsShort(seen: set<Bytes>, pieces: seq<Bytes>, most: nat)
    requires forall p | p in pieces :: |p| <= most
    ensures var val := F.Lookup(F.ParamsOf(seen, pieces), F.FILENAME_EXT);
            val.Some? ==> |val.value| == 0 || |val.value| + 10 <= most
    decreases |pieces|
  {
    if pieces != [] {
      var first, rest := F.NewParams(seen, pieces[0]), F.ParamsOf(seen + {pieces[0]}, pieces[1..]);
      ExtendedIsShort(seen + {pieces[0]}, pieces[1..], most);
      if first == [] {
        assert first + rest == rest;
      } else {
        assert first == [first[0]];
        LookupFirst(first[0], rest, F.FILENAME_EXT);
        if first[0].key == F.FILENAME_EXT {
          ValueIsShort(pieces[0], first[0].val);
        }
      }
    }
  }

  /** A file name read from `filename*` is shorter than the one written. */
  lemma ExtendedNameIsShorter(item: Item, val: Bytes)
    requires item.filename != []
    requires var params := F.ParamsOf({NameText(item)}, Pieces(FilenameText(item), F.SEMICOLON));
             F.Lookup(params, F.FILENAME_EXT) == Some(val)
    ensures var name := F.ExtendedName(val); name.Some? ==> |name.value| < |item.filename|
  {
    var pieces := Pieces(FilenameText(item), F.SEMICOLON);
    PiecesAreOf(FilenameText(item), F.SEMICOLON);
    assert forall p | p in pieces :: PieceOf(p, FilenameText(item), F.SEMICOLON);
    ExtendedIsShort({NameText(item)}, pieces, |FilenameText(item)|);
    if |F.UTF_8| < |val| {
      PathEscapes.DecodingShortens(val[|F.UTF_8|..]);
    }
  }

  /** Of a file name that is not plain, something else is read. */
  lemma FilenameIsPlain(item: Item)
    requires item.filename != []
    ensures var params := F.ParamsOf({NameText(item)}, Pieces(FilenameText(item), F.SEMICOLON));
            var filename := F.Lookup(params, F.FILENAME); filename.Some? && Plain(filename.value)
  {
    WordsAreWords();
    assert FilenameText(item) == FILENAME_OPEN + (item.filename + QUOTE);
    assert NameText(item)[0] == F.NAME[0];
    var val, more := FirstParam(F.FILENAME, item.filename + QUOTE, {NameText(item)});
    LookupFirst(Param(F.FILENAME, val), more, F.FILENAME);
  }

  lemma PlainFilename(item: Item)
    requires item.filename != [] && Plain(item.filename)
    ensures F.ParamsOf({NameText(item)}, Pieces(FilenameText(item), F.SEMICOLON))
         == [Param(F.FILENAME, item.filename)]
  {
    WordsAreWords();
    assert NameText(item)[0] == F.NAME[0];
    TextParam(F.FILENAME, item.filename, [], {NameText(item)});
  }

  /** What the parameters read as. */
  ghost predicate ReadsAs(e: Option<F.Entry>, item: Item)
  {
    e.Some? && e.value.name == item.name && e.value.filename == item.filename
  }

  lemma LookupTwo(a: Param, b: Param, key: Bytes)
    ensures F.Lookup([a], key) == if a.key == key then Some(a.val) else None
    ensures F.Lookup([a, b], key)
         == if a.key == key then Some(a.val) else if b.key == key then Some(b.val) else None
  {
    var none: seq<Param> := [];
    assert [a] == [a] + none && [b] == [b] + none && [a, b] == [a] + [b];
    LookupFirst(a, none, key);
    LookupFirst(b, none, key);
    LookupFirst(a, [b], key);
  }

  lemma PlainParamsRead(item: Item)
    requires Plain(item.name) && Plain(item.filename)
    ensures ReadsAs(F.WithParams(F.EMPTY, ItemParams(item)), item)
  {
    var name, filename := Param(F.NAME, item.name), Param(F.FILENAME, item.filename);
    PlainName(item);
    LookupTwo(name, filename, F.NAME);
    LookupTwo(name, filename, F.FILENAME);
    LookupTwo(name, filename, F.FILENAME_EXT);
    if item.filename == [] {
      assert ItemParams(item) == [name];
    } else {
      PlainFilename(item);
      assert ItemParams(item) == [name, filename];
    }
  }

  lemma OtherParamsDoNot(item: Item)
    requires !Plain(item.name) || !Plain(item.filename)
    ensures !ReadsAs(F.WithParams(F.EMPTY, ItemParams(item)), item)
  {
    NameIsPlain(item);
    if Plain(item.name) {
      var params := F.ParamsOf({NameText(item)}, Pieces(FilenameText(item), F.SEMICOLON));
      PlainName(item);
      FilenameIsPlain(item);
      LookupFirst(Param(F.NAME, item.name), params, F.FILENAME);
      LookupFirst(Param(F.NAME, item.name), params, F.FILENAME_EXT);
      var extended := F.Lookup(params, F.FILENAME_EXT);
      if extended.Some? {
        ExtendedNameIsShorter(item, extended.value);
      }
    }
  }

  // The lines of an item ---------------------------------------------------------------------

  lemma HeadMatches(head: Bytes, rest: Bytes)
    ensures F.HasHead(head + rest, head) && (head + rest)[|head|..] == rest
  {
  }

  lemma OneSpace(s: Bytes)
    requires s != [] && !CText.IsSpace(s[0])
    ensures F.SkipSpace([SPACE] + s) == s
  {
    var t := [SPACE] + s;
    assert t[1..] == s;
    assert CText.Spaces(s) == 0 && CText.Spaces(t) == 1;
  }

  lemma DispositionIsFound(params: Bytes)
    requires params != [] && !CText.IsSpace(params[0])
    ensures F.DispositionText(DISPOSITION + params) == if CR in params || LF in params then None else Some(params)
  {
    var value := F.FORM_DATA + ([SPACE] + params);
    assert DISPOSITION + params == F.CONTENT_DISPOSITION + ([SPACE] + value);
    HeadMatches(F.CONTENT_DISPOSITION, [SPACE] + value);
    OneSpace(value);
    HeadMatches(F.FORM_DATA, [SPACE] + params);
    OneSpace(params);
  }

  lemma NotATypeLine(params: Bytes)
    ensures !F.HasHead(DISPOSITION + params, F.CONTENT_TYPE_KEY)
  {
    assert F.CONTENT_DISPOSITION[8] == (DISPOSITION + params)[8];
  }

  lemma LineBytes(item: Item, c: byte)
    requires c == CR || c == LF
    ensures c in DispositionParams(item) <==> c in item.name || c in item.filename
  {
    assert c !in NAME_OPEN && c !in FILENAME_OPEN && c !in QUOTE;
    assert c in NameText(item) <==> c in item.name;
    assert c in FilenameText(item) <==> c in item.filename;
  }

  lemma DispositionReads(item: Item)
    ensures ReadsAs(F.WithLine(F.EMPTY, DispositionLine(item)), item) <==> Clean(item.name) && Clean(item.filename)
  {
    var params := DispositionParams(item);
    assert params[0] == F.NAME[0];
    NotATypeLine(params);
    DispositionIsFound(params);
    LineBytes(item, CR);
    LineBytes(item, LF);
    if Plain(item.name) && Plain(item.filename) {
      PlainParamsRead(item);
    } else {
      OtherParamsDoNot(item);
    }
  }

  /** Such a line says nothing about the content type. */
  lemma DispositionHasNoType(item: Item)
    ensures var e := F.WithLine(F.EMPTY, DispositionLine(item)); e.Some? ==> e.value.contentType == []
  {
    NotATypeLine(DispositionParams(item));
  }

  lemma TypeReads(e: F.Entry, contentType: Bytes)
    ensures F.WithLine(e, CONTENT_TYPE + contentType) == Some(e.(contentType := Trimmed(contentType)))
  {
    assert CONTENT_TYPE + contentType == F.CONTENT_TYPE_KEY + ([SPACE] + contentType);
    HeadMatches(F.CONTENT_TYPE_KEY, [SPACE] + contentType);
    DropFrontBlank([SPACE], contentType);
  }

  lemma WithFirstLine(line: Bytes, rest: seq<Bytes>)
    ensures F.WithLines(F.EMPTY, [line] + rest) ==
            match F.WithLine(F.EMPTY, line)
            case None => None
            case Some(e) => F.WithLines(e, rest)
  {
    assert ([line] + rest)[1..] == rest;
  }

  lemma TypeLinesRead(e: F.Entry, contentType: Bytes)
    requires e.contentType == []
    ensures F.WithLines(e, TypeLines(contentType)) == Some(e.(contentType := Trimmed(contentType)))
  {
    if contentType != [] {
      TypeReads(e, contentType);
      assert TypeLines(contentType)[1..] == [];
    }
  }

  /** Written and read back, an item is itself exactly if it is readable. */
  lemma PartReadsIff(item: Item)
    ensures ReadPart(ItemPart(item)) == Some(item) <==> Readable(item)
  {
    var line := DispositionLine(item);
    assert ItemPart(item).lines == [line] + TypeLines(item.contentType);
    WithFirstLine(line, TypeLines(item.contentType));
    DispositionReads(item);
    DispositionHasNoType(item);
    var e := F.WithLine(F.EMPTY, line);
    if e.Some? {
      TypeLinesRead(e.value, item.contentType);
    }
  }

  lemma {:induction false} PartsReadIff(items: seq<Item>)
    ensures ReadParts(ItemParts(items)) == Some(items) <==> AllReadable(items)
  {
    if items != [] {
      var rest := items[1..];
      PartReadsIff(items[0]);
      PartsReadIff(rest);
      assert ItemParts(items) == [ItemPart(items[0])] + ItemParts(rest);
      ReadPartsFirst(ItemPart(items[0]), ItemParts(rest), items[0], rest);
      ReadableCons(items);
    }
  }

  predicate AllReadable(items: seq<Item>)
  {
    forall i | 0 <= i < |items| :: Readable(items[i])
  }

  lemma ReadableCons(items: seq<Item>)
    requires items != []
    ensures items == [items[0]] + items[1..]
    ensures AllReadable(items) <==> Readable(items[0]) && AllReadable(items[1..])
  {
    assert items == [items[0]] + items[1..];
  }

  lemma ReadPartsFirst(p: Part, parts: seq<Part>, item: Item, items: seq<Item>)
    ensures ReadParts([p] + parts) == Some([item] + items)
       <==> ReadPart(p) == Some(item) && ReadParts(parts) == Some(items)
  {
    assert ([p] + parts)[1..] == parts;
    match (ReadPart(p), ReadParts(parts))
    case (Some(i), Some(others)) =>
      assert ([i] + others)[0] == i && ([i] + others)[1..] == others;
      assert ([item] + items)[0] == item && ([item] + items)[1..] == items;
    case _ =>
  }

  // A parser that takes fewer lines ------------------------------------------------------------

  /** The same parser, but for some header lines that only `s'` takes. */
  ghost predicate Stricter(s: Setup, s': Setup)
  {
    && s' == s.(cb := s.cb.(line := s'.cb.line))
    && forall l :: s.cb.line(l) ==> s'.cb.line(l)
  }

  lemma {:induction false} StricterHeaders(s: Setup, s': Setup, c: Config)
    requires Stricter(s, s') && c.state.HeaderLines?
    ensures var r := ReadHeaders(s.cb, c); r == ReadHeaders(s'.cb, c) || r.1 == Stop(false)
    decreases |c.win|
  {
    var pos := Find(c.win, CRLF);
    if 0 < pos < |c.win| && s.cb.line(c.win[..pos]) {
      StricterHeaders(s, s', c.(win := c.win[pos + 2..], lines := c.lines + [c.win[..pos]]));
    }
  }

  lemma StricterStep(s: Setup, s': Setup, c: Config)
    requires Stricter(s, s') && c.win != []
    ensures Step(s, c) == Step(s', c) || Step(s, c).1 == Stop(false)
  {
    if c.state.HeaderLines? {
      StricterHeaders(s, s', c);
    }
  }

  lemma {:induction false} StricterRun(s: Setup, s': Setup, c: Config)
    requires Stricter(s, s')
    ensures Run(s, c).1 ==> Run(s, c) == Run(s', c)
    decreases |c.win|, if c.state.NewEntry? then 1 else 0
  {
    if c.win != [] {
      StricterStep(s, s', c);
      if Step(s, c).1.Continue? {
        StricterRun(s, s', Step(s, c).0);
      }
    }
  }

  /** A parser that takes fewer lines fails, or does the same. */
  lemma {:induction false} StricterFeedAll(s: Setup, s': Setup, c: Config, blocks: seq<Bytes>)
    requires Stricter(s, s')
    ensures FeedAll(s, c, blocks).1 ==> FeedAll(s, c, blocks) == FeedAll(s', c, blocks)
    decreases |blocks|
  {
    if blocks != [] {
      StricterRun(s, s', c.(win := c.win + blocks[0]));
      StricterFeedAll(s, s', Feed(s, c, blocks[0]).0, blocks[1..]);
    }
  }

  // The round trip -----------------------------------------------------------------------------

  /** What is asked of an item besides: lines of correct syntax, below the limit
      and without CRLF, and content without the delimiter. */
  ghost predicate Sendable(s: Setup, parseHeader: Bytes -> bool, item: Item)
  {
    PartFits(Lenient(s, parseHeader), ItemPart(item))
  }

  lemma {:induction false} TakenLines(lines: seq<Bytes>, e: F.Entry)
    requires F.WithLines(e, lines).Some?
    ensures forall l | l in lines :: F.Taken(l)
    decreases |lines|
  {
    if lines != [] {
      F.TakenAnywhere(e, lines[0]);
      TakenLines(lines[1..], F.WithLine(e, lines[0]).value);
      assert forall l | l in lines :: l == lines[0] || l in lines[1..];
    }
  }

  lemma ReadablePartFits(boundary: Bytes, parseHeader: Bytes -> bool, header: seq<Part> -> bool,
                         content: seq<Event> -> bool, item: Item)
    requires var s := FormSetup(boundary, parseHeader, header, content); Sendable(s, parseHeader, item)
    requires Readable(item)
    ensures PartFits(FormSetup(boundary, parseHeader, header, content), ItemPart(item))
  {
    var s := FormSetup(boundary, parseHeader, header, content);
    PartReadsIff(item);
    TakenLines(ItemPart(item).lines, F.EMPTY);
    forall l | l in ItemPart(item).lines
      ensures LineFits(s.cb, l)
    {
      assert LineFits(Lenient(s, parseHeader).cb, l) && F.Taken(l);
    }
  }

  /** For every cut of the serialised body the items come back if and only if in
      each of them name and file name hold no semicolon, equals sign, CR or LF, and
      the content type has no blank at either end. */
  lemma ItemsComeBackIffReadable(boundary: Bytes, parseHeader: Bytes -> bool, header: seq<Part> -> bool,
                                 content: seq<Event> -> bool, items: seq<Item>, blocks: seq<Bytes>)
    requires CR !in boundary && items != []
    requires var s := FormSetup(boundary, parseHeader, header, content);
             ReceiversAccept(s.cb) && forall i | 0 <= i < |items| :: Sendable(s, parseHeader, items[i])
    requires Concat(blocks) == Serialized(boundary, ItemParts(items))
    ensures ComesBack(FormSetup(boundary, parseHeader, header, content), items, blocks)
       <==> AllReadable(items)
  {
    var s := FormSetup(boundary, parseHeader, header, content);
    var s' := Lenient(s, parseHeader);
    var parts := ItemParts(items);
    PartsReadIff(items);
    if AllReadable(items) {
      forall i | 0 <= i < |items|
        ensures PartFits(s, parts[i])
      {
        ReadablePartFits(boundary, parseHeader, header, content, items[i]);
      }
      AnySplitGivesThePartsBack(s, parts, blocks);
    } else {
      AnySplitGivesThePartsBack(s', parts, blocks);
      StricterFeedAll(s, s', INITIAL, blocks);
    }
  }

  /** Two items that are written alike: a quote in a name is not escaped. */
  lemma InjectedFilename(contentType: Bytes, content: Bytes)
    ensures var a := Item([97] + QUOTE + [F.SEMICOLON, SPACE] + FILENAME_OPEN + [98], [], contentType, content);
            var b := Item([97], [98], contentType, content);
            && a != b && ItemPart(a) == ItemPart(b)
            && (Readable(b) ==> ReadPart(ItemPart(a)) == Some(b))
  {
    var a := Item([97] + QUOTE + [F.SEMICOLON, SPACE] + FILENAME_OPEN + [98], [], contentType, content);
    var b := Item([97], [98], contentType, content);
    assert |a.name| > 1;
    Alike([97], [98]);
    PartReadsIff(b);
  }

  lemma Alike(name: Bytes, filename: Bytes)
    ensures NAME_OPEN + (name + QUOTE + [F.SEMICOLON, SPACE] + FILENAME_OPEN + filename) + QUOTE + []
         == NAME_OPEN + name + QUOTE + ([F.SEMICOLON] + ([SPACE] + (FILENAME_OPEN + filename + QUOTE)))
  {
  }
}
