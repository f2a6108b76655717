/** Form-data items through the parser as it is, with `parse_header` and the
    reader of header lines: for exactly which items that gives them back. */
module MultipartFormData {
  import opened Bytes
  import opened Common
  import opened Text
  import opened Multipart
  import opened MultipartProperties
  import opened MultipartWriter
  import opened MultipartItems
  import H = HeaderFields
  import C = Chunked
  import F = FormDataHeaders

  // The result -------------------------------------------------------------------------

  function HasSyntax(line: Bytes): bool { H.ParseHeader(line).Parsed? }

  /** The parser with the treatment of header lines it has. */
  function FullSetup(boundary: Bytes, header: seq<Part> -> bool, content: seq<Event> -> bool): Setup
  {
    FormSetup(boundary, HasSyntax, header, content)
  }

  /** Text that a name or file name can be: visible bytes and blanks, and nothing
      that separates parameters. */
  predicate IsParamText(text: Bytes)
  {
    H.IsFieldText(text) && F.SEMICOLON !in text && EQ !in text
  }

  predicate Writable(item: Item)
  {
    IsParamText(item.name) && IsParamText(item.filename) && H.IsFieldValue(item.contentType)
  }

  /** Lines below the limit and without CRLF, and content without the delimiter. */
  ghost predicate Separable(d: Bytes, item: Item)
  {
    && (forall l | l in ItemPart(item).lines :: |l| < HEADER_MAX_LENGTH && !Occurs(l, CRLF))
    && !Occurs(item.content, d)
  }

  ghost predicate AllSeparable(d: Bytes, items: seq<Item>)
  {
    forall i | 0 <= i < |items| :: Separable(d, items[i])
  }

  /** For every cut of the serialised body the items come back if and only if in
      each of them name and file name consist of visible bytes and blanks other
      than semicolon and equals sign, and the content type is a field value. */
  lemma ItemsComeBackIffWritable(boundary: Bytes, header: seq<Part> -> bool, content: seq<Event> -> bool,
                                 items: seq<Item>, blocks: seq<Bytes>)
    requires CR !in boundary && items != [] && ReceiversAccept(FullSetup(boundary, header, content).cb)
    requires AllSeparable(CRLF + DASHES + boundary, items)
    requires Concat(blocks) == Serialized(boundary, ItemParts(items))
    ensures ComesBack(FullSetup(boundary, header, content), items, blocks)
       <==> forall i | 0 <= i < |items| :: Writable(items[i])
  {
    if forall i | 0 <= i < |items| :: Writable(items[i]) {
      WritableComeBack(boundary, header, content, items, blocks);
    } else if ComesBack(FullSetup(boundary, header, content), items, blocks) {
      ThoseThatComeBackAreWritable(boundary, header, content, items, blocks);
    }
  }

  lemma WritableComeBack(boundary: Bytes, header: seq<Part> -> bool, content: seq<Event> -> bool,
                         items: seq<Item>, blocks: seq<Bytes>)
    requires CR !in boundary && items != [] && ReceiversAccept(FullSetup(boundary, header, content).cb)
    requires AllSeparable(CRLF + DASHES + boundary, items)
    requires Concat(blocks) == Serialized(boundary, ItemParts(items))
    requires forall i | 0 <= i < |items| :: Writable(items[i])
    ensures ComesBack(FullSetup(boundary, header, content), items, blocks)
  {
    var s := FullSetup(boundary, header, content);
    forall i | 0 <= i < |items|
      ensures Readable(items[i]) && MultipartItems.Sendable(s, HasSyntax, items[i])
    {
      assert Separable(s.closing, items[i]);
      WritableIsSendable(s, items[i]);
    }
    ItemsComeBackIffReadable(boundary, HasSyntax, header, content, items, blocks);
  }

  lemma ThoseThatComeBackAreWritable(boundary: Bytes, header: seq<Part> -> bool, content: seq<Event> -> bool,
                                     items: seq<Item>, blocks: seq<Bytes>)
    requires CR !in boundary && items != [] && ReceiversAccept(FullSetup(boundary, header, content).cb)
    requires AllSeparable(CRLF + DASHES + boundary, items)
    requires Concat(blocks) == Serialized(boundary, ItemParts(items))
    requires ComesBack(FullSetup(boundary, header, content), items, blocks)
    ensures forall i | 0 <= i < |items| :: Writable(items[i])
  {
    var s := FullSetup(boundary, header, content);
    PartsArriveTaken(s, items, blocks);
    PartsReadIff(items);
    forall i | 0 <= i < |items|
      ensures Writable(items[i])
    {
      assert ItemParts(items)[i] == ItemPart(items[i]);
      TakenIsWritable(s, items[i]);
    }
  }

  /** If every call succeeds, the parts of the items arrive, and all their lines
      were taken. */
  lemma PartsArriveTaken(s: Setup, items: seq<Item>, blocks: seq<Bytes>)
    requires s == SetupFor(s.boundary, s.cb) && CR !in s.boundary && ReceiversAccept(s.cb)
    requires items != [] && AllSeparable(s.closing, items)
    requires Concat(blocks) == Serialized(s.boundary, ItemParts(items))
    requires FeedAll(s, INITIAL, blocks).1
    ensures Assemble(FeedAll(s, INITIAL, blocks).0.events) == ItemParts(items)
    ensures forall p | p in ItemParts(items) :: PartTaken(s.cb, p)
  {
    var lenient := Lenient(s, AnyLine);
    forall p | p in ItemParts(items)
      ensures PartFits(lenient, p)
    {
      var i :| 0 <= i < |items| && p == ItemPart(items[i]);
      SeparableFits(s, items[i]);
    }
    AnySplitGivesThePartsBack(lenient, ItemParts(items), blocks);
    StricterFeedAll(s, lenient, INITIAL, blocks);
    FeedAllTakes(s, INITIAL, blocks);
  }

  lemma SeparableFits(s: Setup, item: Item)
    requires Separable(s.closing, item)
    ensures PartFits(Lenient(s, AnyLine), ItemPart(item))
  {
    LinesOfItem(item);
    assert CONTENT_TYPE != [] && DispositionLine(item)[0] == DISPOSITION[0];
  }

  function AnyLine(line: Bytes): bool { true }

  // Only lines that were taken are in a part ----------------------------------------------

  ghost predicate AllTaken(cb: Callbacks, lines: seq<Bytes>)
  {
    forall l | l in lines :: cb.line(l)
  }

  ghost predicate PartTaken(cb: Callbacks, p: Part) { AllTaken(cb, p.lines) }

  ghost predicate Taken(cb: Callbacks, c: Config)
  {
    AllTaken(cb, c.lines) && forall p | p in Assemble(c.events) :: PartTaken(cb, p)
  }

  lemma EventTakes(cb: Callbacks, c: Config, e: Event)
    requires Taken(cb, c) && (e.PartHeader? ==> AllTaken(cb, e.lines))
    ensures forall p | p in Assemble(c.events + [e]) :: PartTaken(cb, p)
  {
    AssembleSnoc(c.events, e);
    var parts := Assemble(c.events);
    if e.PartData? && parts != [] {
      assert PartTaken(cb, parts[|parts| - 1]);
    }
  }

  lemma {:induction false} HeadersTake(cb: Callbacks, c: Config)
    requires Taken(cb, c) && c.state.HeaderLines?
    ensures Taken(cb, ReadHeaders(cb, c).0)
    decreases |c.win|
  {
    var pos := Find(c.win, CRLF);
    EventTakes(cb, c, PartHeader(c.lines));
    if 0 < pos < |c.win| && cb.line(c.win[..pos]) {
      HeadersTake(cb, c.(win := c.win[pos + 2..], lines := c.lines + [c.win[..pos]]));
    }
  }

  lemma DeliverTakes(cb: Callbacks, c: Config, n: nat, skip: nat, next: State, onwards: Status)
    requires Taken(cb, c) && n + skip <= |c.win|
    ensures Taken(cb, Deliver(cb, c, n, skip, next, onwards).0)
  {
    EventTakes(cb, c, PartData(c.win[..n]));
  }

  lemma BodyTakes(cb: Callbacks, d: Delimiter, c: Config)
    requires Taken(cb, c)
    ensures Taken(cb, BodyStep(cb, d, c).0)
  {
    var pos := Find(c.win, d);
    if |d| <= |c.win| && pos < |c.win| {
      DeliverTakes(cb, c, pos, |d|, AfterBoundary, Continue);
    } else if |d| < |c.win| {
      DeliverTakes(cb, c, |c.win| - |d|, 0, Body, Stop(true));
    }
  }

  lemma StepTakes(s: Setup, c: Config)
    requires Taken(s.cb, c) && c.win != []
    ensures Taken(s.cb, Step(s, c).0)
  {
    if c.state.HeaderLines? {
      HeadersTake(s.cb, c);
    } else if c.state.Body? {
      BodyTakes(s.cb, s.closing, c);
    }
  }

  lemma {:induction false} RunTakes(s: Setup, c: Config)
    requires Taken(s.cb, c)
    ensures Taken(s.cb, Run(s, c).0)
    decreases |c.win|, if c.state.NewEntry? then 1 else 0
  {
    if c.win != [] {
      StepTakes(s, c);
      if Step(s, c).1.Continue? {
        RunTakes(s, Step(s, c).0);
      }
    }
  }

  lemma {:induction false} FeedAllTakes(s: Setup, c: Config, blocks: seq<Bytes>)
    requires Taken(s.cb, c)
    ensures Taken(s.cb, FeedAll(s, c, blocks).0)
    decreases |blocks|
  {
    if blocks != [] {
      RunTakes(s, c.(win := c.win + blocks[0]));
      FeedAllTakes(s, Feed(s, c, blocks[0]).0, blocks[1..]);
    }
  }

  // The syntax of the lines of an item ------------------------------------------------------

  /** "Content-Disposition" and "Content-Type" */
  const DISPOSITION_NAME: Bytes := F.CONTENT_DISPOSITION[..19]
  const TYPE_NAME: Bytes := CONTENT_TYPE[..12]

  lemma NamesAreTokens()
    ensures H.IsFieldName(DISPOSITION_NAME) && F.CONTENT_DISPOSITION == DISPOSITION_NAME + [H.COLON]
    ensures H.IsFieldName(TYPE_NAME) && CONTENT_TYPE == TYPE_NAME + C.COLON_SPACE
  {
  }

  function DispositionValue(item: Item): Bytes { F.FORM_DATA + [SPACE] + DispositionParams(item) }

  lemma DispositionIsField(item: Item)
    ensures DispositionLine(item) == C.FieldLine(C.Field(DISPOSITION_NAME, DispositionValue(item)))
  {
    NamesAreTokens();
    assert DISPOSITION == DISPOSITION_NAME + C.COLON_SPACE + (F.FORM_DATA + [SPACE]);
    Reassociate(DISPOSITION_NAME + C.COLON_SPACE, F.FORM_DATA + [SPACE], DispositionParams(item));
  }

  lemma ParamsAreText(item: Item)
    ensures H.IsFieldText(DispositionParams(item)) <==> H.IsFieldText(item.name) && H.IsFieldText(item.filename)
  {
    var rest := if item.filename == [] then [] else [F.SEMICOLON] + ([SPACE] + FilenameText(item));
    TextOfJoin(NAME_OPEN, item.name, QUOTE);
    TextOfJoin([F.SEMICOLON] + ([SPACE] + FILENAME_OPEN), item.filename, QUOTE);
    TextOfJoin(NameText(item), rest, []);
    assert NameText(item) + rest + [] == DispositionParams(item);
    assert [F.SEMICOLON] + ([SPACE] + FILENAME_OPEN) + item.filename + QUOTE
        == [F.SEMICOLON] + ([SPACE] + FilenameText(item));
  }

  lemma TextOfJoin(a: Bytes, b: Bytes, c: Bytes)
    ensures H.IsFieldText(a + b + c) <==> H.IsFieldText(a) && H.IsFieldText(b) && H.IsFieldText(c)
  {
    var t := a + b + c;
    assert forall i | 0 <= i < |a| :: t[i] == a[i];
    assert forall i | 0 <= i < |b| :: t[|a| + i] == b[i];
    assert forall i | 0 <= i < |c| :: t[|a| + |b| + i] == c[i];
  }

  lemma SolidIsTrimmed(val: Bytes)
    requires val != [] && !IsBlank(val[0]) && !IsBlank(val[|val| - 1])
    ensures Trimmed(val) == val
  {
    CoreStays([], val, []);
    assert [] + val + [] == val;
  }

  lemma ParamsEnd(item: Item)
    ensures var params := DispositionParams(item); params != [] && params[|params| - 1] == F.QUOTATION
  {
    assert NameText(item)[|NameText(item)| - 1] == F.QUOTATION;
    assert FilenameText(item)[|FilenameText(item)| - 1] == F.QUOTATION;
  }

  lemma ValueIsSolid(item: Item)
    ensures var val := DispositionValue(item);
            val != [] && H.IsFieldChar(val[0]) && H.IsFieldChar(val[|val| - 1]) && Trimmed(val) == val
  {
    var val := DispositionValue(item);
    ParamsEnd(item);
    assert val[0] == F.FORM_DATA[0] && val[|val| - 1] == F.QUOTATION;
    SolidIsTrimmed(val);
  }

  lemma ValueIsText(item: Item)
    ensures H.IsFieldText(DispositionValue(item)) <==> H.IsFieldText(item.name) && H.IsFieldText(item.filename)
  {
    TextOfJoin(F.FORM_DATA, [SPACE], DispositionParams(item));
    ParamsAreText(item);
  }

  /** The disposition line has the syntax of a field exactly if the names have
      visible bytes and blanks only. */
  lemma DispositionHasSyntaxIff(item: Item)
    ensures HasSyntax(DispositionLine(item)) <==> H.IsFieldText(item.name) && H.IsFieldText(item.filename)
  {
    NamesAreTokens();
    DispositionIsField(item);
    H.ParseOfLine(C.Field(DISPOSITION_NAME, DispositionValue(item)));
    ValueIsSolid(item);
    ValueIsText(item);
  }

  lemma TypeHasSyntaxIff(contentType: Bytes)
    ensures HasSyntax(CONTENT_TYPE + contentType) <==> H.IsFieldValue(Trimmed(contentType))
  {
    NamesAreTokens();
    H.ParseOfLine(C.Field(TYPE_NAME, contentType));
  }

  /** The lines of an item, one by one. */
  lemma LinesOfItem(item: Item)
    ensures forall l | l in ItemPart(item).lines ::
              l == DispositionLine(item) || (item.contentType != [] && l == CONTENT_TYPE + item.contentType)
    ensures DispositionLine(item) in ItemPart(item).lines
    ensures item.contentType != [] ==> CONTENT_TYPE + item.contentType in ItemPart(item).lines
  {
    assert ItemPart(item).lines == [DispositionLine(item)] + TypeLines(item.contentType);
    assert item.contentType != [] ==> TypeLines(item.contentType)[0] == CONTENT_TYPE + item.contentType;
  }

  lemma WritableIsReadable(item: Item)
    requires Writable(item)
    ensures Readable(item)
  {
    H.ValueIsTrimmed(item.contentType);
    assert CR !in item.name && LF !in item.name && CR !in item.filename && LF !in item.filename;
  }

  lemma WritableIsSendable(s: Setup, item: Item)
    requires Writable(item) && Separable(s.closing, item)
    ensures Readable(item) && MultipartItems.Sendable(s, HasSyntax, item)
  {
    WritableIsReadable(item);
    DispositionHasSyntaxIff(item);
    TypeHasSyntaxIff(item.contentType);
    LinesOfItem(item);
    forall l | l in ItemPart(item).lines
      ensures LineFits(Lenient(s, HasSyntax).cb, l)
    {
    }
  }

  lemma TakenIsWritable(s: Setup, item: Item)
    requires Readable(item) && PartTaken(s.cb, ItemPart(item))
    requires forall l | s.cb.line(l) :: HasSyntax(l)
    ensures Writable(item)
  {
    LinesOfItem(item);
    DispositionHasSyntaxIff(item);
    TypeHasSyntaxIff(item.contentType);
  }
}
