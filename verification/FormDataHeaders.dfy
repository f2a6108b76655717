/** What the form-data parser takes from the header lines of an entry: name, file
    name and content type. */
module FormDataHeaders {
  import opened Bytes
  import opened Common
  import opened CText
  import opened Text
  import opened PathEscapes

  const QUOTATION: byte := 34
  const SEMICOLON: byte := 59

  /** "Content-Disposition:" */
  const CONTENT_DISPOSITION: Bytes :=
    [67, 111, 110, 116, 101, 110, 116, 45, 68, 105, 115, 112, 111, 115, 105, 116, 105, 111, 110, 58]
  /** "Content-Type:" */
  const CONTENT_TYPE_KEY: Bytes := [67, 111, 110, 116, 101, 110, 116, 45, 84, 121, 112, 101, 58]
  /** "form-data;" */
  const FORM_DATA: Bytes := [102, 111, 114, 109, 45, 100, 97, 116, 97, 59]
  const NAME: Bytes := [110, 97, 109, 101]
  const FILENAME: Bytes := [102, 105, 108, 101, 110, 97, 109, 101]
  /** "filename*" */
  const FILENAME_EXT: Bytes := [102, 105, 108, 101, 110, 97, 109, 101, 42]
  /** "UTF-8''" */
  const UTF_8: Bytes := [85, 84, 70, 45, 56, 39, 39]

  // Matching -----------------------------------------------------------------------------

  function Lower(c: byte): byte { if 65 <= c <= 90 then c + 32 else c }

  /** The text starts with `head`, whatever the case of its letters. */
  predicate HasHead(text: Bytes, head: Bytes)
  {
    |head| <= |text| && forall i | 0 <= i < |head| :: Lower(text[i]) == Lower(head[i])
  }

  function SkipSpace(s: Bytes): Bytes { s[Spaces(s)..] }

  /** `^Content-Disposition:\s*form-data;\s*(.*)$`, where the dot is neither CR nor
      LF: the last group. */
  function DispositionText(line: Bytes): Option<Bytes>
  {
    if !HasHead(line, CONTENT_DISPOSITION) then None
    else
      var value := SkipSpace(line[|CONTENT_DISPOSITION|..]);
      if !HasHead(value, FORM_DATA) then None
      else
        var text := SkipSpace(value[|FORM_DATA|..]);
        if CR in text || LF in text then None else Some(text)
  }

  // Parameters ---------------------------------------------------------------------------

  function Unquoted(s: Bytes): Bytes
  {
    if |s| >= 2 && s[0] == QUOTATION && s[|s| - 1] == QUOTATION then s[1..|s| - 1] else s
  }

  /** The first piece between the equals signs, and the last of the others. */
  function KeyVal(kvs: seq<Bytes>): Param
    requires kvs != []
  {
    Param(Unquoted(kvs[0]), Unquoted(if |kvs| > 1 then kvs[|kvs| - 1] else []))
  }

  function ParamOf(piece: Bytes): seq<Param>
  {
    if Pieces(piece, EQ) == [] then [] else [KeyVal(Pieces(piece, EQ))]
  }

  /** A piece that was seen before is passed over. */
  function NewParams(seen: set<Bytes>, piece: Bytes): seq<Param>
  {
    if piece in seen then [] else ParamOf(piece)
  }

  function ParamsOf(seen: set<Bytes>, pieces: seq<Bytes>): seq<Param>
    decreases |pieces|
  {
    if pieces == [] then []
    else NewParams(seen, pieces[0]) + ParamsOf(seen + {pieces[0]}, pieces[1..])
  }

  /** `find` in the multimap: of equal keys, the first one inserted. */
  function Lookup(params: seq<Param>, key: Bytes): Option<Bytes>
  {
    if params == [] then None
    else if params[0].key == key then Some(params[0].val)
    else Lookup(params[1..], key)
  }

  // Lines --------------------------------------------------------------------------------

  datatype Entry = Entry(name: Bytes, filename: Bytes, contentType: Bytes)

  const EMPTY := Entry([], [], [])

  /** `UTF-8''(.+?)`; anything else in `filename*` fails. */
  function ExtendedName(val: Bytes): Option<Bytes>
  {
    if HasHead(val, UTF_8) && |UTF_8| < |val| then Some(DecodePath(val[|UTF_8|..])) else None
  }

  function WithParams(e: Entry, params: seq<Param>): Option<Entry>
  {
    match Lookup(params, NAME)
    case None => None
    case Some(name) =>
      var plain := Lookup(params, FILENAME);
      var e' := e.(name := name, filename := if plain.Some? then plain.value else e.filename);
      match Lookup(params, FILENAME_EXT)
      case None => Some(e')
      case Some(val) =>
        match ExtendedName(val)
        case None => None
        case Some(filename) => Some(e'.(filename := filename))
  }

  /** A line that fails the form is None. */
  function WithLine(e: Entry, line: Bytes): Option<Entry>
  {
    if HasHead(line, CONTENT_TYPE_KEY) then Some(e.(contentType := Trimmed(line[|CONTENT_TYPE_KEY|..])))
    else
      match DispositionText(line)
      case None => Some(e)
      case Some(text) => WithParams(e, ParamsOf({}, Pieces(text, SEMICOLON)))
  }

  function WithLines(e: Entry, lines: seq<Bytes>): Option<Entry>
    decreases |lines|
  {
    if lines == [] then Some(e)
    else
      match WithLine(e, lines[0])
      case None => None
      case Some(e') => WithLines(e', lines[1..])
  }

  /** Whether a line is taken does not depend on those before it. */
  predicate Taken(line: Bytes) { WithLine(EMPTY, line).Some? }

  lemma TakenAnywhere(e: Entry, line: Bytes)
    ensures WithLine(e, line).Some? <==> Taken(line)
  {
  }

  // The code -----------------------------------------------------------------------------

  method StartWithCaseIgnore(text: Bytes, head: Bytes) returns (r: bool)
    ensures r == HasHead(text, head)
  {
    if |text| < |head| {
      return false;
    }
    for i := 0 to |head|
      invariant forall k | 0 <= k < i :: Lower(text[k]) == Lower(head[k])
    {
      if Lower(text[i]) != Lower(head[i]) {
        return false;
      }
    }
    return true;
  }

  method TrimCopy(s: Bytes) returns (t: Bytes)
    ensures t == Trimmed(s)
  {
    var l, r := Trim(s, 0, |s|);
    TrimMeans(s, 0, |s|, l, r);
    assert s[0..|s|] == s;
    t := if l < r then s[l..r] else [];
  }

  method KeyAndValue(piece: Bytes) returns (key: Bytes, val: Bytes)
    ensures key == [] <==> Pieces(piece, EQ) == []
    ensures key != [] ==> ParamOf(piece) == [Param(Unquoted(key), Unquoted(val))]
  {
    key, val := [], [];
    var kvs := Split(piece, EQ);
    PiecesNotEmpty(piece, EQ);
    for i := 0 to |kvs|
      invariant i == 0 ==> key == [] && val == []
      invariant i > 0 ==> key == kvs[0] && val == if i > 1 then kvs[i - 1] else []
    {
      if key == [] {
        key := kvs[i];
      } else {
        val := kvs[i];
      }
    }
  }

  lemma {:induction false} PiecesNotEmpty(s: Bytes, d: byte)
    ensures forall i | 0 <= i < |Pieces(s, d)| :: Pieces(s, d)[i] != []
    decreases |s|
  {
    var i := Index(s, d);
    if i < |s| {
      PiecesNotEmpty(s[i + 1..], d);
    }
  }

  lemma ParamsOnwards(params: seq<Param>, seen: set<Bytes>, pieces: seq<Bytes>, i: nat)
    requires i < |pieces|
    ensures params + ParamsOf(seen, pieces[i..])
         == params + NewParams(seen, pieces[i]) + ParamsOf(seen + {pieces[i]}, pieces[i + 1..])
  {
    assert pieces[i..][0] == pieces[i] && pieces[i..][1..] == pieces[i + 1..];
    Reassociate(params, NewParams(seen, pieces[i]), ParamsOf(seen + {pieces[i]}, pieces[i + 1..]));
  }

  /** One turn of the loop of `parse_disposition_params`. */
  method AddParams(params: seq<Param>, cache: set<Bytes>, kv: Bytes) returns (params': seq<Param>)
    ensures params' == params + NewParams(cache, kv)
  {
    params' := params;
    if kv !in cache {
      var key, val := KeyAndValue(kv);
      if key != [] {
        params' := params + [Param(Unquoted(key), Unquoted(val))];
      }
    }
  }

  method ParseDispositionParams(text: Bytes) returns (params: seq<Param>)
    ensures params == ParamsOf({}, Pieces(text, SEMICOLON))
  {
    params := [];
    var cache: set<Bytes> := {};
    var pieces := Split(text, SEMICOLON);
    ghost var total := ParamsOf({}, pieces);
    assert pieces[0..] == pieces;
    for i := 0 to |pieces|
      invariant params + ParamsOf(cache, pieces[i..]) == total
    {
      ParamsOnwards(params, cache, pieces, i);
      params := AddParams(params, cache, pieces[i]);
      cache := cache + {pieces[i]};
    }
  }

  /** The fields of the entry under way. */
  class EntryFields {
    var name: Bytes
    var filename: Bytes
    var contentType: Bytes

    ghost function View(): Entry
      reads this
    {
      Entry(name, filename, contentType)
    }

    constructor ()
      ensures View() == EMPTY
    {
      name, filename, contentType := [], [], [];
    }

    method Clear()
      modifies this
      ensures View() == EMPTY
    {
      name, filename, contentType := [], [], [];
    }

    method TakeParams(params: seq<Param>) returns (ok: bool)
      modifies this
      ensures ok == WithParams(old(View()), params).Some?
      ensures ok ==> WithParams(old(View()), params) == Some(View())
    {
      var it := Lookup(params, NAME);
      if it.None? {
        return false;
      }
      name := it.value;
      it := Lookup(params, FILENAME);
      if it.Some? {
        filename := it.value;
      }
      it := Lookup(params, FILENAME_EXT);
      if it.Some? {
        var extended := StartWithCaseIgnore(it.value, UTF_8);
        if !extended || |it.value| == |UTF_8| {
          return false;
        }
        filename := DecodePathComponent(it.value[|UTF_8|..]);
      }
      return true;
    }

    /** One header line; false fails the form. */
    method TakeLine(line: Bytes) returns (ok: bool)
      modifies this
      ensures ok == WithLine(old(View()), line).Some?
      ensures ok ==> WithLine(old(View()), line) == Some(View())
    {
      var isType := StartWithCaseIgnore(line, CONTENT_TYPE_KEY);
      if isType {
        contentType := TrimCopy(line[|CONTENT_TYPE_KEY|..]);
        return true;
      }
      match DispositionText(line) {
        case None =>
          return true;
        case Some(text) =>
          var params := ParseDispositionParams(text);
          ok := TakeParams(params);
      }
    }
  }
}
