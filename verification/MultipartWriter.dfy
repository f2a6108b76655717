/** The serialiser for form-data items. */
module MultipartWriter {
  import opened Bytes
  import opened Multipart
  import opened MultipartProperties
  import Common
  import F = FormDataHeaders

  datatype Item = Item(name: Bytes, filename: Bytes, contentType: Bytes, content: Bytes)

  const QUOTE: Bytes := [34]
  /** `name="` */
  const NAME_OPEN: Bytes := F.NAME + [EQ] + QUOTE
  /** `filename="` */
  const FILENAME_OPEN: Bytes := F.FILENAME + [EQ] + QUOTE
  /** `Content-Disposition: form-data; ` */
  const DISPOSITION: Bytes := F.CONTENT_DISPOSITION + [SPACE] + (F.FORM_DATA + [SPACE])

  function DispositionParams(item: Item): Bytes
  {
    NameText(item) + if item.filename == [] then [] else [F.SEMICOLON] + ([SPACE] + FilenameText(item))
  }

  function NameText(item: Item): Bytes { NAME_OPEN + item.name + QUOTE }

  function FilenameText(item: Item): Bytes { FILENAME_OPEN + item.filename + QUOTE }

  function DispositionLine(item: Item): Bytes
  {
    DISPOSITION + DispositionParams(item)
  }

  /** The part an item is meant to arrive as. */
  function ItemPart(item: Item): Part
  {
    Part([DispositionLine(item)] + TypeLines(item.contentType), item.content)
  }

  function ItemParts(items: seq<Item>): seq<Part>
  {
    seq(|items|, i requires 0 <= i < |items| => ItemPart(items[i]))
  }

  method AppendDisposition(item: Item, start: Bytes) returns (body: Bytes)
    ensures body == start + (DispositionLine(item) + CRLF)
  {
    body := start + (DISPOSITION + NAME_OPEN) + item.name + QUOTE;
    Append(start, DISPOSITION, NAME_OPEN, item.name);
    if item.filename != [] {
      ghost var params := NAME_OPEN + item.name + QUOTE;
      body := body + ([F.SEMICOLON, SPACE] + FILENAME_OPEN) + item.filename + QUOTE;
      AppendFilename(start + DISPOSITION, params, item.filename);
    }
    ghost var before := body;
    body := body + CRLF;
    assert before == start + DispositionLine(item);
    Common.Reassociate(start, DispositionLine(item), CRLF);
  }

  lemma Append(start: Bytes, a: Bytes, b: Bytes, name: Bytes)
    ensures start + (a + b) + name + QUOTE == start + a + (b + name + QUOTE)
    ensures start + a + (b + name + QUOTE) == start + (a + (b + name + QUOTE + []))
  {
  }

  lemma AppendFilename(start: Bytes, params: Bytes, filename: Bytes)
    ensures start + params + ([F.SEMICOLON, SPACE] + FILENAME_OPEN) + filename + QUOTE
         == start + (params + ([F.SEMICOLON] + ([SPACE] + (FILENAME_OPEN + filename + QUOTE))))
  {
  }

  method AppendContentType(item: Item, start: Bytes) returns (body: Bytes)
    ensures body == start + Lines(ItemPart(item).lines[1..])
  {
    body := start;
    if item.contentType != [] {
      body := body + CONTENT_TYPE + item.contentType + CRLF;
      OneLine(CONTENT_TYPE + item.contentType);
      assert ItemPart(item).lines[1..] == [CONTENT_TYPE + item.contentType];
    }
  }

  lemma OneLine(line: Bytes)
    ensures Lines([line]) == line + CRLF
  {
    assert Lines([line]) == line + CRLF + Lines([]);
  }

  method SerializeItemBegin(item: Item, boundary: Bytes) returns (body: Bytes)
    ensures body == DASHES + boundary + CRLF + Lines(ItemPart(item).lines) + CRLF
  {
    body := DASHES + boundary + CRLF;
    ghost var start, lines := body, ItemPart(item).lines;
    body := AppendDisposition(item, body);
    body := AppendContentType(item, body);
    FrontLine(start, lines);
    body := body + CRLF;
  }

  lemma FrontLine(start: Bytes, lines: seq<Bytes>)
    requires lines != []
    ensures start + (lines[0] + CRLF) + Lines(lines[1..]) == start + Lines(lines)
  {
  }

  method SerializeFormData(items: seq<Item>, boundary: Bytes) returns (body: Bytes)
    ensures body == Serialized(boundary, ItemParts(items))
  {
    body := [];
    ghost var parts := ItemParts(items);
    for i := 0 to |items|
      invariant body + Serialized(boundary, parts[i..]) == Serialized(boundary, parts)
    {
      ghost var before := body;
      var begin := SerializeItemBegin(items[i], boundary);
      body := body + begin;
      body := body + (items[i].content + CRLF);
      SerializedUnfolds(boundary, parts[i..]);
      assert parts[i..][1..] == parts[i + 1..];
      assert body + Serialized(boundary, parts[i + 1..])
          == before + (begin + items[i].content + CRLF + Serialized(boundary, parts[i + 1..]));
    }
    body := body + (DASHES + boundary + DASHES + CRLF);
  }
}
