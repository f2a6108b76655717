/** Query strings: escaping, printing, parsing and normalising. */
module Query {
  import opened Bytes
  import opened CText
  import opened Text

  const PLUS: byte := 43
  const AMP: byte := 38

  // Escaping ---------------------------------------------------------------------------

  /** Bytes that go through unescaped: unreserved ones, sub-delimiters other than
      "&", "=" and "+", and ":", "@", "/" and "?". */
  predicate IsPlain(c: byte)
  {
    || IsAlnum(c) || c == 45 || c == 46 || c == 95 || c == 126
    || c == 33 || c == 36 || c == 39 || c == 40 || c == 41 || c == 42 || c == 44 || c == 59
    || c == 58 || c == 64 || c == 47 || c == 63
  }

  function Escape(c: byte): Bytes
  {
    [PERCENT, UpperHex(c / 16), UpperHex(c % 16)]
  }

  function EncodeByte(c: byte, spaceAsPlus: bool): (e: Bytes)
    ensures e != []
  {
    if c == SPACE then if spaceAsPlus then [PLUS] else [PERCENT, 50, 48]
    else if c == PLUS then if spaceAsPlus then [PERCENT, 50, 66] else [PLUS]
    else if IsPlain(c) then [c]
    else Escape(c)
  }

  function Encode(s: Bytes, spaceAsPlus: bool): Bytes
  {
    if s == [] then [] else EncodeByte(s[0], spaceAsPlus) + Encode(s[1..], spaceAsPlus)
  }

  /** The value of the two bytes behind a percent sign, if `strtoul` takes both. */
  function EscapeValue(two: Bytes): (v: int)
    requires |two| == 2
    ensures -1 <= v < 256
  {
    EscapedByte(Strtoul(CString(two)))
  }

  function EscapedByte(r: Scanned): (v: int)
    ensures -1 <= v < 256
  {
    if r.end == 2 then r.value % 256 else -1
  }

  /** One step of the decoder: the byte it appends and how far it moves. */
  function DecodeStep(s: Bytes, plusAsSpace: bool): (r: (byte, nat))
    requires s != []
    ensures 1 <= r.1 <= |s|
  {
    if s[0] == PERCENT && |s| > 2 then
      var v := EscapeValue(s[1..3]);
      if v >= 0 then (v, 3) else (s[0], 1)
    else if s[0] == PLUS && plusAsSpace then (SPACE, 1)
    else (s[0], 1)
  }

  function Decode(s: Bytes, plusAsSpace: bool): Bytes
    decreases |s|
  {
    if s == [] then []
    else
      var (c, n) := DecodeStep(s, plusAsSpace);
      [c] + Decode(s[n..], plusAsSpace)
  }

  method EncodeQueryComponent(component: Bytes, spaceAsPlus: bool) returns (result: Bytes)
    ensures result == Encode(component, spaceAsPlus)
  {
    result := [];
    assert component[0..] == component;
    for i := 0 to |component|
      invariant result + Encode(component[i..], spaceAsPlus) == Encode(component, spaceAsPlus)
    {
      var c := component[i];
      var e: Bytes;
      if IsAlnum(c) || c == 45 || c == 46 || c == 95 || c == 126 {
        e := [c];
      } else if c == SPACE {
        e := if spaceAsPlus then [PLUS] else [PERCENT, 50, 48];
      } else if c == PLUS {
        e := if spaceAsPlus then [PERCENT, 50, 66] else [c];
      } else if c == 33 || c == 36 || c == 39 || c == 40 || c == 41 || c == 42 || c == 44 || c == 59 {
        e := [c];
      } else if c == 58 || c == 64 {
        e := [c];
      } else if c == 47 {
        e := [c];
      } else if c == 63 {
        e := [c];
      } else {
        e := [PERCENT, UpperHex(c / 16), UpperHex(c % 16)];
      }
      EncodeFront(component, i, spaceAsPlus, e, result);
      result := result + e;
    }
  }

  lemma EncodeFront(s: Bytes, i: nat, f: bool, e: Bytes, result: Bytes)
    requires i < |s| && e == EncodeByte(s[i], f)
    ensures result + Encode(s[i..], f) == result + e + Encode(s[i + 1..], f)
  {
    assert s[i..][0] == s[i] && s[i..][1..] == s[i + 1..];
  }

  /** The byte decoded at position i, and how many it stands for. */
  method DecodeAt(component: Bytes, i: nat, plusAsSpace: bool) returns (c: byte, n: nat)
    requires i < |component|
    ensures (c, n) == DecodeStep(component[i..], plusAsSpace)
  {
    c, n := component[i], 1;
    assert component[i..][0] == c;
    if component[i] == PERCENT && i + 2 < |component| {
      var hex := component[i + 1..i + 3];
      assert component[i..][1..3] == hex;
      var r := Strtoul(CString(hex));
      if r.end == 2 {
        c := r.value % 256;
        n := 3;
      }
    } else if component[i] == PLUS && plusAsSpace {
      c := SPACE;
    }
  }

  method DecodeQueryComponent(component: Bytes, plusAsSpace: bool) returns (result: Bytes)
    ensures result == Decode(component, plusAsSpace)
  {
    result := [];
    var i := 0;
    ghost var total := Decode(component, plusAsSpace);
    assert component[0..] == component;
    while i < |component|
      invariant DecodedUpTo(result, component, i, plusAsSpace, total)
      decreases |component| - i
    {
      var c, n := DecodeAt(component, i, plusAsSpace);
      DecodeFront(component, i, plusAsSpace, result, total);
      result := result + [c];
      i := i + n;
    }
  }

  /** What has been decoded, and what the rest decodes to, is all of it. */
  predicate DecodedUpTo(result: Bytes, s: Bytes, i: nat, f: bool, total: Bytes)
  {
    i <= |s| && result + Decode(s[i..], f) == total
  }

  lemma DecodeFront(s: Bytes, i: nat, f: bool, result: Bytes, total: Bytes)
    requires i < |s| && DecodedUpTo(result, s, i, f, total)
    ensures var (c, n) := DecodeStep(s[i..], f);
            DecodedUpTo(result + [c], s, i + n, f, total)
  {
    var (c, n) := DecodeStep(s[i..], f);
    assert s[i..][n..] == s[i + n..];
  }

  // Parameters ---------------------------------------------------------------------------

  /** The order of the keys: byte by byte, a proper front first. */
  predicate Less(a: Bytes, b: Bytes)
  {
    if b == [] then false
    else if a == [] then true
    else a[0] < b[0] || (a[0] == b[0] && Less(a[1..], b[1..]))
  }

  /** Insertion behind the entries with the same key. */
  function Emplace(params: seq<Param>, p: Param): seq<Param>
  {
    if params == [] then [p]
    else if Less(p.key, params[0].key) then [p] + params
    else [params[0]] + Emplace(params[1..], p)
  }

  function PairText(p: Param): Bytes
  {
    Encode(p.key, true) + [EQ] + Encode(p.val, true)
  }

  function PairTexts(params: seq<Param>): seq<Bytes>
  {
    seq(|params|, i requires 0 <= i < |params| => PairText(params[i]))
  }

  function QueryText(params: seq<Param>): Bytes
  {
    Join(PairTexts(params), [AMP])
  }

  /** What `parse_query_text` makes of one piece. */
  function Decoded(kv: Bytes): Param
  {
    var (key, val) := Divided(kv, EQ);
    Param(Decode(key, true), Decode(val, true))
  }

  predicate HasKey(kv: Bytes) { Divided(kv, EQ).0 != [] }

  /** Pieces that were seen before, or have no key, are passed over. */
  function Collect(params: seq<Param>, seen: set<Bytes>, kvs: seq<Bytes>): seq<Param>
    decreases |kvs|
  {
    if kvs == [] then params
    else
      var kv := kvs[0];
      Collect(if kv in seen || !HasKey(kv) then params else Emplace(params, Decoded(kv)), seen + {kv}, kvs[1..])
  }

  function ParamsOf(query: Bytes): seq<Param>
  {
    Collect([], {}, Pieces(query, AMP))
  }

  method ParamsToQueryStr(params: seq<Param>) returns (query: Bytes)
    ensures query == QueryText(params)
  {
    query := [];
    for i := 0 to |params|
      invariant query == QueryText(params[..i])
    {
      if i != 0 {
        query := query + [AMP];
      }
      var key := EncodeQueryComponent(params[i].key, true);
      var val := EncodeQueryComponent(params[i].val, true);
      query := query + key + [EQ] + val;
      QuerySnoc(params, i);
    }
    assert params[..|params|] == params;
  }

  lemma QuerySnoc(params: seq<Param>, i: nat)
    requires i < |params|
    ensures QueryText(params[..i + 1]) ==
            if i == 0 then PairText(params[i]) else QueryText(params[..i]) + [AMP] + PairText(params[i])
  {
    assert PairTexts(params[..i + 1]) == PairTexts(params[..i]) + [PairText(params[i])];
    JoinSnoc(PairTexts(params[..i]), PairText(params[i]), [AMP]);
  }

  method ParseQueryText(query: Bytes) returns (params: seq<Param>)
    ensures params == ParamsOf(query)
  {
    params := [];
    var seen: set<Bytes> := {};
    var kvs := Split(query, AMP);
    assert kvs[0..] == kvs;
    for i := 0 to |kvs|
      invariant Collect(params, seen, kvs[i..]) == ParamsOf(query)
    {
      var kv := kvs[i];
      assert kvs[i..][0] == kv && kvs[i..][1..] == kvs[i + 1..];
      if kv !in seen {
        var key, val := Divide(kv, EQ);
        if key != [] {
          var k := DecodeQueryComponent(key, true);
          var v := DecodeQueryComponent(val, true);
          params := Emplace(params, Param(k, v));
        }
      }
      seen := seen + {kv};
    }
  }

  // Normalising -------------------------------------------------------------------------------

  function NormalPiece(kv: Bytes): Bytes
  {
    var (key, val) := Divided(kv, EQ);
    Encode(Decode(key, true), true)
    + if val != [] || EQ in kv then [EQ] + Encode(Decode(val, true), true) else []
  }

  /** A piece without a key is dropped. */
  function NormalOf(kv: Bytes): seq<Bytes>
  {
    if HasKey(kv) then [NormalPiece(kv)] else []
  }

  function NormalPieces(kvs: seq<Bytes>): seq<Bytes>
  {
    if kvs == [] then [] else NormalOf(kvs[0]) + NormalPieces(kvs[1..])
  }

  function Normal(query: Bytes): Bytes
  {
    Join(NormalPieces(Pieces(query, AMP)), [AMP])
  }

  method NormalizePiece(kv: Bytes, key: Bytes, val: Bytes) returns (piece: Bytes)
    requires (key, val) == Divided(kv, EQ) && key != []
    ensures piece == NormalPiece(kv) && piece != []
  {
    var k := DecodeQueryComponent(key, true);
    var v := DecodeQueryComponent(val, true);
    piece := EncodeQueryComponent(k, true);
    NonemptyStays(key);
    if val != [] || EQ in kv {
      var ev := EncodeQueryComponent(v, true);
      piece := piece + [EQ] + ev;
      assert Encode(k, true) + [EQ] + ev == Encode(k, true) + ([EQ] + ev);
    }
  }

  /** One turn of the loop of `normalize_query_string`. */
  method AppendNormal(result: Bytes, kv: Bytes, ghost before: seq<Bytes>) returns (result': Bytes)
    requires Joined(result, before)
    ensures Joined(result', before + NormalOf(kv))
  {
    var key, val := Divide(kv, EQ);
    result' := result;
    if key != [] {
      var piece := NormalizePiece(kv, key, val);
      JoinedSnoc(result, before, piece);
      if result != [] {
        result' := result' + [AMP];
      }
      result' := result' + piece;
    } else {
      assert before + [] == before;
    }
  }

  method NormalizeAll(kvs: seq<Bytes>) returns (result: Bytes)
    ensures result == Join(NormalPieces(kvs), [AMP])
  {
    result := [];
    for i := 0 to |kvs|
      invariant Joined(result, NormalPieces(kvs[..i]))
    {
      NormalFront(kvs, i);
      result := AppendNormal(result, kvs[i], NormalPieces(kvs[..i]));
    }
    assert kvs[..|kvs|] == kvs;
  }

  lemma NormalFront(kvs: seq<Bytes>, i: nat)
    requires i < |kvs|
    ensures NormalPieces(kvs[..i + 1]) == NormalPieces(kvs[..i]) + NormalOf(kvs[i])
  {
    assert kvs[..i + 1] == kvs[..i] + [kvs[i]];
    NormalSnoc(kvs[..i], kvs[i]);
  }

  method NormalizeQueryString(query: Bytes) returns (result: Bytes)
    ensures result == Normal(query)
  {
    var kvs := Split(query, AMP);
    result := NormalizeAll(kvs);
  }

  /** The text so far; it is empty only if there is no piece yet. */
  predicate Joined(result: Bytes, pieces: seq<Bytes>)
  {
    result == Join(pieces, [AMP]) && (result == [] <==> pieces == [])
  }

  lemma JoinedSnoc(result: Bytes, pieces: seq<Bytes>, piece: Bytes)
    requires Joined(result, pieces) && piece != []
    ensures Joined(if result != [] then result + [AMP] + piece else piece, pieces + [piece])
  {
    JoinSnoc(pieces, piece, [AMP]);
  }

  lemma {:induction false} NormalSnoc(kvs: seq<Bytes>, kv: Bytes)
    ensures NormalPieces(kvs + [kv]) == NormalPieces(kvs) + NormalOf(kv)
  {
    if kvs == [] {
      assert [] + [kv] == [kv] && [kv][1..] == [];
    } else {
      assert (kvs + [kv])[1..] == kvs[1..] + [kv];
      NormalSnoc(kvs[1..], kv);
    }
  }

  lemma NonemptyStays(key: Bytes)
    requires key != []
    ensures Decode(key, true) != [] && Encode(Decode(key, true), true) != []
  {
  }
}
