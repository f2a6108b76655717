/** Escaping and unescaping, printing and parsing, and normalising undo or repeat
    each other as they should. */
module QueryProperties {
  import opened Bytes
  import opened Common
  import opened CText
  import opened Text
  import opened Query

  // Escapes ------------------------------------------------------------------------------

  lemma StrtoulOfTwo(h: byte, l: byte)
    requires IsHex(h) && IsHex(l)
    ensures Strtoul([h, l]) == Scanned(Number([h, l]), 2)
    ensures Number([h, l]) == 16 * HexValue(h) + HexValue(l)
  {
    var two: Bytes := [h, l];
    assert Spaces(two) == 0 && two[0..] == two;
    DigitsOf(two, []);
    assert two + [] == two && two[..2] == two;
    NumberOfTwo(h, l);
  }

  lemma TwoDigits(h: byte, l: byte)
    requires IsHex(h) && IsHex(l)
    ensures EscapeValue([h, l]) == 16 * HexValue(h) + HexValue(l)
  {
    CStringIsWhole([h, l]);
    StrtoulOfTwo(h, l);
    SmallValue(16 * HexValue(h) + HexValue(l));
  }

  lemma SmallValue(n: nat)
    requires n < 256
    ensures EscapedByte(Scanned(n, 2)) == n
  {
  }

  /** What comes back for a byte that was encoded one way and decoded the other:
      only space and plus can change, into each other. */
  function Swapped(c: byte, spaceAsPlus: bool, plusAsSpace: bool): byte
  {
    if spaceAsPlus && !plusAsSpace && c == SPACE then PLUS
    else if !spaceAsPlus && plusAsSpace && c == PLUS then SPACE
    else c
  }

  lemma EscapeDecodes(two: Bytes, rest: Bytes, b: bool)
    requires |two| == 2 && EscapeValue(two) >= 0
    ensures Decode([PERCENT] + two + rest, b) == [EscapeValue(two)] + Decode(rest, b)
  {
    var s := [PERCENT] + two + rest;
    assert s[1..3] == two && s[3..] == rest;
    assert DecodeStep(s, b) == (EscapeValue(two), 3);
  }

  lemma ByteComesBack(c: byte, rest: Bytes, a: bool, b: bool)
    ensures Decode(EncodeByte(c, a) + rest, b) == [Swapped(c, a, b)] + Decode(rest, b)
  {
    var e := EncodeByte(c, a);
    if |e| == 1 {
      assert (e + rest)[1..] == rest;
    } else {
      var two := e[1..];
      assert e == [PERCENT] + two;
      EscapedValue(c, a);
      EscapeDecodes(two, rest, b);
    }
  }

  lemma EscapedValue(c: byte, a: bool)
    requires |EncodeByte(c, a)| != 1
    ensures |EncodeByte(c, a)| == 3 && EncodeByte(c, a)[0] == PERCENT
    ensures EscapeValue(EncodeByte(c, a)[1..]) == c
  {
    var two := EncodeByte(c, a)[1..];
    if c == SPACE {
      TwoDigits(50, 48);
      assert two == [50, 48];
    } else if c == PLUS {
      TwoDigits(50, 66);
      assert two == [50, 66];
    } else {
      TwoDigits(UpperHex(c / 16), UpperHex(c % 16));
      assert two == [UpperHex(c / 16), UpperHex(c % 16)];
    }
  }

  function SwappedAll(s: Bytes, a: bool, b: bool): Bytes
  {
    seq(|s|, i requires 0 <= i < |s| => Swapped(s[i], a, b))
  }

  lemma {:induction false} DecodeOfEncode(s: Bytes, a: bool, b: bool)
    ensures Decode(Encode(s, a), b) == SwappedAll(s, a, b)
  {
    if s != [] {
      ByteComesBack(s[0], Encode(s[1..], a), a, b);
      DecodeOfEncode(s[1..], a, b);
      SwappedCons(s, a, b);
    }
  }

  lemma SwappedCons(s: Bytes, a: bool, b: bool)
    requires s != []
    ensures SwappedAll(s, a, b) == [Swapped(s[0], a, b)] + SwappedAll(s[1..], a, b)
  {
  }

  /** Decoding gives a byte string back if and only if the two sides agree about
      spaces, or the string has none of the byte they disagree about. */
  lemma ComesBackIffSidesAgree(s: Bytes, a: bool, b: bool)
    ensures Decode(Encode(s, a), b) == s <==> a == b || (if a then SPACE else PLUS) !in s
  {
    DecodeOfEncode(s, a, b);
    var odd := if a then SPACE else PLUS;
    if a != b && odd in s {
      var i :| 0 <= i < |s| && s[i] == odd;
      assert SwappedAll(s, a, b)[i] != s[i];
    } else {
      assert SwappedAll(s, a, b) == s;
    }
  }

  lemma Back(s: Bytes)
    ensures Decode(Encode(s, true), true) == s
  {
    ComesBackIffSidesAgree(s, true, true);
  }

  predicate Clean(s: Bytes)
  {
    AMP !in s && EQ !in s && SPACE !in s && 9 !in s
  }

  lemma {:induction false} EncodedIsClean(s: Bytes)
    ensures Clean(Encode(s, true))
    ensures Encode(s, true) == [] <==> s == []
  {
    if s != [] {
      EncodedIsClean(s[1..]);
      assert Clean(EncodeByte(s[0], true));
    }
  }

  // Printing and parsing ----------------------------------------------------------------------

  lemma PairTextIsSolid(p: Param)
    ensures Solid(PairText(p), AMP)
    ensures Decoded(PairText(p)) == p
    ensures HasKey(PairText(p)) <==> p.key != []
  {
    EncodedIsClean(p.key);
    EncodedIsClean(p.val);
    DivideOfJoin(Encode(p.key, true), EQ, Encode(p.val, true));
    Back(p.key);
    Back(p.val);
  }

  lemma PairTextsAreFound(params: seq<Param>)
    ensures Pieces(QueryText(params), AMP) == PairTexts(params)
  {
    forall i | 0 <= i < |params|
      ensures Solid(PairTexts(params)[i], AMP)
    {
      PairTextIsSolid(params[i]);
    }
    SplitOfJoin(PairTexts(params), AMP, [], []);
    assert [AMP] + [] == [AMP] && [] + QueryText(params) == QueryText(params);
  }

  /** A multimap lists its entries by key. */
  predicate ByKey(params: seq<Param>)
  {
    forall i, j | 0 <= i < j < |params| :: !Less(params[j].key, params[i].key)
  }

  predicate KeysPresent(params: seq<Param>)
  {
    forall i | 0 <= i < |params| :: params[i].key != []
  }

  predicate NoRepeats(params: seq<Param>)
  {
    forall i, j | 0 <= i < j < |params| :: params[i] != params[j]
  }

  lemma {:induction false} EmplaceAtEnd(params: seq<Param>, p: Param)
    requires forall i | 0 <= i < |params| :: !Less(p.key, params[i].key)
    ensures Emplace(params, p) == params + [p]
  {
    if params != [] {
      EmplaceAtEnd(params[1..], p);
    }
  }

  lemma {:induction false} EmplaceAdds(params: seq<Param>, p: Param)
    ensures |Emplace(params, p)| == |params| + 1
    ensures Elements(Emplace(params, p)) == Elements(params) + {p}
  {
    if params != [] && !Less(p.key, params[0].key) {
      EmplaceAdds(params[1..], p);
      assert Elements(Emplace(params, p)) == {params[0]} + Elements(Emplace(params[1..], p));
      assert Elements(params) == {params[0]} + Elements(params[1..]);
    } else {
      assert Elements([p] + params) == {p} + Elements(params);
    }
  }

  function Elements(params: seq<Param>): set<Param>
  {
    set p | p in params
  }

  /** None of the entries has been seen, as text. */
  predicate Unseen(seen: set<Bytes>, params: seq<Param>)
  {
    forall i | 0 <= i < |params| :: PairText(params[i]) !in seen
  }

  lemma StillUnseen(seen: set<Bytes>, more: seq<Param>)
    requires more != [] && NoRepeats(more) && Unseen(seen, more)
    ensures Unseen(seen + {PairText(more[0])}, more[1..])
  {
    PairTextIsSolid(more[0]);
    forall i | 0 <= i < |more| - 1
      ensures PairText(more[1..][i]) != PairText(more[0])
    {
      PairTextIsSolid(more[i + 1]);
      assert more[0] != more[i + 1];
    }
  }

  /** The next entry goes to the end. */
  lemma CollectOne(params: seq<Param>, seen: set<Bytes>, more: seq<Param>)
    requires more != [] && ByKey(params + more) && more[0].key != [] && PairText(more[0]) !in seen
    ensures Collect(params, seen, PairTexts(more))
         == Collect(params + [more[0]], seen + {PairText(more[0])}, PairTexts(more[1..]))
  {
    PairTextIsSolid(more[0]);
    assert PairTexts(more)[1..] == PairTexts(more[1..]);
    forall i | 0 <= i < |params|
      ensures !Less(more[0].key, params[i].key)
    {
      assert (params + more)[i] == params[i] && (params + more)[|params|] == more[0];
    }
    EmplaceAtEnd(params, more[0]);
  }

  predicate Collectable(params: seq<Param>, seen: set<Bytes>, more: seq<Param>)
  {
    ByKey(params + more) && KeysPresent(more) && NoRepeats(more) && Unseen(seen, more)
  }

  lemma StillCollectable(params: seq<Param>, seen: set<Bytes>, more: seq<Param>)
    requires more != [] && Collectable(params, seen, more)
    ensures Collectable(params + [more[0]], seen + {PairText(more[0])}, more[1..])
    ensures params + [more[0]] + more[1..] == params + more
  {
    StillUnseen(seen, more);
    assert params + [more[0]] + more[1..] == params + more;
    assert forall i | 0 <= i < |more| - 1 :: more[1..][i] == more[i + 1];
  }

  lemma {:induction false} CollectAll(params: seq<Param>, seen: set<Bytes>, more: seq<Param>)
    requires Collectable(params, seen, more)
    ensures Collect(params, seen, PairTexts(more)) == params + more
    decreases |more|
  {
    if more == [] {
      assert params + more == params;
    } else {
      CollectOne(params, seen, more);
      StillCollectable(params, seen, more);
      CollectAll(params + [more[0]], seen + {PairText(more[0])}, more[1..]);
    }
  }

  /** Something is passed over when a key is empty or a pair repeats. */
  lemma {:induction false} CollectCounts(params: seq<Param>, seen: set<Bytes>, more: seq<Param>)
    ensures |Collect(params, seen, PairTexts(more))| <= |params| + |more|
    ensures |Collect(params, seen, PairTexts(more))| == |params| + |more| ==>
              && KeysPresent(more) && NoRepeats(more)
              && forall i | 0 <= i < |more| :: PairText(more[i]) !in seen
    decreases |more|
  {
    if more != [] {
      var p, kv := more[0], PairText(more[0]);
      PairTextIsSolid(p);
      assert PairTexts(more)[1..] == PairTexts(more[1..]);
      EmplaceAdds(params, p);
      var taken := kv !in seen && p.key != [];
      CollectCounts(if taken then Emplace(params, p) else params, seen + {kv}, more[1..]);
      assert forall i | 0 < i < |more| :: more[i] == more[1..][i - 1];
    }
  }

  /** Parsing a printed multimap gives it back, entries with equal keys in their
      order, if and only if no key is empty and no key/value pair repeats. */
  lemma ParseUndoesPrint(params: seq<Param>)
    requires ByKey(params)
    ensures ParamsOf(QueryText(params)) == params <==> KeysPresent(params) && NoRepeats(params)
  {
    PairTextsAreFound(params);
    assert [] + params == params;
    if KeysPresent(params) && NoRepeats(params) {
      CollectAll([], {}, params);
    } else {
      CollectCounts([], {}, params);
    }
  }

  // Normalising ----------------------------------------------------------------------------------

  lemma SolidPieces(ek: Bytes, ev: Bytes)
    requires ek != [] && Clean(ek) && Clean(ev)
    ensures Solid(ek, AMP) && Solid(ek + [EQ] + ev, AMP)
  {
    var s := ek + [EQ] + ev;
    assert s[0] == ek[0];
    assert s[|s| - 1] == if ev == [] then EQ else ev[|ev| - 1];
  }

  lemma PieceWithValue(k: Bytes, v: Bytes)
    ensures var s := Encode(k, true) + [EQ] + Encode(v, true);
            Divided(s, EQ).0 == Encode(k, true) && Decoded(s) == Param(k, v) && NormalPiece(s) == s
  {
    EncodedIsClean(k);
    Back(k);
    Back(v);
    DivideOfJoin(Encode(k, true), EQ, Encode(v, true));
    assert ([EQ] + Encode(v, true))[0] == EQ;
    Reassociate(Encode(k, true), [EQ], Encode(v, true));
  }

  lemma PieceWithoutValue(k: Bytes)
    ensures var s := Encode(k, true);
            Divided(s, EQ).0 == s && Decoded(s) == Param(k, []) && NormalPiece(s) == s
  {
    EncodedIsClean(k);
    Back(k);
    DivideWithout(Encode(k, true), EQ);
  }

  lemma NormalPieceMeans(kv: Bytes)
    requires HasKey(kv)
    ensures Solid(NormalPiece(kv), AMP)
    ensures HasKey(NormalPiece(kv))
    ensures Decoded(NormalPiece(kv)) == Decoded(kv)
    ensures NormalPiece(NormalPiece(kv)) == NormalPiece(kv)
  {
    var (key, val) := Divided(kv, EQ);
    var k, v := Decode(key, true), Decode(val, true);
    NonemptyStays(key);
    EncodedIsClean(k);
    EncodedIsClean(v);
    SolidPieces(Encode(k, true), Encode(v, true));
    if val != [] || EQ in kv {
      Reassociate(Encode(k, true), [EQ], Encode(v, true));
      PieceWithValue(k, v);
    } else {
      PieceWithoutValue(k);
    }
  }

  lemma {:induction false} NormalPiecesMean(kvs: seq<Bytes>)
    ensures forall i | 0 <= i < |NormalPieces(kvs)| :: Solid(NormalPieces(kvs)[i], AMP)
    ensures NormalPieces(NormalPieces(kvs)) == NormalPieces(kvs)
    ensures PairsOf(NormalPieces(kvs)) == PairsOf(kvs)
  {
    if kvs != [] {
      var rest := NormalPieces(kvs[1..]);
      NormalPiecesMean(kvs[1..]);
      if HasKey(kvs[0]) {
        var n := NormalPiece(kvs[0]);
        NormalPieceMeans(kvs[0]);
        assert NormalPieces(kvs) == [n] + rest && ([n] + rest)[1..] == rest;
      } else {
        assert NormalPieces(kvs) == rest;
      }
    }
  }

  /** The pairs the pieces stand for. */
  function PairsOf(kvs: seq<Bytes>): set<Param>
  {
    if kvs == [] then {} else (if HasKey(kvs[0]) then {Decoded(kvs[0])} else {}) + PairsOf(kvs[1..])
  }

  lemma {:induction false} CollectElements(params: seq<Param>, seen: set<Bytes>, kvs: seq<Bytes>)
    requires forall kv | kv in seen && HasKey(kv) :: Decoded(kv) in params
    ensures Elements(Collect(params, seen, kvs)) == Elements(params) + PairsOf(kvs)
    decreases |kvs|
  {
    if kvs != [] {
      var kv := kvs[0];
      EmplaceAdds(params, Decoded(kv));
      var params' := if kv in seen || !HasKey(kv) then params else Emplace(params, Decoded(kv));
      forall k | k in seen + {kv} && HasKey(k)
        ensures Decoded(k) in params'
      {
        assert Decoded(k) in Elements(params');
      }
      CollectElements(params', seen + {kv}, kvs[1..]);
    }
  }

  lemma NormalPiecesAreFound(query: Bytes)
    ensures Pieces(Normal(query), AMP) == NormalPieces(Pieces(query, AMP))
  {
    var kvs := NormalPieces(Pieces(query, AMP));
    NormalPiecesMean(Pieces(query, AMP));
    SplitOfJoin(kvs, AMP, [], []);
    assert [AMP] + [] == [AMP] && [] + Join(kvs, [AMP]) == Join(kvs, [AMP]);
  }

  /** Normalising twice is normalising once, and does not change the set of
      key/value pairs that parsing extracts, for every string. */
  lemma NormalizingIsIdempotentAndKeepsPairs(query: Bytes)
    ensures Normal(Normal(query)) == Normal(query)
    ensures Elements(ParamsOf(Normal(query))) == Elements(ParamsOf(query))
  {
    NormalPiecesAreFound(query);
    NormalPiecesMean(Pieces(query, AMP));
    CollectElements([], {}, Pieces(query, AMP));
    CollectElements([], {}, Pieces(Normal(query), AMP));
  }

  // When the multimap itself stays ---------------------------------------------------------------

  /** The keyed pieces, each once. */
  function Keyed(kvs: seq<Bytes>): set<Bytes>
  {
    set kv | kv in kvs && HasKey(kv)
  }

  /** Different pieces stay different. */
  predicate Apart(kvs: set<Bytes>)
  {
    forall a, b | a in kvs && b in kvs && NormalPiece(a) == NormalPiece(b) :: a == b
  }

  function NormalForms(kvs: set<Bytes>): set<Bytes>
  {
    set kv | kv in kvs :: NormalPiece(kv)
  }

  lemma KeyedCons(kvs: seq<Bytes>)
    requires kvs != []
    ensures Keyed(kvs) == (if HasKey(kvs[0]) then {kvs[0]} else {}) + Keyed(kvs[1..])
  {
    assert kvs == [kvs[0]] + kvs[1..];
  }

  lemma KeyedLess(rest: set<Bytes>, seen: set<Bytes>, kv: Bytes, keyed: bool)
    ensures |(if keyed then {kv} else {}) + rest - seen|
         == |rest - (seen + {kv})| + B((keyed || kv in rest) && kv !in seen)
  {
    var all := (if keyed then {kv} else {}) + rest - seen;
    var less := rest - (seen + {kv});
    assert all == if (keyed || kv in rest) && kv !in seen then less + {kv} else less;
  }

  lemma CollectFirst(params: seq<Param>, seen: set<Bytes>, kvs: seq<Bytes>)
    requires kvs != []
    ensures var kv := kvs[0];
            var params' := if kv in seen || !HasKey(kv) then params else Emplace(params, Decoded(kv));
            Collect(params, seen, kvs) == Collect(params', seen + {kv}, kvs[1..])
  {
  }

  /** One entry for each different keyed piece. */
  lemma {:induction false} CollectLength(params: seq<Param>, seen: set<Bytes>, kvs: seq<Bytes>)
    ensures |Collect(params, seen, kvs)| == |params| + |Keyed(kvs) - seen|
    decreases |kvs|
  {
    if kvs != [] {
      var kv := kvs[0];
      var params' := if kv in seen || !HasKey(kv) then params else Emplace(params, Decoded(kv));
      EmplaceAdds(params, Decoded(kv));
      CollectFirst(params, seen, kvs);
      KeyedCons(kvs);
      KeyedLess(Keyed(kvs[1..]), seen, kv, HasKey(kv));
      CollectLength(params', seen + {kv}, kvs[1..]);
    }
  }

  lemma FormsPlus(kvs: set<Bytes>, kv: Bytes)
    ensures NormalForms({kv} + kvs) == {NormalPiece(kv)} + NormalForms(kvs)
  {
  }

  lemma {:induction false} KeyedNormalPieces(kvs: seq<Bytes>)
    ensures Keyed(NormalPieces(kvs)) == NormalForms(Keyed(kvs))
  {
    if kvs != [] {
      var kv, rest := kvs[0], NormalPieces(kvs[1..]);
      KeyedNormalPieces(kvs[1..]);
      KeyedCons(kvs);
      if HasKey(kv) {
        NormalPieceMeans(kv);
        FormsPlus(Keyed(kvs[1..]), kv);
        KeyedCons([NormalPiece(kv)] + rest);
        assert ([NormalPiece(kv)] + rest)[1..] == rest;
      } else {
        assert {} + Keyed(kvs[1..]) == Keyed(kvs[1..]) && [] + rest == rest;
      }
    }
  }

  lemma {:induction false} FormsAtMost(kvs: set<Bytes>)
    ensures |NormalForms(kvs)| <= |kvs|
  {
    if kvs != {} {
      var a :| a in kvs;
      FormsAtMost(kvs - {a});
      assert NormalForms(kvs) == NormalForms(kvs - {a}) + {NormalPiece(a)};
    }
  }

  lemma FormsFewer(kvs: set<Bytes>)
    requires !Apart(kvs)
    ensures |NormalForms(kvs)| < |kvs|
  {
    var a, b :| a in kvs && b in kvs && NormalPiece(a) == NormalPiece(b) && a != b;
    OneFormLess(kvs, a, b);
    FormsAtMost(kvs - {a});
  }

  lemma OneFormLess(kvs: set<Bytes>, a: Bytes, b: Bytes)
    requires a in kvs && b in kvs && a != b && NormalPiece(a) == NormalPiece(b)
    ensures NormalForms(kvs) == NormalForms(kvs - {a})
  {
    FormIsThere(kvs - {a}, b);
    assert kvs == {a} + (kvs - {a});
    FormsPlus(kvs - {a}, a);
  }

  lemma FormIsThere(kvs: set<Bytes>, kv: Bytes)
    requires kv in kvs
    ensures NormalPiece(kv) in NormalForms(kvs)
  {
  }

  /** What was seen of the pieces was seen of their normal forms. */
  predicate SeenAlike(seen: set<Bytes>, seen': set<Bytes>, kvs: set<Bytes>)
  {
    forall kv | kv in kvs :: kv in seen <==> NormalPiece(kv) in seen'
  }

  lemma StillSeenAlike(seen: set<Bytes>, seen': set<Bytes>, kvs: seq<Bytes>)
    requires kvs != [] && Apart(Keyed(kvs)) && SeenAlike(seen, seen', Keyed(kvs))
    ensures var kv := kvs[0];
            && Apart(Keyed(kvs[1..]))
            && SeenAlike(seen + {kv}, seen' + (if HasKey(kv) then {NormalPiece(kv)} else {}), Keyed(kvs[1..]))
  {
    KeyedCons(kvs);
  }

  lemma {:induction false} SameCollect(params: seq<Param>, seen: set<Bytes>, seen': set<Bytes>, kvs: seq<Bytes>)
    requires Apart(Keyed(kvs)) && SeenAlike(seen, seen', Keyed(kvs))
    ensures Collect(params, seen', NormalPieces(kvs)) == Collect(params, seen, kvs)
    decreases |kvs|
  {
    if kvs != [] {
      var kv, rest := kvs[0], NormalPieces(kvs[1..]);
      StillSeenAlike(seen, seen', kvs);
      CollectFirst(params, seen, kvs);
      KeyedCons(kvs);
      if HasKey(kv) {
        var n := NormalPiece(kv);
        NormalPieceMeans(kv);
        CollectFirst(params, seen', [n] + rest);
        assert ([n] + rest)[1..] == rest;
        SameCollect(if kv in seen then params else Emplace(params, Decoded(kv)), seen + {kv}, seen' + {n}, kvs[1..]);
      } else {
        assert [] + rest == rest && seen' + {} == seen';
        SameCollect(params, seen + {kv}, seen', kvs[1..]);
      }
    }
  }

  lemma FromNothing(kvs: seq<Bytes>)
    ensures |Collect([], {}, kvs)| == |Keyed(kvs)|
  {
    CollectLength([], {}, kvs);
    assert Keyed(kvs) - {} == Keyed(kvs);
  }

  lemma MergedFormsShorten(kvs: seq<Bytes>)
    requires !Apart(Keyed(kvs))
    ensures |Collect([], {}, NormalPieces(kvs))| < |Collect([], {}, kvs)|
  {
    FromNothing(kvs);
    FromNothing(NormalPieces(kvs));
    KeyedNormalPieces(kvs);
    FormsFewer(Keyed(kvs));
  }

  lemma SameFromTheStart(kvs: seq<Bytes>)
    requires Apart(Keyed(kvs))
    ensures Collect([], {}, NormalPieces(kvs)) == Collect([], {}, kvs)
  {
    SameCollect([], {}, {}, kvs);
  }

  /** Normalising leaves the multimap that parsing yields as it was, entry for
      entry, if and only if no two different keyed pieces have the same normal
      form. */
  lemma NormalizingKeepsTheMultimapIff(query: Bytes)
    ensures ParamsOf(Normal(query)) == ParamsOf(query) <==> Apart(Keyed(Pieces(query, AMP)))
  {
    var kvs := Pieces(query, AMP);
    NormalPiecesAreFound(query);
    if Apart(Keyed(kvs)) {
      SameFromTheStart(kvs);
    } else {
      MergedFormsShorten(kvs);
    }
  }

  const ESCAPED: Bytes := [97, 61, 37, 52, 49]
  const PLAIN: Bytes := [97, 61, 65]

  /** "a=%41&a=A" is parsed as two entries, its normal form as one. */
  lemma TwoSpellingsBecomeOne()
    ensures var query := ESCAPED + [AMP] + PLAIN;
            ParamsOf(Normal(query)) != ParamsOf(query)
  {
    var query := ESCAPED + [AMP] + PLAIN;
    SpellingsAgree();
    SpellingsAreFound();
    assert ESCAPED in Keyed(Pieces(query, AMP)) && PLAIN in Keyed(Pieces(query, AMP));
    assert !Apart(Keyed(Pieces(query, AMP)));
    NormalizingKeepsTheMultimapIff(query);
  }

  lemma SpellingsAreFound()
    ensures Pieces(ESCAPED + [AMP] + PLAIN, AMP) == [ESCAPED, PLAIN]
  {
    var pieces := [ESCAPED, PLAIN];
    assert pieces[1..] == [PLAIN];
    assert Join(pieces, [AMP]) == ESCAPED + [AMP] + PLAIN;
    SplitOfJoin(pieces, AMP, [], []);
    assert [AMP] + [] == [AMP] && [] + Join(pieces, [AMP]) == Join(pieces, [AMP]);
  }

  lemma SpellingsAgree()
    ensures HasKey(ESCAPED) && HasKey(PLAIN) && NormalPiece(ESCAPED) == NormalPiece(PLAIN) && ESCAPED != PLAIN
  {
    var a, escape, letter: Bytes := [97], [PERCENT, 52, 49], [65];
    DivideOfJoin(a, EQ, escape);
    DivideOfJoin(a, EQ, letter);
    assert a + [EQ] + escape == ESCAPED && a + [EQ] + letter == PLAIN;
    EscapedLetter(escape, letter);
    assert |ESCAPED| != |PLAIN|;
  }

  lemma EscapedLetter(escape: Bytes, letter: Bytes)
    requires escape == [PERCENT, 52, 49] && letter == [65]
    ensures Decode(escape, true) == Decode(letter, true)
  {
    TwoDigits(52, 49);
    EscapeDecodes([52, 49], [], true);
    assert [PERCENT] + [52, 49] + [] == escape;
    LetterDecodes(65);
  }

  lemma LetterDecodes(c: byte)
    requires IsAlnum(c)
    ensures Decode([c], true) == [c] + Decode([], true)
  {
    assert [c][1..] == [];
  }
}
