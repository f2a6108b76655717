/** The multimap of query parameters: its keys in order, and what an insertion adds. */
module QueryOrder {
  import opened Bytes
  import Common
  import opened Text
  import opened Query
  import opened QueryProperties

  /** At k the texts differ for the first time, and a is the smaller one there or at
      its end. */
  predicate SmallerAt(a: Bytes, b: Bytes, k: nat)
  {
    k <= |a| && k < |b| && a[..k] == b[..k] && (k == |a| || a[k] < b[k])
  }

  /** The order of the keys is that of byte strings. */
  lemma {:induction false} LessMeans(a: Bytes, b: Bytes)
    ensures Less(a, b) <==> exists k: nat :: SmallerAt(a, b, k)
  {
    if b == [] || a == [] || a[0] != b[0] {
      if Less(a, b) {
        assert SmallerAt(a, b, 0);
      }
      forall k: nat | SmallerAt(a, b, k)
        ensures k == 0
      {
        if k > 0 {
          SharedFront(a, b, k);
        }
      }
    } else {
      LessMeans(a[1..], b[1..]);
      forall k: nat
        ensures SmallerAt(a, b, k) <==> k > 0 && SmallerAt(a[1..], b[1..], k - 1)
      {
        Shifted(a, b, k);
      }
      if Less(a, b) {
        var k: nat :| SmallerAt(a[1..], b[1..], k);
        assert SmallerAt(a, b, k + 1);
      }
    }
  }

  lemma SharedFront(a: Bytes, b: Bytes, k: nat)
    requires SmallerAt(a, b, k) && k > 0
    ensures a != [] && b != [] && a[0] == b[0]
  {
    assert a[..k][0] == a[0] && b[..k][0] == b[0];
  }

  lemma Shifted(a: Bytes, b: Bytes, k: nat)
    requires a != [] && b != [] && a[0] == b[0]
    ensures SmallerAt(a, b, k) <==> k > 0 && SmallerAt(a[1..], b[1..], k - 1)
  {
    if 0 < k <= |a| && k < |b| {
      assert a[..k] == [a[0]] + a[1..][..k - 1] && b[..k] == [b[0]] + b[1..][..k - 1];
      assert a[..k] == b[..k] <==> a[1..][..k - 1] == b[1..][..k - 1] by {
        assert a[..k][1..] == a[1..][..k - 1] && b[..k][1..] == b[1..][..k - 1];
      }
    }
  }

  /** Of two different keys exactly one is the smaller. */
  lemma {:induction false} LessIsTotal(a: Bytes, b: Bytes)
    ensures Less(a, b) || Less(b, a) || a == b
    ensures !(Less(a, b) && Less(b, a)) && !Less(a, a)
  {
    if a != [] && b != [] {
      LessIsTotal(a[1..], b[1..]);
      LessIsTotal(a[1..], a[1..]);
      assert a == [a[0]] + a[1..] && b == [b[0]] + b[1..];
    } else if a != [] {
      LessIsTotal(a[1..], a[1..]);
    }
  }

  lemma {:induction false} LessIsTransitive(a: Bytes, b: Bytes, c: Bytes)
    requires Less(a, b) && !Less(c, b)
    ensures Less(a, c)
  {
    if a != [] && c != [] && a[0] == b[0] == c[0] {
      LessIsTransitive(a[1..], b[1..], c[1..]);
    }
  }

  predicate Prefixes(params: seq<Param>, n: nat, key: Bytes)
    requires n <= |params|
  {
    && (forall i | 0 <= i < n :: !Less(key, params[i].key))
    && (n < |params| ==> Less(key, params[n].key))
  }

  /** An entry goes behind all entries whose key is not larger, in front of the rest. */
  lemma {:induction false} EmplaceAt(params: seq<Param>, p: Param) returns (n: nat)
    ensures n <= |params| && Prefixes(params, n, p.key)
    ensures Emplace(params, p) == params[..n] + [p] + params[n..]
  {
    if params == [] || Less(p.key, params[0].key) {
      n := 0;
    } else {
      n := EmplaceAt(params[1..], p);
      n := n + 1;
      assert params[..n] == [params[0]] + params[1..][..n - 1];
      assert params[n..] == params[1..][n - 1..];
    }
  }

  /** The keys stay in order. */
  lemma EmplaceKeepsOrder(params: seq<Param>, p: Param)
    requires ByKey(params)
    ensures ByKey(Emplace(params, p))
  {
    var n := EmplaceAt(params, p);
    var all := Emplace(params, p);
    forall i, j | 0 <= i < j < |all|
      ensures !Less(all[j].key, all[i].key)
    {
      if j == n {
        assert all[j] == p && all[i] == params[i];
      } else if i == n {
        BehindIsLarger(params, p, n, j - 1);
        LessIsTotal(p.key, params[j - 1].key);
      } else {
        var i', j' := if i < n then i else i - 1, if j < n then j else j - 1;
        assert all[i] == params[i'] && all[j] == params[j'];
      }
    }
  }

  lemma BehindIsLarger(params: seq<Param>, p: Param, n: nat, j: nat)
    requires ByKey(params) && n <= j < |params| && Prefixes(params, n, p.key)
    ensures Less(p.key, params[j].key)
  {
    if n < j {
      LessIsTransitive(p.key, params[n].key, params[j].key);
    }
  }

  lemma {:induction false} CollectKeepsOrder(params: seq<Param>, seen: set<Bytes>, kvs: seq<Bytes>)
    requires ByKey(params)
    ensures ByKey(Collect(params, seen, kvs))
    decreases |kvs|
  {
    if kvs != [] {
      EmplaceKeepsOrder(params, Decoded(kvs[0]));
      CollectFirst(params, seen, kvs);
      CollectKeepsOrder(if kvs[0] in seen || !HasKey(kvs[0]) then params else Emplace(params, Decoded(kvs[0])),
                        seen + {kvs[0]}, kvs[1..]);
    }
  }

  /** Whatever the query, its parameters are in the order of their keys. */
  lemma ParamsAreInOrder(query: Bytes)
    ensures ByKey(ParamsOf(query))
  {
    CollectKeepsOrder([], {}, Pieces(query, AMP));
  }

  // Equal keys -----------------------------------------------------------------------------

  /** The values of a key, in their order. */
  function ValuesOf(params: seq<Param>, key: Bytes): seq<Bytes>
  {
    if params == [] then []
    else (if params[0].key == key then [params[0].val] else []) + ValuesOf(params[1..], key)
  }

  lemma {:induction false} ValuesOfConcat(a: seq<Param>, b: seq<Param>, key: Bytes)
    ensures ValuesOf(a + b, key) == ValuesOf(a, key) + ValuesOf(b, key)
  {
    if a == [] {
      assert a + b == b;
    } else {
      assert (a + b)[1..] == a[1..] + b;
      ValuesOfConcat(a[1..], b, key);
    }
  }

  lemma ValuesOfOne(p: Param, key: Bytes)
    ensures ValuesOf([p], key) == if p.key == key then [p.val] else []
  {
    assert [p][1..] == [];
  }

  lemma {:induction false} NoValues(params: seq<Param>, key: Bytes)
    requires forall i | 0 <= i < |params| :: params[i].key != key
    ensures ValuesOf(params, key) == []
  {
    if params != [] {
      NoValues(params[1..], key);
    }
  }

  /** An insertion puts its value behind those of its key, and leaves other keys alone. */
  lemma EmplaceAppends(params: seq<Param>, p: Param, key: Bytes)
    requires ByKey(params)
    ensures ValuesOf(Emplace(params, p), key) == ValuesOf(params, key) + if p.key == key then [p.val] else []
  {
    var n := EmplaceAt(params, p);
    var front, back := params[..n], params[n..];
    assert params == front + back;
    ValuesOfConcat(front, back, key);
    ValuesOfConcat(front + [p], back, key);
    ValuesOfConcat(front, [p], key);
    ValuesOfOne(p, key);
    if p.key == key {
      forall i | 0 <= i < |back|
        ensures back[i].key != key
      {
        BehindIsLarger(params, p, n, n + i);
        LessIsTotal(key, key);
      }
      NoValues(back, key);
    }
  }

  /** The values of a key in a query: those of the pieces with that key, each piece
      once, in the order in which they stand there. */
  function Wanted(seen: set<Bytes>, kvs: seq<Bytes>, key: Bytes): seq<Bytes>
    decreases |kvs|
  {
    if kvs == [] then []
    else
      var kv := kvs[0];
      (if kv !in seen && HasKey(kv) && Decoded(kv).key == key then [Decoded(kv).val] else [])
      + Wanted(seen + {kv}, kvs[1..], key)
  }

  lemma {:induction false} CollectKeepsValues(params: seq<Param>, seen: set<Bytes>, kvs: seq<Bytes>, key: Bytes)
    requires ByKey(params)
    ensures ValuesOf(Collect(params, seen, kvs), key) == ValuesOf(params, key) + Wanted(seen, kvs, key)
    decreases |kvs|
  {
    if kvs != [] {
      var kv := kvs[0];
      var params' := if kv in seen || !HasKey(kv) then params else Emplace(params, Decoded(kv));
      EmplaceKeepsOrder(params, Decoded(kv));
      EmplaceAppends(params, Decoded(kv), key);
      CollectFirst(params, seen, kvs);
      CollectKeepsValues(params', seen + {kv}, kvs[1..], key);
      var found := if kv !in seen && HasKey(kv) && Decoded(kv).key == key then [Decoded(kv).val] else [];
      Common.Reassociate(ValuesOf(params, key), found, Wanted(seen + {kv}, kvs[1..], key));
      assert ValuesOf(params, key) + [] == ValuesOf(params, key);
    }
  }

  lemma ValuesStayInOrder(query: Bytes, key: Bytes)
    ensures ValuesOf(ParamsOf(query), key) == Wanted({}, Pieces(query, AMP), key)
  {
    CollectKeepsValues([], {}, Pieces(query, AMP), key);
    assert [] + Wanted({}, Pieces(query, AMP), key) == Wanted({}, Pieces(query, AMP), key);
  }

  // Normal forms ---------------------------------------------------------------------------

  /** Two keyed pieces have the same normal form exactly if they stand for the same
      pair and both have an equals sign or neither has. */
  lemma NormalFormsAgreeIff(a: Bytes, b: Bytes)
    requires HasKey(a) && HasKey(b)
    ensures NormalPiece(a) == NormalPiece(b) <==> Decoded(a) == Decoded(b) && (EQ in a <==> EQ in b)
  {
    NormalPieceMeans(a);
    NormalPieceMeans(b);
    NormalKeepsShape(a);
    NormalKeepsShape(b);
  }

  lemma NormalKeepsShape(kv: Bytes)
    requires HasKey(kv)
    ensures EQ in NormalPiece(kv) <==> EQ in kv
    ensures EQ !in kv ==> Divided(kv, EQ) == (kv, [])
  {
    var (key, val) := Divided(kv, EQ);
    EncodedIsClean(Decode(key, true));
    if EQ !in kv {
      DivideWithout(kv, EQ);
    }
  }

  lemma {:induction false} NormalPiecesConcat(a: seq<Bytes>, b: seq<Bytes>)
    ensures NormalPieces(a + b) == NormalPieces(a) + NormalPieces(b)
  {
    if a == [] {
      assert a + b == b;
    } else {
      assert (a + b)[0] == a[0] && (a + b)[1..] == a[1..] + b;
      NormalPiecesConcat(a[1..], b);
      Common.Reassociate(NormalOf(a[0]), NormalPieces(a[1..]), NormalPieces(b));
    }
  }

  /** Normalising keeps the order of the pieces: the normal form of two queries in one
      has the pieces of the first and then those of the second. */
  lemma NormalizingKeepsTheOrder(a: Bytes, b: Bytes)
    ensures Pieces(Normal(a + [AMP] + b), AMP) == Pieces(Normal(a), AMP) + Pieces(Normal(b), AMP)
  {
    PiecesOfJoin(a, AMP, b);
    NormalPiecesAreFound(a + [AMP] + b);
    NormalPiecesAreFound(a);
    NormalPiecesAreFound(b);
    NormalPiecesConcat(Pieces(a, AMP), Pieces(b, AMP));
  }
}
