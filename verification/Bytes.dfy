/** Byte strings and the search for a delimiter inside one. */
module Bytes {

  type byte = x: int | 0 <= x < 0x100

  type Bytes = seq<byte>

  const CR: byte := 13
  const LF: byte := 10
  const CRLF: Bytes := [CR, LF]
  const SPACE: byte := 32
  const PERCENT: byte := 37
  const EQ: byte := 61
  const DASHES: Bytes := [45, 45]
  /** "Content-Type: " */
  const CONTENT_TYPE: Bytes := [67, 111, 110, 116, 101, 110, 116, 45, 84, 121, 112, 101, 58, 32]
  /** The limit on a header line. */
  const HEADER_MAX_LENGTH: nat := 8192

  function Zeros(n: nat): Bytes { seq(n, _ => 0) }

  ghost predicate OccursAt(t: Bytes, s: Bytes, i: int)
  {
    0 <= i && i + |s| <= |t| && t[i..i + |s|] == s
  }

  ghost predicate Occurs(t: Bytes, s: Bytes)
  {
    exists i :: OccursAt(t, s, i)
  }

  /** The first position at which s occurs in t, or |t| when it occurs nowhere. */
  ghost function Find(t: Bytes, s: Bytes): (r: nat)
    requires s != []
    ensures r + |s| <= |t| || r == |t|
  {
    FindFrom(t, s, 0)
  }

  ghost function FindFrom(t: Bytes, s: Bytes, i: nat): (r: nat)
    requires s != [] && i <= |t|
    ensures r + |s| <= |t| || r == |t|
    decreases |t| - i
  {
    if i == |t| || OccursAt(t, s, i) then i else FindFrom(t, s, i + 1)
  }

  lemma {:induction false} FindFromMeans(t: Bytes, s: Bytes, i: nat)
    requires s != [] && i <= |t|
    ensures var r := FindFrom(t, s, i);
            && i <= r <= |t|
            && (r < |t| ==> OccursAt(t, s, r))
            && forall j | i <= j < r :: !OccursAt(t, s, j)
    decreases |t| - i
  {
    if i < |t| && !OccursAt(t, s, i) {
      FindFromMeans(t, s, i + 1);
    }
  }

  lemma FindMeans(t: Bytes, s: Bytes)
    requires s != []
    ensures var r := Find(t, s);
            && r <= |t|
            && (r < |t| ==> OccursAt(t, s, r))
            && forall j | 0 <= j < r :: !OccursAt(t, s, j)
  {
    FindFromMeans(t, s, 0);
  }

  /** The search result is determined by what it says. */
  lemma FindIs(t: Bytes, s: Bytes, r: nat)
    requires s != [] && r <= |t|
    requires r < |t| ==> OccursAt(t, s, r)
    requires forall j | 0 <= j < r :: !OccursAt(t, s, j)
    ensures Find(t, s) == r
  {
    var k := Find(t, s);
    FindMeans(t, s);
    assert k < |t| ==> OccursAt(t, s, k);
    assert r < |t| ==> OccursAt(t, s, r);
  }

  ghost predicate NoneBefore(t: Bytes, s: Bytes, n: nat)
  {
    forall j | 0 <= j < n :: !OccursAt(t, s, j)
  }

  /** At a place where the first byte differs, or what follows is not s. */
  lemma NotHere(t: Bytes, s: Bytes, i: nat)
    requires s != [] && i < |t| && NoneBefore(t, s, i) && (t[i] != s[0] || !(s <= t[i..]))
    ensures NoneBefore(t, s, i + 1)
  {
    if i + |s| <= |t| {
      assert t[i..i + |s|] == t[i..][..|s|] && t[i..i + |s|][0] == t[i];
    }
  }

  lemma FoundHere(t: Bytes, s: Bytes, i: nat)
    requires s != [] && i < |t| && NoneBefore(t, s, i) && s <= t[i..]
    ensures Find(t, s) == i
  {
    assert t[i..i + |s|] == t[i..][..|s|];
    FindIs(t, s, i);
  }

  /** No room is left for s. */
  lemma FoundNowhere(t: Bytes, s: Bytes, i: nat)
    requires s != [] && NoneBefore(t, s, i) && |t| < i + |s|
    ensures Find(t, s) == |t|
  {
    FindIs(t, s, |t|);
  }

  /** An occurrence in t survives when t is extended, and an occurrence of the
      extension that ends inside t is one of t. */
  lemma OccursInExtension(t: Bytes, u: Bytes, s: Bytes, i: int)
    requires i + |s| <= |t|
    ensures OccursAt(t + u, s, i) <==> OccursAt(t, s, i)
  {
    if 0 <= i {
      assert (t + u)[i..i + |s|] == t[i..i + |s|];
    }
  }

  lemma OccursBehind(t: Bytes, k: nat, s: Bytes, i: nat)
    requires k <= |t| && OccursAt(t[k..], s, i)
    ensures OccursAt(t, s, k + i)
  {
    assert t[k..][i..i + |s|] == t[k + i..k + i + |s|];
  }

  /** Searching a prefix of the data gives the same answer once the whole
      delimiter has arrived, and no answer before. */
  lemma FindInPrefix(w: Bytes, future: Bytes, s: Bytes)
    requires s != []
    ensures var k := Find(w + future, s);
            Find(w, s) == if k + |s| <= |w| then k else |w|
  {
    var k := Find(w + future, s);
    FindMeans(w + future, s);
    var r := if k + |s| <= |w| then k else |w|;
    forall j | 0 <= j < r
      ensures !OccursAt(w, s, j)
    {
      if j < k && j + |s| <= |w| {
        OccursInExtension(w, future, s, j);
      }
    }
    if r < |w| {
      OccursInExtension(w, future, s, k);
    }
    FindIs(w, s, r);
  }

  /** A delimiter whose first byte does not come back inside it is found exactly
      at the end of the text it closes. */
  lemma FindAfter(text: Bytes, s: Bytes, rest: Bytes)
    requires s != [] && s[0] !in s[1..]
    requires !Occurs(text, s)
    ensures Find(text + s + rest, s) == |text|
  {
    var all := text + s + rest;
    assert all[|text|..|text| + |s|] == s;
    forall j | 0 <= j < |text|
      ensures !OccursAt(all, s, j)
    {
      if j + |s| <= |text| {
        assert !OccursAt(text, s, j);
        OccursInExtension(text, s + rest, s, j);
        assert all == text + (s + rest);
      } else {
        // the delimiter would overlap itself
        var k := |text| - j;
        assert s[k] == s[1..][k - 1];
        assert j + |s| <= |all| ==> all[j..j + |s|][k] == s[0];
      }
    }
    FindIs(all, s, |text|);
  }

  ghost function Concat(blocks: seq<Bytes>): Bytes
  {
    if blocks == [] then [] else blocks[0] + Concat(blocks[1..])
  }
}
