/** What the pieces of a cut text are made of. */
module TextPieces {
  import opened Bytes
  import opened Text

  lemma {:induction false} DropFrontKeeps(s: Bytes)
    ensures |DropFront(s)| <= |s| && forall c | c in DropFront(s) :: c in s
  {
    if s != [] && IsBlank(s[0]) {
      DropFrontKeeps(s[1..]);
    }
  }

  lemma {:induction false} DropBackKeeps(s: Bytes)
    ensures |DropBack(s)| <= |s| && forall c | c in DropBack(s) :: c in s
  {
    if s != [] && IsBlank(s[|s| - 1]) {
      DropBackKeeps(s[..|s| - 1]);
    }
  }

  lemma TrimmedKeeps(s: Bytes)
    ensures |Trimmed(s)| <= |s| && forall c | c in Trimmed(s) :: c in s
  {
    DropFrontKeeps(s);
    DropBackKeeps(DropFront(s));
  }

  /** A piece of s has no delimiter, no byte that s does not have, and is no longer. */
  ghost predicate PieceOf(p: Bytes, s: Bytes, d: byte)
  {
    d !in p && |p| <= |s| && forall c | c in p :: c in s
  }

  lemma {:induction false} PiecesAreOf(s: Bytes, d: byte)
    ensures forall p | p in Pieces(s, d) :: PieceOf(p, s, d)
    decreases |s|
  {
    var i := Index(s, d);
    TrimmedKeeps(s[..i]);
    if i == |s| {
      assert s[..i] == s;
    } else {
      PiecesAreOf(s[i + 1..], d);
      forall p | p in Pieces(s, d)
        ensures PieceOf(p, s, d)
      {
        if p !in Kept(s[..i]) {
          assert PieceOf(p, s[i + 1..], d);
        }
      }
    }
  }

  /** Two pieces and what separates them. */
  lemma FirstAndLast(s: Bytes, d: byte)
    requires |Pieces(s, d)| > 1
    ensures var ps := Pieces(s, d); |ps[0]| + 1 + |ps[|ps| - 1]| <= |s|
    decreases |s|
  {
    var ps, i := Pieces(s, d), Index(s, d);
    var rest := s[i + 1..];
    if Kept(s[..i]) == [] {
      assert ps == Pieces(rest, d);
      FirstAndLast(rest, d);
    } else {
      TrimmedKeeps(s[..i]);
      PiecesAreOf(rest, d);
      assert ps[|ps| - 1] in Pieces(rest, d);
    }
  }

  /** What trimming leaves of a text that starts with a solid head. */
  lemma {:induction false} HeadStays(head: Bytes, v: Bytes) returns (w: Bytes)
    requires head != [] && !IsBlank(head[0]) && !IsBlank(head[|head| - 1])
    ensures w <= v && Trimmed(head + v) == head + w
    ensures v != [] && !IsBlank(v[|v| - 1]) ==> w == v
    decreases |v|
  {
    if v == [] || !IsBlank(v[|v| - 1]) {
      w := v;
    } else {
      w := HeadStays(head, v[..|v| - 1]);
      assert (head + v)[..|head + v| - 1] == head + v[..|v| - 1];
    }
  }

  /** The first piece of such a text. */
  lemma FirstPiece(head: Bytes, v: Bytes, d: byte) returns (w: Bytes)
    requires head != [] && !IsBlank(head[0]) && !IsBlank(head[|head| - 1]) && d !in head
    ensures d !in w
    ensures Pieces(head + v, d) != [] && Pieces(head + v, d)[0] == head + w
  {
    var i := Index(v, d);
    var s := head + v;
    w := HeadStays(head, v[..i]);
    assert s[..|head| + i] == head + v[..i];
    IndexIs(s, d, |head| + i);
    assert s[..|s|] == s && Kept(s[..|head| + i]) == [head + w];
    assert d !in w by {
      TrimmedKeeps(head + v[..i]);
      assert forall c | c in w :: c in head + w;
    }
  }

  /** A solid text and, behind the delimiter, more. */
  lemma SolidFirst(s: Bytes, d: byte, rest: Bytes)
    requires Solid(s, d)
    ensures Pieces(s + [d] + rest, d) == [s] + Pieces(rest, d)
    ensures Pieces(s, d) == [s]
  {
    var t := s + [d] + rest;
    assert t[0..] == t && t[0..|s|] == s && t[|s| + 1..] == rest;
    CutHere(t, d, 0, |s|);
    SolidIsKept(s, [], d);
    assert [] + s == s;
    NoCut(s, d);
  }
}
