/** Cutting text: `trim`, `split` and `divide`. */
module Text {
  import opened Bytes
  import opened Common

  /** An entry of a multimap of parameters. */
  datatype Param = Param(key: Bytes, val: Bytes)

  predicate IsBlank(c: byte) { c == 32 || c == 9 }

  predicate AllBlank(s: Bytes)
  {
    forall i | 0 <= i < |s| :: IsBlank(s[i])
  }

  predicate BlankBetween(s: Bytes, from: nat, to: nat)
    requires to <= |s|
  {
    forall i | from <= i < to :: IsBlank(s[i])
  }

  function DropFront(s: Bytes): Bytes
  {
    if s != [] && IsBlank(s[0]) then DropFront(s[1..]) else s
  }

  function DropBack(s: Bytes): Bytes
  {
    if s != [] && IsBlank(s[|s| - 1]) then DropBack(s[..|s| - 1]) else s
  }

  /** Without blanks at either end. */
  function Trimmed(s: Bytes): Bytes { DropBack(DropFront(s)) }

  /** What is left of a cut once blank pieces are dropped. */
  function Kept(s: Bytes): seq<Bytes>
  {
    if Trimmed(s) == [] then [] else [Trimmed(s)]
  }

  /** The position of the first d, or |s|. */
  function Index(s: Bytes, d: byte): (i: nat)
    ensures i <= |s|
    ensures i < |s| ==> s[i] == d
    ensures d !in s[..i]
  {
    if s == [] || s[0] == d then 0 else 1 + Index(s[1..], d)
  }

  /** The trimmed nonempty pieces between the d's. */
  function Pieces(s: Bytes, d: byte): seq<Bytes>
    decreases |s|
  {
    var i := Index(s, d);
    if i == |s| then Kept(s) else Kept(s[..i]) + Pieces(s[i + 1..], d)
  }

  // The code ---------------------------------------------------------------------------

  /** The bounds may cross when there is nothing but blanks between them. */
  method Trim(s: Bytes, left: nat, right: nat) returns (l: nat, r: nat)
    requires left <= |s| && right <= |s|
    ensures left <= l <= |s| && BlankBetween(s, left, l) && (l < |s| ==> !IsBlank(s[l]))
    ensures r <= right && BlankBetween(s, r, right) && (r > 0 ==> !IsBlank(s[r - 1]))
  {
    l, r := left, right;
    while l < |s| && IsBlank(s[l])
      invariant left <= l <= |s|
      invariant BlankBetween(s, left, l)
    {
      l := l + 1;
    }
    while r > 0 && IsBlank(s[r - 1])
      invariant r <= right
      invariant BlankBetween(s, r, right)
    {
      r := r - 1;
    }
  }

  lemma {:induction false} DropFrontBlank(a: Bytes, s: Bytes)
    requires AllBlank(a)
    ensures DropFront(a + s) == DropFront(s)
  {
    if a == [] {
      assert a + s == s;
    } else {
      assert (a + s)[1..] == a[1..] + s;
      DropFrontBlank(a[1..], s);
    }
  }

  lemma {:induction false} DropBackBlank(s: Bytes, b: Bytes)
    requires AllBlank(b)
    ensures DropBack(s + b) == DropBack(s)
  {
    if b == [] {
      assert s + b == s;
    } else {
      assert (s + b)[..|s + b| - 1] == s + b[..|b| - 1];
      DropBackBlank(s, b[..|b| - 1]);
    }
  }

  lemma BlankIsDropped(s: Bytes)
    requires AllBlank(s)
    ensures Trimmed(s) == []
  {
    DropFrontBlank(s, []);
    assert s + [] == s;
  }

  lemma CoreStays(a: Bytes, core: Bytes, b: Bytes)
    requires AllBlank(a) && AllBlank(b)
    requires core != [] && !IsBlank(core[0]) && !IsBlank(core[|core| - 1])
    ensures Trimmed(a + core + b) == core
  {
    assert a + core + b == a + (core + b);
    DropFrontBlank(a, core + b);
    DropBackBlank(core, b);
  }

  /** `Trim` on a stretch of s finds its trimmed form, or crosses over. */
  lemma TrimMeans(s: Bytes, left: nat, right: nat, l: nat, r: nat)
    requires left <= right <= |s|
    requires left <= l <= |s| && BlankBetween(s, left, l) && (l < |s| ==> !IsBlank(s[l]))
    requires r <= right && BlankBetween(s, r, right) && (r > 0 ==> !IsBlank(s[r - 1]))
    ensures Kept(s[left..right]) == if l < r then [s[l..r]] else []
  {
    var t := s[left..right];
    if l < r {
      assert t == s[left..l] + s[l..r] + s[r..right];
      CoreStays(s[left..l], s[l..r], s[r..right]);
    } else {
      assert AllBlank(t) by {
        forall i | 0 <= i < |t|
          ensures IsBlank(t[i])
        {
          assert t[i] == s[left + i];
        }
      }
      BlankIsDropped(t);
    }
  }

  /** One piece, if there is anything to it. */
  method Piece(s: Bytes, beg: nat, end: nat) returns (piece: seq<Bytes>)
    requires beg <= end <= |s|
    ensures piece == Kept(s[beg..end])
  {
    var l, r := Trim(s, beg, end);
    TrimMeans(s, beg, end, l, r);
    piece := if l < r then [s[l..r]] else [];
  }

  /** The pieces in the order in which the callback of `split` sees them. */
  method Split(s: Bytes, d: byte) returns (pieces: seq<Bytes>)
    ensures pieces == Pieces(s, d)
  {
    pieces := [];
    ghost var total := Pieces(s, d);
    var i, beg := 0, 0;
    assert s[0..] == s;
    while i < |s|
      invariant 0 <= beg <= i <= |s|
      invariant NoneBetween(s, d, beg, i)
      invariant Pending(pieces, s, d, beg, total)
    {
      if s[i] == d {
        var piece := Piece(s, beg, i);
        NextPiece(pieces, s, d, beg, i, total);
        pieces := pieces + piece;
        beg := i + 1;
      }
      i := i + 1;
    }
    LastPiece(pieces, s, d, beg, total);
    if i > 0 {
      var piece := Piece(s, beg, i);
      pieces := pieces + piece;
    }
  }

  predicate NoneBetween(s: Bytes, d: byte, from: nat, to: nat)
    requires to <= |s|
  {
    forall k | from <= k < to :: s[k] != d
  }

  /** The pieces so far, and those of the rest, are all of them. */
  predicate Pending(pieces: seq<Bytes>, s: Bytes, d: byte, beg: nat, total: seq<Bytes>)
  {
    beg <= |s| && pieces + Pieces(s[beg..], d) == total
  }

  lemma NextPiece(pieces: seq<Bytes>, s: Bytes, d: byte, beg: nat, i: nat, total: seq<Bytes>)
    requires Pending(pieces, s, d, beg, total)
    requires beg <= i < |s| && s[i] == d && NoneBetween(s, d, beg, i)
    ensures Pending(pieces + Kept(s[beg..i]), s, d, i + 1, total)
  {
    CutHere(s, d, beg, i);
    Reassociate(pieces, Kept(s[beg..i]), Pieces(s[i + 1..], d));
  }

  lemma LastPiece(pieces: seq<Bytes>, s: Bytes, d: byte, beg: nat, total: seq<Bytes>)
    requires Pending(pieces, s, d, beg, total) && NoneBetween(s, d, beg, |s|)
    ensures pieces + Kept(s[beg..|s|]) == total
    ensures s == [] ==> pieces == total
  {
    assert s[beg..|s|] == s[beg..];
    NoCut(s[beg..], d);
    if s == [] {
      BlankIsDropped(s[beg..|s|]);
    }
  }

  lemma {:induction false} IndexIs(s: Bytes, d: byte, i: nat)
    requires i <= |s| && d !in s[..i] && (i < |s| ==> s[i] == d)
    ensures Index(s, d) == i
  {
    if i > 0 {
      assert s[..i][0] == s[0] && s[1..][..i - 1] == s[..i][1..];
      IndexIs(s[1..], d, i - 1);
    }
  }

  lemma CutHere(s: Bytes, d: byte, beg: nat, i: nat)
    requires beg <= i < |s| && s[i] == d && NoneBetween(s, d, beg, i)
    ensures Pieces(s[beg..], d) == Kept(s[beg..i]) + Pieces(s[i + 1..], d)
  {
    var t := s[beg..];
    assert t[..i - beg] == s[beg..i] && t[i - beg + 1..] == s[i + 1..];
    IndexIs(t, d, i - beg);
  }

  lemma NoCut(s: Bytes, d: byte)
    requires d !in s
    ensures Pieces(s, d) == Kept(s)
  {
    assert s[..|s|] == s;
    IndexIs(s, d, |s|);
  }

  /** `divide`: what is before the first d, and what is behind it. */
  method Divide(s: Bytes, d: byte) returns (lhs: Bytes, rhs: Bytes)
    ensures (lhs, rhs) == Divided(s, d)
  {
    var at := 0;
    while at < |s| && s[at] != d
      invariant 0 <= at <= |s| && d !in s[..at]
    {
      at := at + 1;
    }
    IndexIs(s, d, at);
    var found := if at < |s| then 1 else 0;
    lhs, rhs := s[..at], s[at + found..];
    assert at == |s| ==> rhs == [];
  }

  function Divided(s: Bytes, d: byte): (Bytes, Bytes)
  {
    var i := Index(s, d);
    (s[..i], if i < |s| then s[i + 1..] else [])
  }

  // Joining -------------------------------------------------------------------------------

  function Join(pieces: seq<Bytes>, d: Bytes): Bytes
  {
    if pieces == [] then []
    else if |pieces| == 1 then pieces[0]
    else pieces[0] + d + Join(pieces[1..], d)
  }

  lemma {:induction false} JoinSnoc(pieces: seq<Bytes>, last: Bytes, d: Bytes)
    ensures Join(pieces + [last], d) == if pieces == [] then last else Join(pieces, d) + d + last
  {
    if |pieces| > 1 {
      assert (pieces + [last])[1..] == pieces[1..] + [last];
      JoinSnoc(pieces[1..], last, d);
    } else if |pieces| == 1 {
      assert (pieces + [last])[1..] == [last];
    }
  }

  /** A piece that trimming leaves alone and that holds no delimiter. */
  predicate Solid(s: Bytes, d: byte)
  {
    s != [] && !IsBlank(s[0]) && !IsBlank(s[|s| - 1]) && d !in s
  }

  lemma SolidIsKept(s: Bytes, a: Bytes, d: byte)
    requires Solid(s, d) && AllBlank(a)
    ensures Kept(a + s) == [s]
  {
    CoreStays(a, s, []);
    assert a + s + [] == a + s;
  }

  /** Cut at any delimiter, a text has the pieces of both sides; and a text without one
      is a single piece, or none if it is blank. */
  lemma {:induction false} PiecesOfJoin(a: Bytes, d: byte, b: Bytes)
    ensures Pieces(a + [d] + b, d) == Pieces(a, d) + Pieces(b, d)
    decreases |a|
  {
    var s := a + [d] + b;
    var i := Index(a, d);
    if i == |a| {
      NoCut(a, d);
      assert s[0..] == s && s[0..|a|] == a && s[|a| + 1..] == b;
      CutHere(s, d, 0, |a|);
    } else {
      assert s[..i] == a[..i] && s[i] == d && s[i + 1..] == a[i + 1..] + [d] + b;
      IndexIs(s, d, i);
      PiecesOfJoin(a[i + 1..], d, b);
      Reassociate(Kept(a[..i]), Pieces(a[i + 1..], d), Pieces(b, d));
    }
  }

  /** A piece loses the blanks around it. */
  lemma OnePiece(front: Bytes, core: Bytes, back: Bytes, d: byte)
    requires AllBlank(front) && AllBlank(back) && d !in front && d !in back && d !in core
    requires core != [] ==> !IsBlank(core[0]) && !IsBlank(core[|core| - 1])
    ensures Pieces(front + core + back, d) == if core == [] then [] else [core]
  {
    NoCut(front + core + back, d);
    if core == [] {
      BlankIsDropped(front + core + back);
    } else {
      CoreStays(front, core, back);
    }
  }

  /** Splitting undoes joining, also when blanks follow the delimiter. */
  lemma {:induction false} SplitOfJoin(pieces: seq<Bytes>, d: byte, blanks: Bytes, front: Bytes)
    requires forall i | 0 <= i < |pieces| :: Solid(pieces[i], d)
    requires AllBlank(blanks) && AllBlank(front) && d !in blanks && d !in front
    ensures Pieces(front + Join(pieces, [d] + blanks), d) == pieces
    decreases |pieces|
  {
    var s := front + Join(pieces, [d] + blanks);
    if pieces == [] {
      NoCut(s, d);
      assert s == front;
      BlankIsDropped(s);
    } else if |pieces| == 1 {
      NoCut(s, d);
      SolidIsKept(pieces[0], front, d);
      assert pieces == [pieces[0]];
    } else {
      var head, rest := front + pieces[0], pieces[1..];
      var tail := blanks + Join(rest, [d] + blanks);
      assert s == head + [d] + tail;
      assert s[..|head|] == head && s[|head|] == d && s[|head| + 1..] == tail;
      IndexIs(s, d, |head|);
      SolidIsKept(pieces[0], front, d);
      SplitOfJoin(rest, d, blanks, blanks);
      assert pieces == [pieces[0]] + rest;
    }
  }

  lemma DivideOfJoin(lhs: Bytes, d: byte, rhs: Bytes)
    requires d !in lhs
    ensures Divided(lhs + [d] + rhs, d) == (lhs, rhs)
  {
    var s := lhs + [d] + rhs;
    assert s[..|lhs|] == lhs && s[|lhs| + 1..] == rhs;
    IndexIs(s, d, |lhs|);
  }

  lemma DivideWithout(s: Bytes, d: byte)
    requires d !in s
    ensures Divided(s, d) == (s, [])
  {
    assert s[..|s|] == s;
    IndexIs(s, d, |s|);
  }
}
