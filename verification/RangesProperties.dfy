/** What coalescing does to the set of requested bytes, for every order in which
    the sort may leave equal starts. */
module RangesProperties {
  import opened Common
  import opened Ranges

  /** The byte positions a range asks for; section 14.1.2 of RFC 9110.  A pair of
      two absent ends asks for everything. */
  predicate Requested(r: Range, len: nat, p: int)
  {
    0 <= p < len &&
    if r.first == -1 && r.last == -1 then true
    else if r.first == -1 then len - r.last <= p
    else if r.last == -1 then r.first <= p
    else r.first <= p <= r.last
  }

  predicate Covers(rs: seq<Range>, p: int)
  {
    exists i :: 0 <= i < |rs| && Holds(rs[i], p)
  }

  predicate AnyRequested(rs: seq<Range>, len: nat, p: int)
  {
    exists i :: 0 <= i < |rs| && Requested(rs[i], len, p)
  }

  /** Neither overlapping nor adjacent, in order. */
  predicate Separate(rs: seq<Range>)
  {
    forall i, j | 0 <= i < j < |rs| :: rs[i].last + 1 < rs[j].first
  }

  predicate WellFormed(r: Range)
  {
    r.first >= -1 && r.last >= -1 && (r.first != -1 && r.last != -1 ==> r.first <= r.last)
  }

  // One range -------------------------------------------------------------------------

  lemma NormalizeKeepsBytes(r: Range, len: nat, p: int)
    requires InBounds(Normalize(r, len), len)
    ensures Requested(r, len, p) <==> Holds(Normalize(r, len), p)
  {
  }

  lemma NormalizeIsStable(r: Range, len: nat)
    requires InBounds(r, len)
    ensures Normalize(r, len) == r
  {
  }

  /** A well-formed range survives the bounds check exactly when it asks for some
      byte and is not a suffix longer than the content; RFC 9110 would serve the
      whole content for the latter. */
  lemma WhichRangesAreInBounds(r: Range, len: nat)
    requires WellFormed(r)
    ensures InBounds(Normalize(r, len), len) <==>
            (exists p :: Requested(r, len, p)) && !(r.first == -1 && r.last > len)
  {
    var n := Normalize(r, len);
    if InBounds(n, len) {
      assert Requested(r, len, n.first);
    }
  }

  /** A suffix one byte longer than the content is rejected, although it asks for
      all of it. */
  lemma LongSuffixIsRejected(len: nat)
    requires len > 0
    ensures var r := Range(-1, len + 1);
            !Acceptable([r], len) && forall p | 0 <= p < len :: Requested(r, len, p)
  {
    var r := Range(-1, len + 1);
    WhichRangesAreInBounds(r, len);
    assert NormalizeAll([r], len)[0] == Normalize(r, len);
  }

  // Which requests are let through --------------------------------------------------------

  /** The range at i asks for a position that an earlier one asks for. */
  ghost predicate AsksAgain(rs: seq<Range>, len: nat, i: nat)
    requires i < |rs|
  {
    exists j, p :: 0 <= j < i && Requested(rs[i], len, p) && Requested(rs[j], len, p)
  }

  ghost function Repeating(rs: seq<Range>, len: nat): set<int>
  {
    set i | 0 <= i < |rs| && AsksAgain(rs, len, i)
  }

  lemma OverlapsIsAsksAgain(rs: seq<Range>, len: nat, i: nat)
    requires i < |rs| && AllInBounds(NormalizeAll(rs, len), len)
    ensures OverlapsOneOf(NormalizeAll(rs, len)[i], NormalizeAll(rs, len)[..i]) <==> AsksAgain(rs, len, i)
  {
    var norm := NormalizeAll(rs, len);
    forall j | 0 <= j < i
      ensures Overlap(norm[i], norm[j]) <==> exists p :: Requested(rs[i], len, p) && Requested(rs[j], len, p)
    {
      assert InBounds(norm[i], len) && InBounds(norm[j], len);
      OverlapIsAskingTwice(rs[i], rs[j], len);
    }
    assert forall j | 0 <= j < i :: norm[..i][j] == norm[j];
  }

  lemma OverlapIsAskingTwice(r: Range, q: Range, len: nat)
    requires InBounds(Normalize(r, len), len) && InBounds(Normalize(q, len), len)
    ensures Overlap(Normalize(r, len), Normalize(q, len)) <==> exists p :: Requested(r, len, p) && Requested(q, len, p)
  {
    OverlapIsSharing(Normalize(r, len), Normalize(q, len));
    forall p
      ensures Requested(r, len, p) <==> Holds(Normalize(r, len), p)
      ensures Requested(q, len, p) <==> Holds(Normalize(q, len), p)
    {
      NormalizeKeepsBytes(r, len, p);
      NormalizeKeepsBytes(q, len, p);
    }
  }

  lemma {:induction false} CountIsRepeating(rs: seq<Range>, len: nat, n: nat)
    requires n <= |rs| && AllInBounds(NormalizeAll(rs, len), len)
    ensures OverlapCount(NormalizeAll(rs, len)[..n]) == |Repeating(rs[..n], len)|
  {
    var norm := NormalizeAll(rs, len);
    if n > 0 {
      CountIsRepeating(rs, len, n - 1);
      CountOne(norm, n - 1);
      OverlapsIsAsksAgain(rs, len, n - 1);
      OneMoreRepeating(rs, len, n - 1);
    }
  }

  lemma OneMoreRepeating(rs: seq<Range>, len: nat, n: nat)
    requires n < |rs|
    ensures |Repeating(rs[..n + 1], len)| == |Repeating(rs[..n], len)| + B(AsksAgain(rs, len, n))
  {
    forall i | 0 <= i <= n
      ensures AsksAgain(rs[..n + 1], len, i) <==> AsksAgain(rs, len, i)
      ensures i < n ==> (AsksAgain(rs[..n], len, i) <==> AsksAgain(rs, len, i))
    {
    }
    var more := if AsksAgain(rs, len, n) then {n} else {};
    assert Repeating(rs[..n + 1], len) == Repeating(rs[..n], len) + more;
  }

  /** A well-formed request is let through exactly if it has at most 1024 ranges, each
      asks for some byte and is not a suffix longer than the content, and at most two
      of them ask for a position that an earlier one asks for. */
  lemma AcceptableIff(rs: seq<Range>, len: nat)
    requires forall i | 0 <= i < |rs| :: WellFormed(rs[i])
    ensures Acceptable(rs, len) <==>
            && |rs| <= RANGE_MAX_COUNT
            && (forall i | 0 <= i < |rs| ::
                  (exists p :: Requested(rs[i], len, p)) && !(rs[i].first == -1 && rs[i].last > len))
            && |Repeating(rs, len)| <= 2
  {
    forall i | 0 <= i < |rs|
      ensures InBounds(NormalizeAll(rs, len)[i], len) <==>
              (exists p :: Requested(rs[i], len, p)) && !(rs[i].first == -1 && rs[i].last > len)
    {
      WhichRangesAreInBounds(rs[i], len);
    }
    if AllInBounds(NormalizeAll(rs, len), len) {
      CountIsRepeating(rs, len, |rs|);
      assert rs[..|rs|] == rs && NormalizeAll(rs, len)[..|rs|] == NormalizeAll(rs, len);
    }
  }

  /** Pairwise disjoint ranges inside the content are always let through. */
  lemma DisjointRangesAreAccepted(rs: seq<Range>, len: nat)
    requires |rs| <= RANGE_MAX_COUNT && AllInBounds(NormalizeAll(rs, len), len)
    requires forall i, j, p | 0 <= j < i < |rs| :: !(Requested(rs[i], len, p) && Requested(rs[j], len, p))
    ensures Acceptable(rs, len)
  {
    CountIsRepeating(rs, len, |rs|);
    assert rs[..|rs|] == rs && NormalizeAll(rs, len)[..|rs|] == NormalizeAll(rs, len);
    assert Repeating(rs, len) == {};
  }

  // Coalescing ---------------------------------------------------------------------------

  /** `acc` stands for the ranges `done`, all of which start before the next. */
  ghost predicate Stands(acc: seq<Range>, done: seq<Range>, len: nat)
  {
    && AllInBounds(acc, len)
    && SortedByFirst(acc)
    && (acc == [] <==> done == [])
    && (forall p :: Covers(acc, p) <==> Covers(done, p))
    && (forall i | 0 <= i < |acc| :: acc[i].first <= done[|done| - 1].first)
  }

  lemma CoversSnoc(rs: seq<Range>, r: Range, p: int)
    ensures Covers(rs + [r], p) <==> Covers(rs, p) || Holds(r, p)
  {
    var all := rs + [r];
    if Covers(rs, p) {
      var i :| 0 <= i < |rs| && Holds(rs[i], p);
      assert Holds(all[i], p);
    }
    if Holds(r, p) {
      assert Holds(all[|rs|], p);
    }
  }

  /** Joining a range to the one before it. */
  lemma JoinCovers(prev: Range, n: Range, p: int)
    requires prev.first <= n.first <= n.last && n.first <= prev.last + 1
    ensures Holds(Range(prev.first, if prev.last >= n.last then prev.last else n.last), p)
       <==> Holds(prev, p) || Holds(n, p)
  {
  }

  lemma MergeStands(acc: seq<Range>, done: seq<Range>, n: Range, len: nat)
    requires Stands(acc, done, len) && InBounds(n, len)
    requires done != [] ==> done[|done| - 1].first <= n.first
    ensures Stands(Merge(acc, n, len), done + [n], len)
  {
    NormalizeIsStable(n, len);
    var acc' := Merge(acc, n, len);
    forall p
      ensures Covers(acc', p) <==> Covers(done + [n], p)
    {
      CoversSnoc(done, n, p);
      if acc != [] {
        var init, prev := acc[..|acc| - 1], acc[|acc| - 1];
        assert acc == init + [prev];
        CoversSnoc(init, prev, p);
        if acc' != acc + [n] {
          JoinCovers(prev, n, p);
          CoversSnoc(init, acc'[|acc'| - 1], p);
        } else {
          CoversSnoc(acc, n, p);
        }
      } else {
        CoversSnoc(acc, n, p);
      }
    }
  }

  lemma {:induction false} MergeAllStands(acc: seq<Range>, done: seq<Range>, rest: seq<Range>, len: nat)
    requires Stands(acc, done, len)
    requires SortedByFirst(done + rest) && AllInBounds(rest, len)
    ensures Stands(MergeAll(acc, rest, len), done + rest, len)
    decreases |rest|
  {
    if rest == [] {
      assert done + [] == done;
    } else {
      var n := rest[0];
      assert (done + rest)[|done|] == n;
      assert done != [] ==> (done + rest)[|done| - 1] == done[|done| - 1];
      MergeStands(acc, done, n, len);
      assert done + [n] + rest[1..] == done + rest;
      MergeAllStands(Merge(acc, n, len), done + [n], rest[1..], len);
    }
  }

  function WithinContent(rs: seq<Range>, len: nat): (inside: seq<Range>)
    ensures forall r :: r in inside <==> r in rs && InBounds(Normalize(r, len), len)
  {
    if rs == [] then []
    else (if InBounds(Normalize(rs[0], len), len) then [rs[0]] else []) + WithinContent(rs[1..], len)
  }

  /** Ranges outside the content do not change what the others become. */
  lemma {:induction false} OutsideIsSkipped(acc: seq<Range>, rs: seq<Range>, len: nat)
    ensures MergeAll(acc, rs, len) == MergeAll(acc, WithinContent(rs, len), len)
    decreases |rs|
  {
    if rs != [] {
      OutsideIsSkipped(Merge(acc, rs[0], len), rs[1..], len);
      if InBounds(Normalize(rs[0], len), len) {
        assert WithinContent(rs, len) == [rs[0]] + WithinContent(rs[1..], len);
        assert WithinContent(rs, len)[1..] == WithinContent(rs[1..], len);
      } else {
        assert WithinContent(rs, len) == WithinContent(rs[1..], len);
      }
    }
  }

  lemma SortResultInBounds(rs: seq<Range>, sorted: seq<Range>, len: nat)
    requires SortResult(rs, sorted) && AllInBounds(rs, len)
    ensures AllInBounds(sorted, len) && |sorted| == |rs|
    ensures forall p :: Covers(sorted, p) <==> Covers(rs, p)
  {
    SameSize(rs, sorted);
    forall i | 0 <= i < |sorted|
      ensures sorted[i] in rs
    {
      assert sorted[i] in multiset(rs);
    }
    forall i | 0 <= i < |rs|
      ensures rs[i] in sorted
    {
      assert rs[i] in multiset(sorted);
    }
    forall p
      ensures Covers(sorted, p) <==> Covers(rs, p)
    {
      if Covers(sorted, p) {
        var i :| 0 <= i < |sorted| && Holds(sorted[i], p);
        var j :| 0 <= j < |rs| && rs[j] == sorted[i];
        assert Holds(rs[j], p);
      }
      if Covers(rs, p) {
        var i :| 0 <= i < |rs| && Holds(rs[i], p);
        var j :| 0 <= j < |sorted| && sorted[j] == rs[i];
        assert Holds(sorted[j], p);
      }
    }
  }

  lemma NormalizeAllKeepsBytes(rs: seq<Range>, len: nat, p: int)
    requires AllInBounds(NormalizeAll(rs, len), len)
    ensures Covers(NormalizeAll(rs, len), p) <==> AnyRequested(rs, len, p)
  {
    var norm := NormalizeAll(rs, len);
    forall i | 0 <= i < |rs|
      ensures Holds(norm[i], p) <==> Requested(rs[i], len, p)
    {
      assert InBounds(norm[i], len);
      NormalizeKeepsBytes(rs[i], len, p);
    }
    if AnyRequested(rs, len, p) {
      var i :| 0 <= i < |rs| && Requested(rs[i], len, p);
      assert Holds(norm[i], p);
    }
  }

  /** When a request is let through, then for every order the sort may choose the
      coalesced ranges cover exactly the requested bytes, lie inside the content
      and come in order. */
  lemma CoalescingServesTheRequest(rs: seq<Range>, sorted: seq<Range>, len: nat)
    requires rs != [] && Acceptable(rs, len) && SortResult(NormalizeAll(rs, len), sorted)
    ensures var result := Coalesced(sorted, len);
            && (forall p :: Covers(result, p) <==> AnyRequested(rs, len, p))
            && AllInBounds(result, len)
            && SortedByFirst(result)
            && result != []
  {
    var norm := NormalizeAll(rs, len);
    SortResultInBounds(norm, sorted, len);
    forall p
      ensures Covers(sorted, p) <==> AnyRequested(rs, len, p)
    {
      NormalizeAllKeepsBytes(rs, len, p);
    }
    assert [] + sorted == sorted;
    MergeAllStands([], [], sorted, len);
  }

  // When the result is separate -----------------------------------------------------------

  predicate Inside(q: Range, r: Range) { r.first <= q.first && q.last <= r.last }

  /** A range swallowed by, or glued to, one that starts earlier. */
  predicate Swallowed(rs: seq<Range>, r: Range)
  {
    exists k :: 0 <= k < |rs| && rs[k].first < r.first <= rs[k].last + 1
  }

  /** Every range that occurs twice is swallowed by an earlier one. */
  predicate RepeatsSwallowed(rs: seq<Range>)
  {
    forall i, j | 0 <= i < j < |rs| && rs[i] == rs[j] :: Swallowed(rs, rs[i])
  }

  predicate InsideOneOf(q: Range, rs: seq<Range>)
  {
    exists e :: 0 <= e < |rs| && Inside(q, rs[e])
  }

  predicate AllInside(qs: seq<Range>, rs: seq<Range>)
  {
    forall i | 0 <= i < |qs| :: InsideOneOf(qs[i], rs)
  }

  ghost predicate Apart(acc: seq<Range>, done: seq<Range>)
  {
    && Separate(acc)
    && AllInside(done, acc)
    && (acc != [] ==>
          exists i :: 0 <= i < |done| && done[i].last == acc[|acc| - 1].last && acc[|acc| - 1].first <= done[i].first)
  }

  /** A range done with is inside the last one kept, or well before it. */
  lemma InLastOrBefore(acc: seq<Range>, done: seq<Range>, k: nat)
    requires Apart(acc, done) && acc != [] && k < |done|
    ensures acc[|acc| - 1].first <= done[k].first || done[k].last + 1 < acc[|acc| - 1].first
  {
    var e :| 0 <= e < |acc| && Inside(done[k], acc[e]);
  }

  /** The last one kept, should it come again, is not swallowed. */
  lemma LastIsNotSwallowed(acc: seq<Range>, done: seq<Range>, rest: seq<Range>)
    requires Apart(acc, done) && acc != [] && rest != [] && SortedByFirst(done + rest)
    ensures rest[0].first == acc[|acc| - 1].first ==> !Swallowed(done + rest, rest[0])
  {
    var all := done + rest;
    forall k | 0 <= k < |all|
      ensures rest[0].first == acc[|acc| - 1].first ==> !(all[k].first < rest[0].first <= all[k].last + 1)
    {
      if k < |done| {
        InLastOrBefore(acc, done, k);
      } else {
        assert k > |done| ==> all[|done|].first <= all[k].first;
      }
    }
  }

  /** The last one kept, should it come again, has been there before. */
  lemma LastIsARepeat(acc: seq<Range>, done: seq<Range>, rest: seq<Range>) returns (i: nat)
    requires Apart(acc, done) && acc != [] && rest != [] && SortedByFirst(done + rest)
    ensures i < |done| && (rest[0] == acc[|acc| - 1] ==> (done + rest)[i] == (done + rest)[|done|])
  {
    i :| 0 <= i < |done| && done[i].last == acc[|acc| - 1].last && acc[|acc| - 1].first <= done[i].first;
    assert (done + rest)[i].first <= (done + rest)[|done|].first;
  }

  /** So a new range never equals the last one kept. */
  lemma NewRangeDiffers(acc: seq<Range>, done: seq<Range>, rest: seq<Range>)
    requires Apart(acc, done) && acc != [] && rest != []
    requires SortedByFirst(done + rest) && RepeatsSwallowed(done + rest)
    ensures rest[0] != acc[|acc| - 1]
  {
    LastIsNotSwallowed(acc, done, rest);
    var i := LastIsARepeat(acc, done, rest);
    assert (done + rest)[|done|] == rest[0];
  }

  /** Everything done with, and the new range, lie inside what is kept. */
  lemma MergeKeepsInside(acc: seq<Range>, done: seq<Range>, n: Range, len: nat)
    requires Apart(acc, done) && InBounds(n, len)
    requires done != [] ==> done[|done| - 1].first <= n.first
    requires Stands(acc, done, len)
    ensures AllInside(done + [n], Merge(acc, n, len))
  {
    NormalizeIsStable(n, len);
    var acc', done' := Merge(acc, n, len), done + [n];
    forall i | 0 <= i < |done'|
      ensures InsideOneOf(done'[i], acc')
    {
      if i < |done| {
        var e :| 0 <= e < |acc| && Inside(done[i], acc[e]);
        assert Inside(done'[i], acc'[e]);
      } else {
        assert Inside(n, acc'[|acc'| - 1]);
      }
    }
  }

  /** The end of the last one kept is that of a range done with. */
  lemma MergeKeepsEnd(acc: seq<Range>, done: seq<Range>, n: Range, len: nat) returns (i: nat)
    requires Apart(acc, done) && Stands(acc, done, len) && InBounds(n, len)
    requires done != [] ==> done[|done| - 1].first <= n.first
    ensures var acc', done' := Merge(acc, n, len), done + [n];
            i < |done'| && acc' != []
            && done'[i].last == acc'[|acc'| - 1].last && acc'[|acc'| - 1].first <= done'[i].first
  {
    NormalizeIsStable(n, len);
    var acc', done' := Merge(acc, n, len), done + [n];
    var back := acc'[|acc'| - 1];
    if n.last == back.last {
      i := |done|;
      assert done'[i] == n;
    } else {
      i :| 0 <= i < |done| && done[i].last == acc[|acc| - 1].last && acc[|acc| - 1].first <= done[i].first;
      assert done'[i] == done[i];
    }
  }

  lemma MergeKeepsApart(acc: seq<Range>, done: seq<Range>, n: Range, len: nat)
    requires Apart(acc, done) && Stands(acc, done, len) && InBounds(n, len)
    requires done != [] ==> done[|done| - 1].first <= n.first
    requires acc != [] ==> n != acc[|acc| - 1]
    ensures Apart(Merge(acc, n, len), done + [n])
  {
    NormalizeIsStable(n, len);
    MergeKeepsInside(acc, done, n, len);
    var i := MergeKeepsEnd(acc, done, n, len);
  }

  ghost predicate Ready(acc: seq<Range>, done: seq<Range>, rest: seq<Range>, len: nat)
  {
    && Apart(acc, done) && Stands(acc, done, len)
    && SortedByFirst(done + rest) && AllInBounds(rest, len) && RepeatsSwallowed(done + rest)
  }

  lemma ReadyStep(acc: seq<Range>, done: seq<Range>, rest: seq<Range>, len: nat)
    requires Ready(acc, done, rest, len) && rest != []
    ensures Ready(Merge(acc, rest[0], len), done + [rest[0]], rest[1..], len)
  {
    var n := rest[0];
    assert (done + rest)[|done|] == n;
    assert done != [] ==> (done + rest)[|done| - 1] == done[|done| - 1];
    if acc != [] {
      NewRangeDiffers(acc, done, rest);
    }
    MergeStands(acc, done, n, len);
    MergeKeepsApart(acc, done, n, len);
    MoveOver(done, rest);
  }

  lemma MoveOver(done: seq<Range>, rest: seq<Range>)
    requires rest != []
    ensures done + [rest[0]] + rest[1..] == done + rest
  {
  }

  lemma {:induction false} MergeAllKeepsApart(acc: seq<Range>, done: seq<Range>, rest: seq<Range>, len: nat)
    requires Ready(acc, done, rest, len)
    ensures Separate(MergeAll(acc, rest, len))
    decreases |rest|
  {
    if rest != [] {
      ReadyStep(acc, done, rest, len);
      MergeAllKeepsApart(Merge(acc, rest[0], len), done + [rest[0]], rest[1..], len);
    }
  }

  /** Repeats that are swallowed stay so in every order. */
  lemma RepeatsInEveryOrder(rs: seq<Range>, sorted: seq<Range>)
    requires multiset(sorted) == multiset(rs) && RepeatsSwallowed(rs)
    ensures RepeatsSwallowed(sorted)
  {
    forall i, j | 0 <= i < j < |sorted| && sorted[i] == sorted[j]
      ensures Swallowed(sorted, sorted[i])
    {
      var r := sorted[i];
      TwiceIn(sorted, r, i, j);
      FindTwice(rs, r);
      var k :| 0 <= k < |rs| && rs[k].first < r.first <= rs[k].last + 1;
      assert rs[k] in multiset(sorted);
      var m :| 0 <= m < |sorted| && sorted[m] == rs[k];
    }
  }

  lemma TwiceIn(rs: seq<Range>, r: Range, i: nat, j: nat)
    requires i < j < |rs| && rs[i] == r == rs[j]
    ensures multiset(rs)[r] >= 2
  {
    assert rs == rs[..i] + [r] + rs[i + 1..j] + [r] + rs[j + 1..];
  }

  ghost predicate Twice(rs: seq<Range>, r: Range)
  {
    exists i, j :: 0 <= i < j < |rs| && rs[i] == r && rs[j] == r
  }

  lemma FindTwice(rs: seq<Range>, r: Range)
    requires multiset(rs)[r] >= 2
    ensures Twice(rs, r)
  {
    assert r in multiset(rs);
    var i :| 0 <= i < |rs| && rs[i] == r;
    assert rs == rs[..i] + [r] + rs[i + 1..];
    if r in multiset(rs[i + 1..]) {
      var m :| 0 <= m < |rs| - i - 1 && rs[i + 1..][m] == r;
      assert rs[i + 1 + m] == r;
    } else {
      assert r in multiset(rs[..i]);
      var m :| 0 <= m < i && rs[..i][m] == r;
      assert rs[m] == r;
    }
  }

  /** If every repeated range is swallowed by an earlier one - in particular if
      the ranges are distinct - the result is pairwise disjoint and not adjacent,
      whatever order the sort chooses. */
  lemma SwallowedRepeatsSeparate(norm: seq<Range>, sorted: seq<Range>, len: nat)
    requires AllInBounds(norm, len) && RepeatsSwallowed(norm) && SortResult(norm, sorted)
    ensures Separate(Coalesced(sorted, len))
  {
    SortResultInBounds(norm, sorted, len);
    RepeatsInEveryOrder(norm, sorted);
    assert [] + sorted == sorted;
    MergeAllKeepsApart([], [], sorted, len);
  }

  /** Ranges that differ once normalised come out disjoint and not adjacent. */
  lemma DistinctRangesSeparate(rs: seq<Range>, sorted: seq<Range>, len: nat)
    requires Acceptable(rs, len) && SortResult(NormalizeAll(rs, len), sorted)
    requires forall i, j | 0 <= i < j < |rs| :: Normalize(rs[i], len) != Normalize(rs[j], len)
    ensures Separate(Coalesced(sorted, len))
  {
    var norm := NormalizeAll(rs, len);
    assert forall i, j | 0 <= i < j < |norm| :: norm[i] != norm[j];
    SwallowedRepeatsSeparate(norm, sorted, len);
  }

  // An order that shows a repeat ---------------------------------------------------------------

  /** A sorted list falls into the ranges that start before, at and after a point. */
  lemma ThreeParts(rs: seq<Range>, first: int) returns (lo: nat, hi: nat)
    requires SortedByFirst(rs)
    ensures lo <= hi <= |rs|
    ensures forall i | 0 <= i < |rs| :: (i < lo <==> rs[i].first < first) && (hi <= i <==> rs[i].first > first)
  {
    lo := 0;
    while lo < |rs| && rs[lo].first < first
      invariant lo <= |rs|
      invariant forall i | 0 <= i < lo :: rs[i].first < first
    {
      lo := lo + 1;
    }
    hi := lo;
    while hi < |rs| && rs[hi].first == first
      invariant lo <= hi <= |rs|
      invariant forall i | lo <= i < hi :: rs[i].first == first
    {
      hi := hi + 1;
    }
  }

  /** All occurrences of a range are among its equals. */
  lemma InTheMiddle(a: seq<Range>, b: seq<Range>, c: seq<Range>, r: Range)
    requires r !in a && r !in c
    ensures multiset(a + b + c)[r] == multiset(b)[r]
  {
    assert r !in multiset(a) && r !in multiset(c);
  }

  /** Two equal elements, moved to the front. */
  lemma PullTwo(rs: seq<Range>, i: nat, j: nat)
    requires i < j < |rs| && rs[i] == rs[j]
    ensures multiset(rs) == multiset([rs[i], rs[i]] + (rs[..i] + rs[i + 1..j] + rs[j + 1..]))
  {
    assert rs == rs[..i] + [rs[i]] + rs[i + 1..j] + [rs[i]] + rs[j + 1..];
  }

  /** Any list can be sorted. */
  lemma {:induction false} CanBeSorted(rs: seq<Range>)
    ensures exists sorted :: SortResult(rs, sorted)
  {
    if rs == [] {
      assert SortResult(rs, []);
    } else {
      var front, last := rs[..|rs| - 1], rs[|rs| - 1];
      CanBeSorted(front);
      var s: seq<Range> :| SortResult(front, s);
      var at := PlaceFor(s, last);
      InsertSorted(front, s, last, at);
      assert rs == front + [last];
      assert SortResult(rs, s[..at] + [last] + s[at..]);
    }
  }

  lemma PlaceFor(s: seq<Range>, r: Range) returns (at: nat)
    requires SortedByFirst(s)
    ensures at <= |s|
    ensures forall j | 0 <= j < at :: s[j].first <= r.first
    ensures forall j | at <= j < |s| :: r.first <= s[j].first
  {
    at := 0;
    while at < |s| && s[at].first <= r.first
      invariant at <= |s|
      invariant forall j | 0 <= j < at :: s[j].first <= r.first
    {
      at := at + 1;
    }
  }

  /** From here on the entries before the last stay, and the last keeps its
      start. */
  lemma {:induction false} MergeAllKeepsFront(acc: seq<Range>, rest: seq<Range>, len: nat)
    requires acc != []
    ensures var r := MergeAll(acc, rest, len);
            && |acc| <= |r|
            && r[..|acc| - 1] == acc[..|acc| - 1]
            && r[|acc| - 1].first == acc[|acc| - 1].first
    decreases |rest|
  {
    if rest != [] {
      MergeAllKeepsFront(Merge(acc, rest[0], len), rest[1..], len);
      var m := Merge(acc, rest[0], len);
      assert m[..|acc| - 1] == acc[..|acc| - 1];
      var r := MergeAll(acc, rest, len);
      assert r[..|m| - 1][..|acc| - 1] == r[..|acc| - 1];
    }
  }

  lemma {:induction false} MergeAllConcat(acc: seq<Range>, r1: seq<Range>, r2: seq<Range>, len: nat)
    ensures MergeAll(acc, r1 + r2, len) == MergeAll(MergeAll(acc, r1, len), r2, len)
    decreases |r1|
  {
    if r1 == [] {
      assert r1 + r2 == r2;
    } else {
      assert (r1 + r2)[1..] == r1[1..] + r2;
      MergeAllConcat(Merge(acc, r1[0], len), r1[1..], r2, len);
    }
  }

  predicate EndsBelow(rs: seq<Range>, b: int)
  {
    forall i | 0 <= i < |rs| :: rs[i].last + 1 < b
  }

  /** What is kept ends no later than what went in. */
  lemma {:induction false} MergeAllEnds(acc: seq<Range>, rest: seq<Range>, b: int, len: nat)
    requires EndsBelow(acc, b) && EndsBelow(rest, b) && AllInBounds(rest, len)
    ensures EndsBelow(MergeAll(acc, rest, len), b)
    decreases |rest|
  {
    if rest != [] {
      NormalizeIsStable(rest[0], len);
      MergeAllEnds(Merge(acc, rest[0], len), rest[1..], b, len);
    }
  }

  /** A repeat that nothing swallows, put first among its equals, is kept twice. */
  /** A range that starts behind everything so far is added twice. */
  lemma TwiceAtTheEnd(acc: seq<Range>, r: Range, len: nat)
    requires InBounds(r, len) && Merge(acc, r, len) == acc + [r]
    ensures MergeAll(acc, [r, r], len) == acc + [r] + [r]
  {
    var none: seq<Range> := [];
    NormalizeIsStable(r, len);
    assert (acc + [r])[|acc + [r]| - 1] == r;
    MergeFirst(acc, r, [r], len);
    MergeFirst(acc + [r], r, none, len);
    assert [r] + [r] == [r, r] && [r] + none == [r];
  }

  lemma RepeatKeptTwice(before: seq<Range>, r: Range, after: seq<Range>, len: nat)
    requires AllInBounds(before, len) && InBounds(r, len)
    requires EndsBelow(before, r.first)
    ensures !Separate(MergeAll([], before + [r, r] + after, len))
  {
    var acc := MergeAll([], before, len);
    MergeAllEnds([], before, r.first, len);
    NormalizeIsStable(r, len);
    TwiceAtTheEnd(acc, r, len);
    MergeAllConcat([], before + [r, r], after, len);
    MergeAllConcat([], before, [r, r], len);
    var two := acc + [r] + [r];
    MergeAllKeepsFront(two, after, len);
    var result := MergeAll(two, after, len);
    assert result[|acc|] == result[..|two| - 1][|acc|] == two[|acc|] == r;
    assert result[|acc| + 1].first == r.first;
  }

  /** A sorted arrangement, cut at the ranges that start at a given point. */
  ghost predicate Parted(norm: seq<Range>, before: seq<Range>, equal: seq<Range>, later: seq<Range>, first: int)
  {
    && SortResult(norm, before + equal + later)
    && (forall k | 0 <= k < |before| :: before[k].first < first)
    && (forall k | 0 <= k < |equal| :: equal[k].first == first)
    && (forall k | 0 <= k < |later| :: later[k].first > first)
  }

  lemma CutSorted(norm: seq<Range>, first: int)
    ensures exists before, equal, later :: Parted(norm, before, equal, later, first)
  {
    CanBeSorted(norm);
    var s: seq<Range> :| SortResult(norm, s);
    var lo, hi := ThreeParts(s, first);
    assert s == s[..lo] + s[lo..hi] + s[hi..];
    assert Parted(norm, s[..lo], s[lo..hi], s[hi..], first);
  }

  /** An order in which a repeat comes first among its equals. */
  ghost predicate RepeatFirst(norm: seq<Range>, r: Range, before: seq<Range>, after: seq<Range>)
  {
    SortResult(norm, before + [r, r] + after) && forall k | 0 <= k < |before| :: before[k].first < r.first
  }

  /** A range asked for twice is served twice. */
  lemma RepeatStays(r: Range, len: nat)
    requires InBounds(r, len)
    ensures Coalesced([r, r], len) == [r, r]
  {
    NormalizeIsStable(r, len);
    TwiceAtTheEnd([], r, len);
    assert [] + [r] + [r] == [r, r];
  }

  lemma MergeFirst(acc: seq<Range>, r: Range, rs: seq<Range>, len: nat)
    ensures MergeAll(acc, [r] + rs, len) == MergeAll(Merge(acc, r, len), rs, len)
  {
    assert ([r] + rs)[1..] == rs;
  }

  lemma BadOrder(norm: seq<Range>, i: nat, j: nat)
    requires i < j < |norm| && norm[i] == norm[j]
    ensures exists before, after :: RepeatFirst(norm, norm[i], before, after)
  {
    var r := norm[i];
    CutSorted(norm, r.first);
    var before: seq<Range>, equal: seq<Range>, later: seq<Range> :| Parted(norm, before, equal, later, r.first);
    TwiceIn(norm, r, i, j);
    InTheMiddle(before, equal, later, r);
    var others := PullRepeat(equal, r);
    Rearranged(norm, before, equal, [r, r] + others, later, r.first);
    Regroup(before, [r, r], others, later);
    assert RepeatFirst(norm, r, before, others + later);
  }

  lemma PullRepeat(equal: seq<Range>, r: Range) returns (others: seq<Range>)
    requires multiset(equal)[r] >= 2
    requires forall k | 0 <= k < |equal| :: equal[k].first == r.first
    ensures multiset(equal) == multiset([r, r] + others)
    ensures forall k | 0 <= k < |others| :: others[k].first == r.first
  {
    FindTwice(equal, r);
    var i, j :| 0 <= i < j < |equal| && equal[i] == r && equal[j] == r;
    PullTwo(equal, i, j);
    others := equal[..i] + equal[i + 1..j] + equal[j + 1..];
  }

  lemma Rearranged(norm: seq<Range>, a: seq<Range>, b: seq<Range>, b': seq<Range>, c: seq<Range>, first: int)
    requires SortResult(norm, a + b + c) && multiset(b) == multiset(b')
    requires forall i | 0 <= i < |a| :: a[i].first < first
    requires forall i | 0 <= i < |b'| :: b'[i].first == first
    requires forall i | 0 <= i < |c| :: c[i].first > first
    ensures SortResult(norm, a + b' + c)
  {
    SwapMiddle(a, b, b', c);
    var s := a + b + c;
    assert a == s[..|a|] && c == s[|a| + |b|..];
    Reordered(a, b', c, first);
  }

  lemma SwapMiddle(a: seq<Range>, b: seq<Range>, b': seq<Range>, c: seq<Range>)
    requires multiset(b) == multiset(b')
    ensures multiset(a + b + c) == multiset(a + b' + c)
  {
  }

  lemma Reordered(a: seq<Range>, b: seq<Range>, c: seq<Range>, first: int)
    requires SortedByFirst(a) && SortedByFirst(c)
    requires forall i | 0 <= i < |a| :: a[i].first < first
    requires forall i | 0 <= i < |b| :: b[i].first == first
    requires forall i | 0 <= i < |c| :: c[i].first > first
    ensures SortedByFirst(a + b + c)
  {
  }

  lemma BadOrderShows(norm: seq<Range>, r: Range, before: seq<Range>, after: seq<Range>, len: nat)
    requires AllInBounds(norm, len) && r in norm && !Swallowed(norm, r) && RepeatFirst(norm, r, before, after)
    ensures var sorted := before + [r, r] + after;
            SortResult(norm, sorted) && !Separate(Coalesced(sorted, len))
  {
    var sorted := before + [r, r] + after;
    SortResultInBounds(norm, sorted, len);
    forall k | 0 <= k < |before|
      ensures InBounds(before[k], len) && before[k].last + 1 < r.first
    {
      assert sorted[k] == before[k] && InBounds(sorted[k], len);
      assert sorted[k] in multiset(norm);
      var m :| 0 <= m < |norm| && norm[m] == before[k];
    }
    RepeatKeptTwice(before, r, after, len);
  }

  /** Coalescing leaves separate ranges for every order of the sort if and only if
      every repeated range is swallowed by one that starts earlier. */
  lemma SeparateForEveryOrder(norm: seq<Range>, len: nat)
    requires norm != [] && AllInBounds(norm, len)
    ensures (forall sorted | SortResult(norm, sorted) :: Separate(Coalesced(sorted, len))) <==> RepeatsSwallowed(norm)
  {
    if RepeatsSwallowed(norm) {
      forall sorted | SortResult(norm, sorted)
        ensures Separate(Coalesced(sorted, len))
      {
        SwallowedRepeatsSeparate(norm, sorted, len);
      }
    } else {
      var i, j :| 0 <= i < j < |norm| && norm[i] == norm[j] && !Swallowed(norm, norm[i]);
      BadOrder(norm, i, j);
      var before: seq<Range>, after: seq<Range> :| RepeatFirst(norm, norm[i], before, after);
      BadOrderShows(norm, norm[i], before, after, len);
    }
  }
}
