/** Checking and coalescing the byte ranges of a request. */
module Ranges {

  const RANGE_MAX_COUNT: nat := 1024

  /** A pair as the header parser leaves it: -1 stands for an absent end. */
  datatype Range = Range(first: int, last: int)

  // The checks, as functions ------------------------------------------------------------

  function Normalize(r: Range, len: nat): Range
  {
    var a := if r.first == -1 && r.last == -1 then Range(0, len) else r;
    var b := if a.first == -1 then Range(len - a.last, len - 1) else a;
    if b.last == -1 || b.last >= len then Range(b.first, len - 1) else b
  }

  function NormalizeAll(rs: seq<Range>, len: nat): seq<Range>
  {
    seq(|rs|, i requires 0 <= i < |rs| => Normalize(rs[i], len))
  }

  predicate InBounds(r: Range, len: nat)
  {
    0 <= r.first <= r.last <= len - 1
  }

  predicate Overlap(r: Range, q: Range)
  {
    !(r.last < q.first || r.first > q.last)
  }

  predicate Holds(r: Range, p: int) { r.first <= p <= r.last }

  /** Two ranges that share a position. */
  ghost predicate Share(r: Range, q: Range)
  {
    exists p :: Holds(r, p) && Holds(q, p)
  }

  /** Ranges with at least one position overlap exactly if they share one. */
  lemma OverlapIsSharing(r: Range, q: Range)
    requires r.first <= r.last && q.first <= q.last
    ensures Overlap(r, q) <==> Share(r, q)
  {
    if Overlap(r, q) {
      var p := if r.first >= q.first then r.first else q.first;
      assert Holds(r, p) && Holds(q, p);
    }
  }

  predicate OverlapsOneOf(r: Range, others: seq<Range>)
  {
    exists j :: 0 <= j < |others| && Overlap(r, others[j])
  }

  /** How many ranges overlap an earlier one. */
  function OverlapCount(rs: seq<Range>): nat
  {
    if rs == [] then 0
    else
      var n := |rs| - 1;
      OverlapCount(rs[..n]) + if OverlapsOneOf(rs[n], rs[..n]) then 1 else 0
  }

  predicate AllInBounds(rs: seq<Range>, len: nat)
  {
    forall i | 0 <= i < |rs| :: InBounds(rs[i], len)
  }

  /** A request is let through when it has few enough ranges, all of them inside
      the content, and at most two that overlap an earlier one. */
  predicate Acceptable(rs: seq<Range>, len: nat)
  {
    && |rs| <= RANGE_MAX_COUNT
    && AllInBounds(NormalizeAll(rs, len), len)
    && OverlapCount(NormalizeAll(rs, len)) <= 2
  }

  /** One turn of the coalescing loop. */
  function Merge(acc: seq<Range>, r: Range, len: nat): seq<Range>
  {
    var n := Normalize(r, len);
    if !InBounds(n, len) then acc
    else if acc != [] && n.first <= acc[|acc| - 1].last + 1 && n != acc[|acc| - 1] then
      var prev := acc[|acc| - 1];
      acc[..|acc| - 1] + [Range(prev.first, if prev.last >= n.last then prev.last else n.last)]
    else acc + [n]
  }

  function MergeAll(acc: seq<Range>, rs: seq<Range>, len: nat): seq<Range>
    decreases |rs|
  {
    if rs == [] then acc else MergeAll(Merge(acc, rs[0], len), rs[1..], len)
  }

  predicate SortedByFirst(rs: seq<Range>)
  {
    forall i, j | 0 <= i < j < |rs| :: rs[i].first <= rs[j].first
  }

  /** A result the sort may have; it may leave equal starts in any order. */
  ghost predicate SortResult(rs: seq<Range>, sorted: seq<Range>)
  {
    multiset(sorted) == multiset(rs) && SortedByFirst(sorted)
  }

  function Coalesced(sorted: seq<Range>, len: nat): seq<Range>
  {
    if |sorted| <= 1 then sorted else MergeAll([], sorted, len)
  }

  // The code --------------------------------------------------------------------------------

  class Request {
    var ranges: seq<Range>

    constructor (ranges: seq<Range>)
      ensures this.ranges == ranges
    {
      this.ranges := ranges;
    }

    /** Sort the ranges by their start, equal starts in an order nobody relies
        on. */
    method Sort() returns (sorted: seq<Range>)
      ensures SortResult(ranges, sorted)
    {
      sorted := [];
      for i := 0 to |ranges|
        invariant SortResult(ranges[..i], sorted)
      {
        var at := Place(sorted, ranges[i]);
        InsertSorted(ranges[..i], sorted, ranges[i], at);
        assert ranges[..i + 1] == ranges[..i] + [ranges[i]];
        sorted := sorted[..at] + [ranges[i]] + sorted[at..];
      }
      assert ranges[..|ranges|] == ranges;
    }

    static method Place(sorted: seq<Range>, r: Range) returns (at: nat)
      requires SortedByFirst(sorted)
      ensures at <= |sorted|
      ensures forall j | 0 <= j < at :: sorted[j].first <= r.first
      ensures forall j | at <= j < |sorted| :: r.first <= sorted[j].first
    {
      at := |sorted|;
      while at > 0
        invariant at <= |sorted|
        invariant forall j | at <= j < |sorted| :: r.first <= sorted[j].first
      {
        var pass := sorted[at - 1].first > r.first;
        if sorted[at - 1].first == r.first {
          if * {
            pass := true;
          }
        }
        if !pass {
          break;
        }
        at := at - 1;
      }
    }

    method CoalesceRanges(len: nat) returns (ghost sorted: seq<Range>)
      modifies this
      ensures SortResult(old(ranges), sorted)
      ensures ranges == Coalesced(sorted, len)
    {
      sorted := ranges;
      if |ranges| <= 1 {
        return;
      }
      var order := Sort();
      sorted := order;
      SameSize(order, ranges);
      var coalesced: seq<Range> := [];
      for i := 0 to |order|
        invariant MergeAll(coalesced, order[i..], len) == MergeAll([], order, len)
      {
        assert order[i..][1..] == order[i + 1..];
        coalesced := MergeOne(coalesced, order[i], len);
      }
      ranges := coalesced;
    }

    static method MergeOne(acc: seq<Range>, r: Range, len: nat) returns (acc': seq<Range>)
      ensures acc' == Merge(acc, r, len)
    {
      var first, last := r.first, r.last;
      if first == -1 && last == -1 {
        first, last := 0, len;
      }
      if first == -1 {
        first := len - last;
        last := len - 1;
      }
      if last == -1 || last >= len {
        last := len - 1;
      }
      if !(0 <= first && first <= last && last < len) {
        return acc;
      }
      if acc != [] {
        var prev := acc[|acc| - 1];
        if first <= prev.last + 1 && !(first == prev.first && last == prev.last) {
          return acc[..|acc| - 1] + [Range(prev.first, if prev.last >= last then prev.last else last)];
        }
      }
      return acc + [Range(first, last)];
    }

    /** Is one of the earlier ranges overlapped? */
    static method FindOverlap(r: Range, processed: seq<Range>) returns (found: bool)
      ensures found == OverlapsOneOf(r, processed)
      ensures r.first <= r.last && (forall j | 0 <= j < |processed| :: processed[j].first <= processed[j].last) ==>
                (found <==> exists j :: 0 <= j < |processed| && Share(r, processed[j]))
    {
      forall j | 0 <= j < |processed| && r.first <= r.last && processed[j].first <= processed[j].last
        ensures Overlap(r, processed[j]) <==> Share(r, processed[j])
      {
        OverlapIsSharing(r, processed[j]);
      }
      for j := 0 to |processed|
        invariant forall k | 0 <= k < j :: !Overlap(r, processed[k])
      {
        if !(r.last < processed[j].first || r.first > processed[j].last) {
          return true;
        }
      }
      return false;
    }

    /** `range_error` for a successful response with `len` bytes of content. */
    method RangeError(status: int, len: nat) returns (error: bool, ghost sorted: seq<Range>)
      modifies this
      ensures var asked := old(ranges) != [] && 200 <= status < 300;
              && (!asked ==> !error && ranges == old(ranges))
              && (asked ==> error == !Acceptable(old(ranges), len))
              && (asked && !error ==>
                    SortResult(NormalizeAll(old(ranges), len), sorted) && ranges == Coalesced(sorted, len))
      ensures error ==> exists k :: 0 <= k <= |old(ranges)| && PartlyNormalized(old(ranges), ranges, k, len)
    {
      sorted := [];
      if ranges == [] || status < 200 || status >= 300 {
        return false, [];
      }
      ghost var was := ranges;
      if |ranges| > RANGE_MAX_COUNT {
        assert PartlyNormalized(was, ranges, 0, len);
        return true, [];
      }
      error := CheckRanges(len);
      if error {
        return error, [];
      }
      sorted := CoalesceRanges(len);
    }

    /** Normalise the range at position i in place. */
    method NormalizeAt(i: nat, len: nat)
      requires i < |ranges|
      modifies this
      ensures ranges == old(ranges)[i := Normalize(old(ranges)[i], len)]
    {
      var r := ranges[i];
      if r.first == -1 && r.last == -1 {
        r := Range(0, len);
      }
      if r.first == -1 {
        r := Range(len - r.last, len - 1);
      }
      if r.last == -1 || r.last >= len {
        r := Range(r.first, len - 1);
      }
      ranges := ranges[i := r];
    }

    /** The loop of `range_error`: the ranges are normalised in place. */
    method CheckRanges(len: nat) returns (error: bool)
      modifies this
      ensures var norm := NormalizeAll(old(ranges), len);
              && error == !(AllInBounds(norm, len) && OverlapCount(norm) <= 2)
              && (!error ==> ranges == norm)
      ensures exists k :: 0 <= k <= |old(ranges)| && PartlyNormalized(old(ranges), ranges, k, len)
    {
      ghost var was := ranges;
      ghost var norm := NormalizeAll(was, len);
      var processed: seq<Range> := [];
      var overwrapping := 0;
      for i := 0 to |ranges|
        invariant PartlyNormalized(was, ranges, i, len)
        invariant processed == norm[..i]
        invariant AllInBounds(norm[..i], len)
        invariant overwrapping == OverlapCount(norm[..i]) <= 2
      {
        NormalizeAt(i, len);
        var r := ranges[i];
        assert r == norm[i] && PartlyNormalized(was, ranges, i + 1, len);
        if !(0 <= r.first && r.first <= r.last && r.last <= len - 1) {
          assert !InBounds(norm[i], len);
          return true;
        }
        var overlaps := FindOverlap(r, processed);
        CountOne(norm, i);
        if overlaps {
          overwrapping := overwrapping + 1;
          if overwrapping > 2 {
            return true;
          }
        }
        processed := processed + [r];
      }
      assert norm[..|was|] == norm && ranges == norm;
      return false;
    }
  }

  /** The first k ranges are normalised, the others as they were. */
  predicate PartlyNormalized(was: seq<Range>, now: seq<Range>, k: nat, len: nat)
    requires k <= |was|
  {
    && |now| == |was|
    && (forall i | 0 <= i < k :: now[i] == Normalize(was[i], len))
    && (forall i | k <= i < |was| :: now[i] == was[i])
  }

  /** One more range adds what it overlaps; the count never goes down again. */
  lemma CountOne(rs: seq<Range>, i: nat)
    requires i < |rs|
    ensures OverlapCount(rs[..i + 1]) == OverlapCount(rs[..i]) + (if OverlapsOneOf(rs[i], rs[..i]) then 1 else 0)
    ensures OverlapCount(rs[..i + 1]) <= OverlapCount(rs)
  {
    assert rs[..i + 1][..i] == rs[..i];
    CountGrows(rs, i + 1);
  }

  lemma {:induction false} CountGrows(rs: seq<Range>, i: nat)
    requires i <= |rs|
    ensures OverlapCount(rs[..i]) <= OverlapCount(rs)
  {
    if i < |rs| {
      var n := |rs| - 1;
      CountGrows(rs[..n], i);
      assert rs[..n][..i] == rs[..i];
    } else {
      assert rs[..i] == rs;
    }
  }

  lemma InsertSorted(before: seq<Range>, sorted: seq<Range>, r: Range, at: nat)
    requires SortResult(before, sorted) && at <= |sorted|
    requires forall j | 0 <= j < at :: sorted[j].first <= r.first
    requires forall j | at <= j < |sorted| :: r.first <= sorted[j].first
    ensures SortResult(before + [r], sorted[..at] + [r] + sorted[at..])
  {
    assert sorted == sorted[..at] + sorted[at..];
  }

  lemma SameSize(a: seq<Range>, b: seq<Range>)
    requires multiset(a) == multiset(b)
    ensures |a| == |b|
  {
    assert |multiset(a)| == |multiset(b)|;
  }
}
