/** Merging closed intervals with integer ends, as sets of points on the real line. */
module MergeIntervals {
  datatype Interval = Interval(start: int, end: int)

  ghost predicate Within(iv: Interval, x: real) {
    iv.start as real <= x <= iv.end as real
  }

  ghost predicate Covers(s: seq<Interval>, x: real) {
    exists i :: 0 <= i < |s| && Within(s[i], x)
  }

  ghost predicate SameCoverage(s: seq<Interval>, t: seq<Interval>) {
    forall x: real :: Covers(s, x) <==> Covers(t, x)
  }

  ghost predicate Proper(s: seq<Interval>) {
    forall i :: 0 <= i < |s| ==> s[i].start <= s[i].end
  }

  ghost predicate SortedByStart(s: seq<Interval>) {
    forall i, j :: 0 <= i < j < |s| ==> s[i].start <= s[j].start
  }

  /** Proper intervals in order, with a gap between any two neighbours. */
  ghost predicate Canonical(s: seq<Interval>) {
    && Proper(s)
    && forall i, j :: 0 <= i < j < |s| ==> s[i].end < s[j].start
  }

  // ---- sort.Slice

  ghost predicate Permutation(s: seq<Interval>, t: seq<Interval>) {
    multiset(s) == multiset(t)
  }

  function Inserted(s: seq<Interval>, iv: Interval): (r: seq<Interval>)
    requires SortedByStart(s)
    ensures SortedByStart(r) && |r| == |s| + 1 && multiset(r) == multiset(s) + multiset{iv}
  {
    if s == [] || iv.start <= s[0].start then
      assert multiset([iv] + s) == multiset{iv} + multiset(s);
      [iv] + s
    else
      assert s == [s[0]] + s[1..];
      var r := Inserted(s[1..], iv);
      InsertedBounds(s, iv, r);
      [s[0]] + r
  }

  lemma InsertedBounds(s: seq<Interval>, iv: Interval, r: seq<Interval>)
    requires s != [] && SortedByStart(s) && s[0].start <= iv.start
    requires SortedByStart(r) && multiset(r) == multiset(s[1..]) + multiset{iv}
    ensures SortedByStart([s[0]] + r)
    ensures multiset([s[0]] + r) == multiset(s) + multiset{iv}
  {
    assert s == [s[0]] + s[1..];
    forall i | 0 <= i < |r| ensures s[0].start <= r[i].start {
      assert r[i] in multiset(r);
      assert r[i] in s[1..] || r[i] == iv;
    }
  }

  /**
   The library sort. Its contract promises no more than sort.Slice does: some permutation of the
   elements in order of Start, where equal Starts may come out in any order.
   */
  method SortSlice(a: array<Interval>)
    modifies a
    ensures SortedByStart(a[..]) && Permutation(a[..], old(a[..]))
  {
    var sorted: seq<Interval> := [];
    for i := 0 to a.Length
      invariant |sorted| == i && SortedByStart(sorted) && multiset(sorted) == multiset(a[..i])
    {
      assert a[..i + 1] == a[..i] + [a[i]];
      sorted := Inserted(sorted, a[i]);
    }
    assert a[..a.Length] == a[..];
    forall i | 0 <= i < a.Length {
      a[i] := sorted[i];
    }
    assert a[..] == sorted;
  }

  lemma PermutationCovers(s: seq<Interval>, t: seq<Interval>)
    requires Permutation(s, t)
    ensures SameCoverage(s, t)
    ensures Proper(s) ==> Proper(t)
  {
    forall x: real ensures Covers(s, x) <==> Covers(t, x) {
      CoversMembers(s, x);
      CoversMembers(t, x);
      assert forall iv :: iv in s <==> iv in multiset(s);
      assert forall iv :: iv in t <==> iv in multiset(t);
    }
    forall i | 0 <= i < |t| && Proper(s) ensures t[i].start <= t[i].end {
      assert t[i] in multiset(t);
      assert t[i] in s;
    }
  }

  lemma CoversMembers(s: seq<Interval>, x: real)
    ensures Covers(s, x) <==> exists iv :: iv in s && Within(iv, x)
  {
  }

  // ---- merging

  /**
   One merge step: `curr` extends the last interval if it starts no later than that one ends,
   and only then.
   */
  ghost function Absorbed(result: seq<Interval>, curr: Interval): seq<Interval>
    requires result != []
  {
    var last := result[|result| - 1];
    if curr.start <= last.end then
      result[|result| - 1 := last.(end := if curr.end > last.end then curr.end else last.end)]
    else result + [curr]
  }

  ghost function Merged(sorted: seq<Interval>): (r: seq<Interval>)
    ensures sorted != [] ==> r != []
  {
    if |sorted| <= 1 then sorted
    else Absorbed(Merged(sorted[..|sorted| - 1]), sorted[|sorted| - 1])
  }

  /** The ends stay ordered with respect to what is still to come. */
  ghost predicate MergeInv(s: seq<Interval>, r: seq<Interval>) {
    && s != [] && r != []
    && SameCoverage(s, r)
    && SortedByStart(r)
    && r[|r| - 1].start <= s[|s| - 1].start
    && (Proper(s) ==> Canonical(r))
  }

  lemma AbsorbedCovers(result: seq<Interval>, curr: Interval, x: real)
    requires result != [] && result[|result| - 1].start <= curr.start
    ensures Covers(Absorbed(result, curr), x) <==> Covers(result, x) || Within(curr, x)
  {
    var r, l := Absorbed(result, curr), |result| - 1;
    if curr.start <= result[l].end {
      assert Within(r[l], x) <==> Within(result[l], x) || Within(curr, x);
      if Covers(r, x) {
        var i :| 0 <= i < |r| && Within(r[i], x);
        assert i < l ==> Within(result[i], x);
      }
      if Covers(result, x) {
        var i :| 0 <= i < |result| && Within(result[i], x);
        assert i < l ==> Within(r[i], x);
      }
    } else {
      assert r[|result|] == curr;
      assert forall i :: 0 <= i < |result| ==> r[i] == result[i];
      if Within(curr, x) {
        assert Within(r[|result|], x);
      }
      if Covers(result, x) {
        var i :| 0 <= i < |result| && Within(result[i], x);
        assert Within(r[i], x);
      }
    }
  }

  lemma AbsorbedSorted(r: seq<Interval>, curr: Interval)
    requires r != [] && SortedByStart(r) && r[|r| - 1].start <= curr.start
    ensures var a := Absorbed(r, curr); SortedByStart(a) && a[|a| - 1].start <= curr.start
  {
  }

  lemma AbsorbedCanonical(r: seq<Interval>, curr: Interval)
    requires r != [] && Canonical(r) && r[|r| - 1].start <= curr.start <= curr.end
    ensures Canonical(Absorbed(r, curr))
  {
  }

  lemma AbsorbStep(s: seq<Interval>, r: seq<Interval>, curr: Interval)
    requires MergeInv(s, r) && SortedByStart(s + [curr])
    ensures MergeInv(s + [curr], Absorbed(r, curr))
  {
    var t := s + [curr];
    assert t[|s| - 1] == s[|s| - 1] && t[|s|] == curr;
    forall x: real ensures Covers(t, x) <==> Covers(Absorbed(r, curr), x) {
      AbsorbedCovers(r, curr, x);
      AppendCovers(s, curr, x);
    }
    AbsorbedSorted(r, curr);
    if Proper(t) {
      assert forall i :: 0 <= i < |s| ==> s[i] == t[i];
      AbsorbedCanonical(r, curr);
    }
  }

  lemma AppendCovers(s: seq<Interval>, curr: Interval, x: real)
    ensures Covers(s + [curr], x) <==> Covers(s, x) || Within(curr, x)
  {
    var t := s + [curr];
    assert t[|s|] == curr && forall i :: 0 <= i < |s| ==> t[i] == s[i];
    if Covers(s, x) {
      var i :| 0 <= i < |s| && Within(s[i], x);
      assert Within(t[i], x);
    }
    if Within(curr, x) {
      assert Within(t[|s|], x);
    }
  }

  lemma {:induction false} MergedKeeps(sorted: seq<Interval>)
    requires SortedByStart(sorted) && sorted != []
    ensures MergeInv(sorted, Merged(sorted))
  {
    if |sorted| > 1 {
      var s, curr := sorted[..|sorted| - 1], sorted[|sorted| - 1];
      assert sorted == s + [curr];
      MergedKeeps(s);
      AbsorbStep(s, Merged(s), curr);
    }
  }

  /**
   The result covers the same real points as the input, whatever the input; for proper intervals
   it is in order with strict gaps. With fewer than two intervals the input slice itself is returned.
   */
  method Merge(intervals: array<Interval>) returns (result: seq<Interval>)
    modifies intervals
    ensures SortedByStart(intervals[..]) && Permutation(intervals[..], old(intervals[..]))
    ensures result == Merged(intervals[..])
    ensures SameCoverage(result, old(intervals[..]))
    ensures Proper(old(intervals[..])) ==> Canonical(result)
  {
    if intervals.Length <= 1 {
      return intervals[..];
    }

    SortSlice(intervals);

    ghost var sorted := intervals[..];
    result := [intervals[0]];
    assert sorted[..1] == result;
    for i := 1 to intervals.Length
      invariant intervals[..] == sorted
      invariant result == Merged(sorted[..i])
    {
      var curr := intervals[i];
      assert sorted[..i + 1][..i] == sorted[..i];
      var last := result[|result| - 1];
      if curr.start <= last.end {
        if curr.end > last.end {
          result := result[|result| - 1 := last.(end := curr.end)];
        }
      } else {
        result := result + [curr];
      }
    }
    assert sorted[..intervals.Length] == sorted;
    MergedKeeps(sorted);
    PermutationCovers(sorted, old(intervals[..]));
    PermutationCovers(old(intervals[..]), sorted);
  }

  // ---- the canonical form is unique

  lemma CanonicalFirst(s: seq<Interval>, t: seq<Interval>)
    requires Canonical(s) && Canonical(t) && SameCoverage(s, t) && s != []
    ensures t != [] && t[0].start <= s[0].start
  {
    var x := s[0].start as real;
    assert Within(s[0], x);
    assert Covers(s, x);
    var j :| 0 <= j < |t| && Within(t[j], x);
    assert j > 0 ==> t[0].end < t[j].start;
  }

  lemma GapUncovered(s: seq<Interval>, i: nat, x: real)
    requires Canonical(s) && i < |s| && x == s[i].end as real + 0.5
    ensures !Covers(s, x)
  {
  }

  /** The first interval of one cannot outlast that of the other: there would be a point in the gap. */
  lemma CanonicalFirstEnd(s: seq<Interval>, t: seq<Interval>)
    requires Canonical(s) && Canonical(t) && SameCoverage(s, t)
    requires s != [] && t != [] && s[0].start == t[0].start
    ensures t[0].end <= s[0].end
  {
    if s[0].end < t[0].end {
      var x := s[0].end as real + 0.5;
      assert Within(t[0], x);
      assert Covers(t, x);
      GapUncovered(s, 0, x);
    }
  }

  lemma TailCovers(s: seq<Interval>, x: real)
    requires Canonical(s) && s != []
    ensures Covers(s[1..], x) <==> Covers(s, x) && s[0].end as real < x
  {
  }

  lemma {:induction false} CanonicalUnique(s: seq<Interval>, t: seq<Interval>)
    requires Canonical(s) && Canonical(t) && SameCoverage(s, t)
    ensures s == t
  {
    if s != [] {
      CanonicalFirst(s, t);
      CanonicalFirst(t, s);
      CanonicalFirstEnd(s, t);
      CanonicalFirstEnd(t, s);
      assert s[0] == t[0];
      forall x: real ensures Covers(s[1..], x) <==> Covers(t[1..], x) {
        TailCovers(s, x);
        TailCovers(t, x);
      }
      CanonicalUnique(s[1..], t[1..]);
    } else if t != [] {
      CanonicalFirst(t, s);
    }
  }

  /** However the sort orders equal Starts, and however the input was ordered, the result is one and the same. */
  lemma OrderIndependent(s: seq<Interval>, t: seq<Interval>)
    requires Proper(s) && Permutation(s, t) && SortedByStart(s) && SortedByStart(t)
    ensures Merged(s) == Merged(t)
  {
    PermutationCovers(s, t);
    if s == [] {
      assert |multiset(t)| == 0;
    } else {
      assert s[0] in multiset(t);
      MergedKeeps(s);
      MergedKeeps(t);
      CanonicalUnique(Merged(s), Merged(t));
    }
  }

  // ---- when the order of equal Starts shows

  /**
   Each interval that ends before it starts either starts within an interval that starts earlier,
   or is equal to every interval with the same start.
   */
  ghost predicate Unambiguous(s: seq<Interval>) {
    forall x <- s :: x.end < x.start ==> Bridged(s, x.start) || Alone(s, x)
  }

  ghost predicate Bridged(s: seq<Interval>, start: int) {
    exists y <- s :: y.start < start <= y.end
  }

  ghost predicate Alone(s: seq<Interval>, x: Interval) {
    forall y <- s :: y.start == x.start ==> y == x
  }

  ghost predicate SortedFormOf(t: seq<Interval>, input: seq<Interval>) {
    SortedByStart(t) && Permutation(t, input)
  }

  /** Two orders that the sort may leave the input in, with different results. */
  ghost predicate OrderShows(input: seq<Interval>) {
    exists t, u :: SortedFormOf(t, input) && SortedFormOf(u, input) && Merged(t) != Merged(u)
  }

  lemma SameMembers(s: seq<Interval>, t: seq<Interval>)
    requires Permutation(s, t)
    ensures forall x :: x in s <==> x in t
  {
    forall x ensures x in s <==> x in t {
      assert x in s <==> x in multiset(s);
    }
  }

  lemma UnambiguousPermuted(s: seq<Interval>, t: seq<Interval>)
    requires Permutation(s, t) && Unambiguous(s)
    ensures Unambiguous(t)
  {
    SameMembers(s, t);
    forall x <- t | x.end < x.start ensures Bridged(t, x.start) || Alone(t, x) {
      if Bridged(s, x.start) {
        var y :| y in s && y.start < x.start <= y.end;
        assert y in t;
      }
    }
  }

  ghost predicate Reaches(p: seq<Interval>, b: int) {
    exists y <- p :: b <= y.end
  }

  lemma ReachStep(before: seq<Interval>, curr: Interval, b: int)
    requires before != [] && curr.start <= b
    requires var m := Merged(before); b <= m[|m| - 1].end <==> Reaches(before, b)
    ensures var m := Merged(before + [curr]); b <= m[|m| - 1].end <==> Reaches(before + [curr], b)
  {
  }

  /** The last interval of the merge reaches as far as any interval so far, for starts still to come. */
  lemma {:induction false} Reach(p: seq<Interval>, b: int)
    requires p != [] && SortedByStart(p) && p[|p| - 1].start <= b
    ensures var m := Merged(p); b <= m[|m| - 1].end <==> Reaches(p, b)
  {
    var before, curr := p[..|p| - 1], p[|p| - 1];
    if before == [] {
      assert p == [curr];
      ReachesOne(curr, b);
    } else {
      Reach(before, b);
      ReachStep(before, curr, b);
      assert before + [curr] == p;
    }
  }

  lemma SortedBefore(before: seq<Interval>, x: Interval)
    requires before != [] && SortedByStart(before + [x])
    ensures SortedByStart(before) && before[|before| - 1].start <= x.start
  {
    var p := before + [x];
    assert p[|before|] == x;
    assert forall i :: 0 <= i < |before| ==> p[i] == before[i];
  }

  lemma ReachesOne(x: Interval, b: int)
    ensures Reaches([x], b) <==> b <= x.end
  {
  }

  lemma Pairwise<T>(p: seq<T>, x: T, z: T)
    ensures p + [x, z] == (p + [x]) + [z]
  {
  }

  lemma MergedAppended(p: seq<Interval>, x: Interval)
    requires p != []
    ensures Merged(p + [x]) == Absorbed(Merged(p), x)
  {
  }

  /** What follows only sees the merge so far. */
  lemma {:induction false} MergedOnward(p: seq<Interval>, t: seq<Interval>, q: seq<Interval>)
    requires p != [] && t != [] && Merged(p) == Merged(t)
    ensures Merged(p + q) == Merged(t + q)
  {
    if q == [] {
      assert p + q == p && t + q == t;
    } else {
      var rest, x := q[..|q| - 1], q[|q| - 1];
      MergedOnward(p, t, rest);
      assert p + q == (p + rest) + [x] && t + q == (t + rest) + [x];
      MergedAppended(p + rest, x);
      MergedAppended(t + rest, x);
    }
  }

  /** Of two intervals with the same start the order does not matter once one of them cannot split off. */
  lemma AbsorbTwo(r: seq<Interval>, x: Interval, y: Interval)
    requires r != [] && x.start == y.start
    requires x.start <= r[|r| - 1].end || (x.start <= x.end && y.start <= y.end)
    ensures Absorbed(Absorbed(r, x), y) == Absorbed(Absorbed(r, y), x)
  {
  }

  lemma SwapFirst(p: seq<Interval>, x: Interval, y: Interval)
    requires x.start == y.start && SortedByStart(p + [x, y]) && x != y
    requires Reaches(p, x.start) || (x.start <= x.end && y.start <= y.end)
    ensures Merged(p + [x, y]) == Merged(p + [y, x])
  {
    if p == [] {
      assert p + [x, y] == [x, y] && p + [y, x] == [y, x];
    } else {
      AppendTwo(p, x, y);
      AppendTwo(p, y, x);
      SortedFront(p, x, y);
      Reach(p, x.start);
      AbsorbTwo(Merged(p), x, y);
    }
  }

  lemma AppendTwo(p: seq<Interval>, x: Interval, y: Interval)
    requires p != []
    ensures Merged(p + [x, y]) == Absorbed(Absorbed(Merged(p), x), y)
  {
    Pairwise(p, x, y);
    MergedAppended(p + [x], y);
    MergedAppended(p, x);
  }

  lemma SortedFront(p: seq<Interval>, x: Interval, y: Interval)
    requires p != [] && SortedByStart(p + [x, y])
    ensures SortedByStart(p) && p[|p| - 1].start <= x.start
  {
    Pairwise(p, x, y);
    SortedBefore(p + [x], y);
    SortedBefore(p, x);
  }

  /** Exchanging two neighbours with the same start leaves the merge as it is. */
  lemma Swap(p: seq<Interval>, x: Interval, y: Interval, q: seq<Interval>)
    requires x.start == y.start && SortedByStart(p + [x, y] + q) && Unambiguous(p + [x, y] + q)
    ensures Merged(p + [x, y] + q) == Merged(p + [y, x] + q)
  {
    var t := p + [x, y] + q;
    if x != y {
      assert t[|p|] == x && t[|p| + 1] == y;
      assert forall i :: 0 <= i < |p| + 2 ==> (p + [x, y])[i] == t[i];
      if x.end < x.start || y.end < y.start {
        assert x in t && y in t && !Alone(t, x) && !Alone(t, y);
        var w :| w in t && w.start < x.start <= w.end;
        var i :| 0 <= i < |t| && t[i] == w;
        assert i < |p| && p[i] in p;
      }
      SwapFirst(p, x, y);
      MergedOnward(p + [x, y], p + [y, x], q);
    }
  }

  lemma Exchanged(p: seq<Interval>, x: Interval, y: Interval, q: seq<Interval>)
    ensures Permutation(p + [x, y] + q, p + [y, x] + q)
  {
  }

  lemma Regroup<T>(p: seq<T>, z: T, y: T, rest: seq<T>)
    ensures p + [z] + ([y] + rest) == p + [z, y] + rest
    ensures p + [y, z] + rest == (p + [y]) + [z] + rest
    ensures (p + [y]) + rest + [z] == p + ([y] + rest) + [z]
  {
  }

  /** An interval can be moved to the end past others with the same start. */
  lemma {:induction false} MoveToEnd(p: seq<Interval>, z: Interval, q: seq<Interval>)
    requires SortedByStart(p + [z] + q) && Unambiguous(p + [z] + q)
    requires forall y <- q :: y.start == z.start
    ensures Merged(p + [z] + q) == Merged(p + q + [z])
    ensures SortedByStart(p + q + [z]) && Permutation(p + [z] + q, p + q + [z])
    decreases |q|
  {
    if q == [] {
      assert p + [z] + q == p + q + [z];
    } else {
      var y, rest := q[0], q[1..];
      Regroup(p, z, y, rest);
      assert q == [y] + rest;
      Swap(p, z, y, rest);
      Exchanged(p, z, y, rest);
      UnambiguousPermuted(p + [z, y] + rest, p + [y, z] + rest);
      SwappedSorted(p, z, y, rest);
      MoveToEnd(p + [y], z, rest);
    }
  }

  lemma SwappedSorted(p: seq<Interval>, x: Interval, y: Interval, q: seq<Interval>)
    requires x.start == y.start && SortedByStart(p + [x, y] + q)
    ensures SortedByStart(p + [y, x] + q)
  {
    var t, u := p + [x, y] + q, p + [y, x] + q;
    forall i | 0 <= i < |u| ensures u[i].start == t[i].start {
    }
  }

  /** Leaving out the last of a sorted list keeps it unambiguous: what bridges it comes earlier. */
  lemma UnambiguousPrefix(s: seq<Interval>, x: Interval)
    requires SortedByStart(s + [x]) && Unambiguous(s + [x])
    ensures SortedByStart(s) && Unambiguous(s)
  {
    var t := s + [x];
    assert forall i :: 0 <= i < |s| ==> s[i] == t[i];
    forall z <- s | z.end < z.start ensures Bridged(s, z.start) || Alone(s, z) {
      assert z in t;
      if Bridged(t, z.start) {
        var y :| y in t && y.start < z.start <= y.end;
        var k :| 0 <= k < |s| && s[k] == z;
        assert t[k].start <= t[|s|].start;
        assert y in s;
      } else {
        assert forall y <- s :: y in t;
      }
    }
  }

  /** An interval that starts as late as any can be made the last. */
  lemma LastToEnd(t: seq<Interval>, z: Interval) returns (rest: seq<Interval>)
    requires SortedByStart(t) && Unambiguous(t) && z in t && forall y <- t :: y.start <= z.start
    ensures SortedByStart(rest + [z]) && Permutation(t, rest + [z])
    ensures Merged(t) == Merged(rest + [z])
  {
    var i :| 0 <= i < |t| && t[i] == z;
    var p, q := t[..i], t[i + 1..];
    assert t == p + [z] + q;
    forall k | 0 <= k < |q| ensures q[k].start == z.start {
      assert q[k] == t[i + 1 + k];
    }
    MoveToEnd(p, z, q);
    rest := p + q;
  }

  lemma PermutationLength(s: seq<Interval>, t: seq<Interval>)
    requires Permutation(s, t)
    ensures |s| == |t|
  {
    assert |s| == |multiset(s)| && |t| == |multiset(t)|;
  }

  lemma SameButLast(s: seq<Interval>, t: seq<Interval>, z: Interval)
    requires SortedFormOf(s + [z], t + [z])
    ensures SortedFormOf(s, t)
  {
    assert forall k :: 0 <= k < |s| ==> s[k] == (s + [z])[k];
    assert multiset(s + [z]) == multiset(s) + multiset{z};
    assert multiset(t + [z]) == multiset(t) + multiset{z};
    assert multiset(s) == multiset(s + [z]) - multiset{z};
  }

  lemma {:induction false} UnambiguousAgree(s: seq<Interval>, t: seq<Interval>)
    requires SortedByStart(s) && SortedFormOf(t, s) && Unambiguous(s)
    ensures Merged(s) == Merged(t)
    decreases |s|
  {
    PermutationLength(s, t);
    if s != [] {
      var before, z := s[..|s| - 1], s[|s| - 1];
      assert s == before + [z];
      SameMembers(s, t);
      assert z in s;
      UnambiguousPermuted(s, t);
      var rest := LastToEnd(t, z);
      SameButLast(rest, before, z);
      UnambiguousPrefix(before, z);
      UnambiguousAgree(before, rest);
      PermutationLength(before, rest);
      if before == [] {
        assert rest + [z] == s;
      } else {
        MergedAppended(before, z);
        MergedAppended(rest, z);
      }
    }
  }

  // ---- and shows, otherwise

  /** How many intervals of a sorted list start before `a`. */
  ghost predicate CutAt(w: seq<Interval>, a: int, n: nat) {
    && n <= |w|
    && (forall k :: 0 <= k < n ==> w[k].start < a)
    && (forall k :: n <= k < |w| ==> a <= w[k].start)
  }

  lemma InFront<T>(w: seq<T>, x: T, n: nat)
    requires 0 < n <= |w|
    ensures w[..n] + [x] + w[n..] == [w[0]] + (w[1..][..n - 1] + [x] + w[1..][n - 1..])
  {
  }

  /** Insertion puts an interval before all others with the same start. */
  lemma {:induction false} InsertedAtCut(w: seq<Interval>, iv: Interval, n: nat)
    requires SortedByStart(w) && CutAt(w, iv.start, n)
    ensures Inserted(w, iv) == w[..n] + [iv] + w[n..]
  {
    if n == 0 {
      assert w[..n] + [iv] + w[n..] == [iv] + w;
    } else {
      assert CutAt(w[1..], iv.start, n - 1);
      InsertedAtCut(w[1..], iv, n - 1);
      InFront(w, iv, n);
    }
  }

  lemma {:induction false} CutExists(w: seq<Interval>, a: int) returns (n: nat)
    requires SortedByStart(w)
    ensures CutAt(w, a, n)
  {
    if w == [] || a <= w[0].start {
      n := 0;
    } else {
      var m := CutExists(w[1..], a);
      n := m + 1;
      assert forall k :: 0 < k < |w| ==> w[k] == w[1..][k - 1];
    }
  }

  lemma BothInFront<T>(p: seq<T>, x: T, z: T, q: seq<T>)
    ensures var v := p + [z] + q; v[..|p|] + [x] + v[|p|..] == p + [x, z] + q
  {
  }

  lemma InsertedTwice(w: seq<Interval>, x: Interval, z: Interval, n: nat)
    requires SortedByStart(w) && x.start == z.start && CutAt(w, x.start, n)
    ensures Inserted(Inserted(w, z), x) == w[..n] + [x, z] + w[n..]
  {
    InsertedAtCut(w, z, n);
    InsertedAtCut(Inserted(w, z), x, n);
    BothInFront(w[..n], x, z, w[n..]);
  }

  ghost function SortedForm(s: seq<Interval>): (t: seq<Interval>)
    ensures SortedFormOf(t, s)
  {
    if s == [] then []
    else
      assert s == s[..|s| - 1] + [s[|s| - 1]];
      Inserted(SortedForm(s[..|s| - 1]), s[|s| - 1])
  }

  lemma TakeOut(s: seq<Interval>, x: Interval) returns (rest: seq<Interval>)
    requires x in s
    ensures multiset(rest) == multiset(s) - multiset{x}
  {
    var i :| 0 <= i < |s| && s[i] == x;
    rest := s[..i] + s[i + 1..];
    assert s == s[..i] + [x] + s[i + 1..];
  }

  /** What is merged stays: only the end of the last interval can still grow. */
  ghost predicate Extends(m: seq<Interval>, r: seq<Interval>) {
    && 0 < |m| <= |r|
    && (forall i :: 0 <= i < |m| - 1 ==> r[i] == m[i])
    && r[|m| - 1].start == m[|m| - 1].start && m[|m| - 1].end <= r[|m| - 1].end
  }

  lemma {:induction false} MergedExtends(p: seq<Interval>, q: seq<Interval>)
    requires p != []
    ensures Extends(Merged(p), Merged(p + q))
  {
    if q == [] {
      assert p + q == p;
    } else {
      var rest, x := q[..|q| - 1], q[|q| - 1];
      MergedExtends(p, rest);
      assert p + q == (p + rest) + [x];
      MergedAppended(p + rest, x);
    }
  }

  lemma StartsAnew(p: seq<Interval>, x: Interval)
    requires SortedByStart(p) && (forall y <- p :: y.start < x.start) && !Bridged(p, x.start)
    ensures Merged(p + [x]) == Merged(p) + [x]
  {
    if p == [] {
      assert p + [x] == [x];
    } else {
      MergedAppended(p, x);
      assert p[|p| - 1] in p;
      Reach(p, x.start);
    }
  }

  /** An interval that ends before it starts, not bridged and in front of its group, is on its own. */
  lemma SplitsOff(p: seq<Interval>, x: Interval, z: Interval)
    requires SortedByStart(p) && (forall y <- p :: y.start < x.start) && !Bridged(p, x.start)
    requires x.end < x.start == z.start
    ensures var m := Merged(p);
      && Merged(p + [x, z]) == m + [x, z]
      && Merged(p + [z]) == m + [z]
  {
    StartsAnew(p, x);
    StartsAnew(p, z);
    MergedAppended(p + [x], z);
    Pairwise(p, x, z);
    Pairwise(Merged(p), x, z);
  }

  /** The two orders of x and z in front of their group give different results. */
  lemma OrdersDiffer(p: seq<Interval>, x: Interval, z: Interval, q: seq<Interval>)
    requires SortedByStart(p) && (forall y <- p :: y.start < x.start) && !Bridged(p, x.start)
    requires x.end < x.start == z.start && x != z
    ensures Merged(p + [x, z] + q) != Merged(p + [z, x] + q)
  {
    SplitsOffForGood(p, x, z, q);
    if z.end < z.start {
      SplitsOffForGood(p, z, x, q);
    } else {
      StartsAnewForGood(p, z, [x] + q);
      assert p + [z, x] + q == (p + [z]) + ([x] + q);
    }
  }

  lemma SplitsOffForGood(p: seq<Interval>, x: Interval, z: Interval, q: seq<Interval>)
    requires SortedByStart(p) && (forall y <- p :: y.start < x.start) && !Bridged(p, x.start)
    requires x.end < x.start == z.start
    ensures var i := |Merged(p)|; i < |Merged(p + [x, z] + q)| && Merged(p + [x, z] + q)[i] == x
  {
    SplitsOff(p, x, z);
    MergedExtends(p + [x, z], q);
    assert (Merged(p) + [x, z])[|Merged(p)|] == x;
  }

  lemma StartsAnewForGood(p: seq<Interval>, z: Interval, q: seq<Interval>)
    requires SortedByStart(p) && (forall y <- p :: y.start < z.start) && !Bridged(p, z.start)
    ensures var i := |Merged(p)|; i < |Merged((p + [z]) + q)| && z.end <= Merged((p + [z]) + q)[i].end
  {
    StartsAnew(p, z);
    MergedExtends(p + [z], q);
    assert (Merged(p) + [z])[|Merged(p)|] == z;
  }

  lemma InsertionsDiffer(w: seq<Interval>, x: Interval, z: Interval)
    requires SortedByStart(w) && !Bridged(w, x.start) && x.end < x.start == z.start && x != z
    ensures Merged(Inserted(Inserted(w, z), x)) != Merged(Inserted(Inserted(w, x), z))
  {
    var n := CutExists(w, x.start);
    InsertedTwice(w, x, z, n);
    InsertedTwice(w, z, x, n);
    var p := w[..n];
    forall i | 0 <= i < |p| ensures p[i] == w[i] && p[i] in w {
    }
    OrdersDiffer(p, x, z, w[n..]);
  }

  lemma TakeTwoOut(s: seq<Interval>, x: Interval, z: Interval) returns (w: seq<Interval>)
    requires x in s && z in s && x != z
    ensures SortedByStart(w) && multiset(s) == multiset(w) + multiset{x} + multiset{z}
    ensures forall y <- w :: y in s
  {
    var withoutX := TakeOut(s, x);
    assert z in multiset(s) && z in multiset(withoutX);
    var rest := TakeOut(withoutX, z);
    w := SortedForm(rest);
    forall y <- w ensures y in s {
      assert y in multiset(w);
      assert y in multiset(s);
    }
  }

  lemma AmbiguousShows(input: seq<Interval>)
    requires !Unambiguous(input)
    ensures OrderShows(input)
  {
    var x :| x in input && x.end < x.start && !Bridged(input, x.start) && !Alone(input, x);
    var z :| z in input && z.start == x.start && z != x;
    var w := TakeTwoOut(input, x, z);
    InsertionsDiffer(w, x, z);
    assert SortedFormOf(Inserted(Inserted(w, z), x), input);
    assert SortedFormOf(Inserted(Inserted(w, x), z), input);
  }

  /** The result depends on the order the sort chooses exactly if the input is ambiguous. */
  lemma OrderShowsExactly(input: seq<Interval>)
    ensures OrderShows(input) <==> !Unambiguous(input)
  {
    if !Unambiguous(input) {
      AmbiguousShows(input);
    } else {
      forall t, u | SortedFormOf(t, input) && SortedFormOf(u, input) ensures Merged(t) == Merged(u) {
        UnambiguousPermuted(input, t);
        UnambiguousAgree(t, u);
      }
    }
  }

  /** With an interval that ends before it starts the order of equal Starts does show. */
  lemma ImproperOrderShows()
    ensures var s, t := [Interval(5, 3), Interval(5, 9)], [Interval(5, 9), Interval(5, 3)];
      && Permutation(s, t) && SortedByStart(s) && SortedByStart(t)
      && Merged(s) != Merged(t)
  {
  }

  // ---- and the shortest

  ghost function Naturals(n: nat): (r: set<nat>)
    ensures |r| == n && forall i: nat :: i in r <==> i < n
  {
    if n == 0 then {} else Naturals(n - 1) + {n - 1}
  }

  /** n pairwise different numbers below m need m to be at least n. */
  lemma Pigeonhole(f: seq<nat>, m: nat)
    requires forall i :: 0 <= i < |f| ==> f[i] < m
    requires forall i, j :: 0 <= i < j < |f| ==> f[i] != f[j]
    ensures |f| <= m
  {
    var values := set i | 0 <= i < |f| :: f[i];
    Injective(f);
    assert values <= Naturals(m);
    assert Naturals(m) == values + (Naturals(m) - values);
  }

  lemma {:induction false} Injective(f: seq<nat>)
    requires forall i, j :: 0 <= i < j < |f| ==> f[i] != f[j]
    ensures |set i | 0 <= i < |f| :: f[i]| == |f|
  {
    if f != [] {
      var last := |f| - 1;
      Injective(f[..last]);
      assert (set i | 0 <= i < |f| :: f[i]) == (set i | 0 <= i < last :: f[..last][i]) + {f[last]};
    }
  }

  ghost function CoveringIndex(t: seq<Interval>, x: real): (j: nat)
    requires Covers(t, x)
    ensures j < |t| && Within(t[j], x)
  {
    var j :| 0 <= j < |t| && Within(t[j], x);
    j
  }

  /** Two canonical intervals never share a covering interval: it would cover the gap after the first. */
  lemma NotShared(s: seq<Interval>, t: seq<Interval>, i: nat, j: nat, k: nat)
    requires Canonical(s) && SameCoverage(s, t) && i < j < |s| && k < |t|
    requires Within(t[k], s[i].start as real)
    ensures !Within(t[k], s[j].start as real)
  {
    var x := s[i].end as real + 0.5;
    assert s[i].end < s[j].start;
    GapUncovered(s, i, x);
    assert !Covers(t, x);
    assert !Within(t[k], x);
  }

  /** No list of intervals with the same coverage is shorter. */
  lemma CanonicalShortest(s: seq<Interval>, t: seq<Interval>)
    requires Canonical(s) && SameCoverage(s, t)
    ensures |s| <= |t|
  {
    forall i | 0 <= i < |s| ensures Covers(t, s[i].start as real) {
      assert Within(s[i], s[i].start as real);
      assert Covers(s, s[i].start as real);
    }
    var f: seq<nat> := seq(|s|, i requires 0 <= i < |s| && Covers(t, s[i].start as real) => CoveringIndex(t, s[i].start as real));
    forall i, j | 0 <= i < j < |s| ensures f[i] != f[j] {
      NotShared(s, t, i, j, f[i]);
    }
    Pigeonhole(f, |t|);
  }

  /** What Merge returns for proper intervals: fewest intervals, and a function of the covered points alone. */
  lemma MergedIsCanonicalForm(input: seq<Interval>, sorted: seq<Interval>, other: seq<Interval>)
    requires Proper(input) && Permutation(sorted, input) && SortedByStart(sorted) && SameCoverage(input, other)
    ensures |Merged(sorted)| <= |other|
    ensures Canonical(other) ==> other == Merged(sorted)
  {
    PermutationCovers(input, sorted);
    PermutationCovers(sorted, input);
    if sorted == [] {
      assert Canonical(Merged(sorted)) && SameCoverage(Merged(sorted), other);
    } else {
      MergedKeeps(sorted);
    }
    CanonicalShortest(Merged(sorted), other);
    if Canonical(other) {
      CanonicalUnique(other, Merged(sorted));
    }
  }
}
