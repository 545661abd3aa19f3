/** Sums over shards, and what a scan that reads the shards at different times can add up to. */
module Sums {
  ghost function Sum(s: seq<nat>): nat {
    if s == [] then 0 else Sum(s[..|s| - 1]) + s[|s| - 1]
  }

  lemma SumPrefix(s: seq<nat>, i: nat)
    requires i < |s|
    ensures Sum(s[..i + 1]) == Sum(s[..i]) + s[i]
  {
    assert s[..i + 1][..i] == s[..i];
  }

  lemma {:induction false} SumFront(s: seq<nat>)
    requires s != []
    ensures Sum(s) == s[0] + Sum(s[1..])
  {
    if |s| == 1 {
      assert s[..0] == [] && s[1..] == [];
    } else {
      SumFront(s[..|s| - 1]);
      assert s[..|s| - 1][1..] == s[1..][..|s| - 2];
    }
  }

  lemma {:induction false} SumUpdate(s: seq<nat>, i: nat, x: nat)
    requires i < |s|
    ensures Sum(s[i := x]) + s[i] == Sum(s) + x
  {
    var last := |s| - 1;
    if i == last {
      assert s[i := x][..last] == s[..last];
    } else {
      assert s[i := x][..last] == s[..last][i := x];
      SumUpdate(s[..last], i, x);
    }
  }

  ghost predicate Below(a: seq<nat>, b: seq<nat>) {
    |a| == |b| && forall i :: 0 <= i < |a| ==> a[i] <= b[i]
  }

  lemma {:induction false} SumMonotone(a: seq<nat>, b: seq<nat>)
    requires Below(a, b)
    ensures Sum(a) <= Sum(b)
  {
    if a != [] {
      SumMonotone(a[..|a| - 1], b[..|b| - 1]);
    }
  }

  lemma {:induction false} SumZeros(n: nat)
    ensures Sum(seq(n, _ => 0)) == 0
  {
    if n > 0 {
      assert seq(n, _ => 0)[..n - 1] == seq(n - 1, _ => 0);
      SumZeros(n - 1);
    }
  }

  /** What a scan reads that finds shard i as it was in snapshot at[i]. */
  ghost function Readings(history: seq<seq<nat>>, at: seq<nat>): (r: seq<nat>)
    requires forall i :: 0 <= i < |at| ==> at[i] < |history| && |history[at[i]]| == |at|
    ensures |r| == |at| && forall i :: 0 <= i < |at| ==> r[i] == history[at[i]][i]
  {
    seq(|at|, i requires 0 <= i < |at| => history[at[i]][i])
  }

  /** Snapshots of n shards none of which ever shrinks. */
  ghost predicate Growing(history: seq<seq<nat>>, n: nat) {
    && (forall t :: 0 <= t < |history| ==> |history[t]| == n)
    && forall t, u :: 0 <= t <= u < |history| ==> Below(history[t], history[u])
  }

  /** A scan that is not a snapshot still lies between the totals before and after it. */
  lemma ScanBetween(history: seq<seq<nat>>, n: nat, at: seq<nat>, from: nat, to: nat)
    requires Growing(history, n) && |at| == n && from <= to < |history|
    requires forall i :: 0 <= i < n ==> from <= at[i] <= to
    ensures Sum(history[from]) <= Sum(Readings(history, at)) <= Sum(history[to])
  {
    var r := Readings(history, at);
    forall i | 0 <= i < n ensures history[from][i] <= r[i] <= history[to][i] {
      assert Below(history[from], history[at[i]]) && Below(history[at[i]], history[to]);
    }
    SumMonotone(history[from], r);
    SumMonotone(r, history[to]);
  }
}
