/**
 The sharded map. The hash is any function of the key; each key lives in the shard its hash
 selects, and together the shards answer as one plain map.
 */
module ShardedMap {
  import opened Prelude
  import opened Sums

  /** All shards as one map. */
  ghost function Union<K, V>(shards: seq<map<K, V>>): map<K, V> {
    if shards == [] then map[] else Union(shards[..|shards| - 1]) + shards[|shards| - 1]
  }

  ghost function ShardOf<K>(hash: K -> nat, count: nat, k: K): nat
    requires count > 0
  {
    hash(k) % count
  }

  /** Keys live only in their own shard. */
  ghost predicate Placed<K(!new), V>(hash: K -> nat, shards: seq<map<K, V>>) {
    forall i, k :: 0 <= i < |shards| && k in shards[i] ==> ShardOf(hash, |shards|, k) == i
  }

  /** No key is in two shards. */
  ghost predicate Apart<K(!new), V>(shards: seq<map<K, V>>) {
    forall i, j, k :: 0 <= i < j < |shards| && k in shards[i] ==> k !in shards[j]
  }

  lemma PlacedApart<K(!new), V>(hash: K -> nat, shards: seq<map<K, V>>)
    requires shards != [] && Placed(hash, shards)
    ensures Apart(shards)
  {
    forall i, j, k | 0 <= i < j < |shards| && k in shards[i] ensures k !in shards[j] {
      assert ShardOf(hash, |shards|, k) == i;
    }
  }

  lemma {:induction false} UnionLookup<K(!new), V>(shards: seq<map<K, V>>, k: K)
    requires Apart(shards)
    ensures k in Union(shards) <==> exists i :: 0 <= i < |shards| && k in shards[i]
    ensures forall i :: 0 <= i < |shards| && k in shards[i] ==> Union(shards)[k] == shards[i][k]
  {
    if shards != [] {
      var last := |shards| - 1;
      var before := shards[..last];
      assert forall i :: 0 <= i < last ==> before[i] == shards[i];
      UnionLookup(before, k);
      if k in Union(before) {
        var i :| 0 <= i < |before| && k in before[i];
        assert k in shards[i];
      }
      if k in shards[last] {
        assert k in Union(shards);
      }
      forall i | 0 <= i < |shards| && k in shards[i] ensures k in Union(shards) && Union(shards)[k] == shards[i][k] {
        if i < last {
          assert k in before[i];
          assert k !in shards[last];
        }
      }
    }
  }

  /** Looking a key up in its own shard is looking it up in the whole map. */
  lemma OwnShard<K(!new), V>(hash: K -> nat, shards: seq<map<K, V>>, k: K)
    requires shards != [] && Placed(hash, shards)
    ensures var m := shards[ShardOf(hash, |shards|, k)];
      (k in Union(shards) <==> k in m) && (k in m ==> Union(shards)[k] == m[k])
  {
    PlacedApart(hash, shards);
    UnionLookup(shards, k);
  }

  lemma SetOwnShard<K(!new), V>(hash: K -> nat, shards: seq<map<K, V>>, k: K, v: V)
    requires shards != [] && Placed(hash, shards)
    ensures var i := ShardOf(hash, |shards|, k);
      var after := shards[i := shards[i][k := v]];
      Placed(hash, after) && Union(after) == Union(shards)[k := v]
  {
    var i := ShardOf(hash, |shards|, k);
    var after := shards[i := shards[i][k := v]];
    forall x ensures x in Union(after) <==> x in Union(shards)[k := v]
             ensures x in Union(after) ==> Union(after)[x] == Union(shards)[k := v][x] {
      OwnShard(hash, shards, x);
      OwnShard(hash, after, x);
    }
  }

  lemma DeleteOwnShard<K(!new), V>(hash: K -> nat, shards: seq<map<K, V>>, k: K)
    requires shards != [] && Placed(hash, shards)
    ensures var i := ShardOf(hash, |shards|, k);
      var after := shards[i := shards[i] - {k}];
      Placed(hash, after) && Union(after) == Union(shards) - {k}
  {
    var i := ShardOf(hash, |shards|, k);
    var after := shards[i := shards[i] - {k}];
    forall x ensures x in Union(after) <==> x in Union(shards) - {k}
             ensures x in Union(after) ==> Union(after)[x] == (Union(shards) - {k})[x] {
      OwnShard(hash, shards, x);
      OwnShard(hash, after, x);
    }
  }

  ghost function Sizes<K, V>(shards: seq<map<K, V>>): (s: seq<nat>)
    ensures |s| == |shards| && forall i :: 0 <= i < |s| ==> s[i] == |shards[i]|
  {
    seq(|shards|, i requires 0 <= i < |shards| => |shards[i]|)
  }

  lemma EarlierApart<K(!new), V>(shards: seq<map<K, V>>, i: nat)
    requires Apart(shards) && i < |shards|
    ensures Union(shards[..i]).Keys !! shards[i].Keys
  {
    var before := shards[..i];
    assert forall j :: 0 <= j < i ==> before[j] == shards[j];
    forall k | k in Union(before) ensures k !in shards[i] {
      UnionLookup(before, k);
      var j :| 0 <= j < |before| && k in before[j];
      assert k in shards[j];
    }
  }

  lemma {:induction false} UnionSize<K(!new), V>(shards: seq<map<K, V>>)
    requires Apart(shards)
    ensures |Union(shards)| == Sum(Sizes(shards))
  {
    if shards != [] {
      var last := |shards| - 1;
      var before := shards[..last];
      assert forall i :: 0 <= i < last ==> before[i] == shards[i];
      UnionSize(before);
      EarlierApart(shards, last);
      assert Sizes(shards)[..last] == Sizes(before);
    }
  }

  // ---- Len while others write

  datatype Write<K, V> = Set(key: K, value: V) | Delete(key: K)

  /** One Set or Delete, on the shard of its key. */
  ghost function Written<K, V>(hash: K -> nat, shards: seq<map<K, V>>, w: Write<K, V>): (r: seq<map<K, V>>)
    requires shards != []
    ensures |r| == |shards|
  {
    var i := ShardOf(hash, |shards|, w.key);
    shards[i := if w.Set? then shards[i][w.key := w.value] else shards[i] - {w.key}]
  }

  /** The shards after the first t writes of a run. */
  ghost function At<K, V>(hash: K -> nat, shards: seq<map<K, V>>, writes: seq<Write<K, V>>, t: nat): (r: seq<map<K, V>>)
    requires shards != [] && t <= |writes|
    ensures |r| == |shards|
  {
    if t == 0 then shards else Written(hash, At(hash, shards, writes, t - 1), writes[t - 1])
  }

  /** The size of the map after the first t writes. */
  ghost function SizeAt<K, V>(hash: K -> nat, shards: seq<map<K, V>>, writes: seq<Write<K, V>>, t: nat): nat
    requires shards != [] && t <= |writes|
  {
    |Union(At(hash, shards, writes, t))|
  }

  lemma {:induction false} WritesStayPlaced<K(!new), V>(
    hash: K -> nat, shards: seq<map<K, V>>, writes: seq<Write<K, V>>, t: nat)
    requires shards != [] && Placed(hash, shards) && t <= |writes|
    ensures Placed(hash, At(hash, shards, writes, t))
  {
    if t > 0 {
      WritesStayPlaced(hash, shards, writes, t - 1);
    }
  }

  /** The same run on one plain map. */
  ghost function PlainAt<K, V>(m: map<K, V>, writes: seq<Write<K, V>>, t: nat): map<K, V>
    requires t <= |writes|
  {
    if t == 0 then m
    else
      match writes[t - 1]
      case Set(k, v) => PlainAt(m, writes, t - 1)[k := v]
      case Delete(k) => PlainAt(m, writes, t - 1) - {k}
  }

  /** Any run of Sets and Deletes leaves the shards with what it leaves one plain map with. */
  lemma {:induction false} RunsAsPlain<K(!new), V>(
    hash: K -> nat, shards: seq<map<K, V>>, writes: seq<Write<K, V>>, t: nat)
    requires shards != [] && Placed(hash, shards) && t <= |writes|
    ensures Union(At(hash, shards, writes, t)) == PlainAt(Union(shards), writes, t)
  {
    if t > 0 {
      RunsAsPlain(hash, shards, writes, t - 1);
      WritesStayPlaced(hash, shards, writes, t - 1);
      var before := At(hash, shards, writes, t - 1);
      match writes[t - 1]
      case Set(k, v) => SetOwnShard(hash, before, k, v);
      case Delete(k) => DeleteOwnShard(hash, before, k);
    }
  }

  /** The two kinds of steps that change the size: adding a new key, and removing a present one. */
  datatype Change = Addition | Removal

  ghost predicate Makes<K, V>(w: Write<K, V>, m: map<K, V>, change: Change) {
    match change
    case Addition => w.Set? && w.key !in m
    case Removal => w.Delete? && w.key in m
  }

  ghost predicate StepMakes<K, V>(
    hash: K -> nat, shards: seq<map<K, V>>, writes: seq<Write<K, V>>, t: nat, change: Change)
    requires shards != [] && t < |writes|
  {
    Makes(writes[t], Union(At(hash, shards, writes, t)), change)
  }

  /** How many steps of a window of the run make this change. */
  ghost function Changes<K, V>(
    hash: K -> nat, shards: seq<map<K, V>>, writes: seq<Write<K, V>>, change: Change, from: nat, to: nat): nat
    requires shards != [] && from <= to <= |writes|
  {
    if from == to then 0
    else
      Changes(hash, shards, writes, change, from, to - 1)
      + (if StepMakes(hash, shards, writes, to - 1, change) then 1 else 0)
  }

  /** The same, shard by shard. */
  ghost function ChangesIn<K, V>(
    hash: K -> nat, shards: seq<map<K, V>>, writes: seq<Write<K, V>>, change: Change, from: nat, to: nat): (r: seq<nat>)
    requires shards != [] && from <= to <= |writes|
    ensures |r| == |shards|
  {
    if from == to then seq(|shards|, _ => 0)
    else
      var before := ChangesIn(hash, shards, writes, change, from, to - 1);
      var i := ShardOf(hash, |shards|, writes[to - 1].key);
      if StepMakes(hash, shards, writes, to - 1, change) then before[i := before[i] + 1] else before
  }

  lemma {:induction false} ChangesSum<K, V>(
    hash: K -> nat, shards: seq<map<K, V>>, writes: seq<Write<K, V>>, change: Change, from: nat, to: nat)
    requires shards != [] && from <= to <= |writes|
    ensures Sum(ChangesIn(hash, shards, writes, change, from, to)) == Changes(hash, shards, writes, change, from, to)
  {
    if from == to {
      SumZeros(|shards|);
    } else {
      ChangesSum(hash, shards, writes, change, from, to - 1);
      var before := ChangesIn(hash, shards, writes, change, from, to - 1);
      var i := ShardOf(hash, |shards|, writes[to - 1].key);
      SumUpdate(before, i, before[i] + 1);
    }
  }

  lemma {:induction false} ChangesGrow<K, V>(
    hash: K -> nat, shards: seq<map<K, V>>, writes: seq<Write<K, V>>, change: Change, from: nat, t: nat, to: nat)
    requires shards != [] && from <= t <= to <= |writes|
    ensures Below(ChangesIn(hash, shards, writes, change, from, t), ChangesIn(hash, shards, writes, change, from, to))
  {
    if t < to {
      ChangesGrow(hash, shards, writes, change, from, t, to - 1);
    }
  }

  /** 1 for the shard of the key if the write makes this change, else 0. */
  ghost function Effect<K, V>(hash: K -> nat, shards: seq<map<K, V>>, w: Write<K, V>, change: Change, j: nat): nat
    requires shards != []
  {
    if Makes(w, Union(shards), change) && j == ShardOf(hash, |shards|, w.key) then 1 else 0
  }

  lemma OwnSize<K(!new), V>(hash: K -> nat, shards: seq<map<K, V>>, w: Write<K, V>)
    requires shards != [] && Placed(hash, shards)
    ensures var i := ShardOf(hash, |shards|, w.key);
      |Written(hash, shards, w)[i]| + (if Makes(w, Union(shards), Removal) then 1 else 0)
      == |shards[i]| + (if Makes(w, Union(shards), Addition) then 1 else 0)
  {
    var m := shards[ShardOf(hash, |shards|, w.key)];
    OwnShard(hash, shards, w.key);
    match w
    case Set(k, v) => assert m[k := v].Keys == m.Keys + {k};
    case Delete(k) => assert (m - {k}).Keys == m.Keys - {k};
  }

  /** A write changes the size of the own shard as the kind of the step says, and of no other. */
  lemma WriteSize<K(!new), V>(hash: K -> nat, shards: seq<map<K, V>>, w: Write<K, V>, j: nat)
    requires shards != [] && Placed(hash, shards) && j < |shards|
    ensures |Written(hash, shards, w)[j]| + Effect(hash, shards, w, Removal, j)
         == |shards[j]| + Effect(hash, shards, w, Addition, j)
  {
    if j == ShardOf(hash, |shards|, w.key) {
      OwnSize(hash, shards, w);
    }
  }

  /** The last step of a window changes size and counts of a shard in step. */
  lemma StepBalance<K(!new), V>(
    hash: K -> nat, shards: seq<map<K, V>>, writes: seq<Write<K, V>>, from: nat, t: nat, j: nat)
    requires shards != [] && Placed(hash, shards) && from < t <= |writes| && j < |shards|
    ensures |At(hash, shards, writes, t)[j]|
      + ChangesIn(hash, shards, writes, Removal, from, t)[j] - ChangesIn(hash, shards, writes, Removal, from, t - 1)[j]
      == |At(hash, shards, writes, t - 1)[j]|
      + ChangesIn(hash, shards, writes, Addition, from, t)[j] - ChangesIn(hash, shards, writes, Addition, from, t - 1)[j]
  {
    WritesStayPlaced(hash, shards, writes, t - 1);
    WriteSize(hash, At(hash, shards, writes, t - 1), writes[t - 1], j);
  }

  /** Each shard's size, and what was removed from it, balance what was there and what was added. */
  lemma {:induction false} Balance<K(!new), V>(
    hash: K -> nat, shards: seq<map<K, V>>, writes: seq<Write<K, V>>, from: nat, t: nat, j: nat)
    requires shards != [] && Placed(hash, shards) && from <= t <= |writes| && j < |shards|
    ensures |At(hash, shards, writes, t)[j]| + ChangesIn(hash, shards, writes, Removal, from, t)[j]
         == |At(hash, shards, writes, from)[j]| + ChangesIn(hash, shards, writes, Addition, from, t)[j]
  {
    if from < t {
      Balance(hash, shards, writes, from, t - 1, j);
      StepBalance(hash, shards, writes, from, t, j);
    }
  }

  /** The shard sizes before, between and after the writes. */
  ghost function SizeHistory<K, V>(hash: K -> nat, shards: seq<map<K, V>>, writes: seq<Write<K, V>>): (h: seq<seq<nat>>)
    requires shards != []
    ensures |h| == |writes| + 1
    ensures forall t :: 0 <= t <= |writes| ==> h[t] == Sizes(At(hash, shards, writes, t))
  {
    seq(|writes| + 1, t requires 0 <= t <= |writes| => Sizes(At(hash, shards, writes, t)))
  }

  /** A Len that reads shard i after at[i] writes, all its reads falling between `from` and `to`. */
  ghost predicate Scan(n: nat, steps: nat, at: seq<nat>, from: nat, to: nat) {
    |at| == n && from <= to <= steps && forall i :: 0 <= i < n ==> from <= at[i] <= to
  }

  /** What such a Len answers. */
  ghost function LenSeen<K, V>(hash: K -> nat, shards: seq<map<K, V>>, writes: seq<Write<K, V>>, at: seq<nat>): nat
    requires shards != [] && |at| == |shards| && forall i :: 0 <= i < |at| ==> at[i] <= |writes|
  {
    Sum(Readings(SizeHistory(hash, shards, writes), at))
  }

  lemma SizeIsSum<K(!new), V>(hash: K -> nat, shards: seq<map<K, V>>, writes: seq<Write<K, V>>, t: nat)
    requires shards != [] && Placed(hash, shards) && t <= |writes|
    ensures SizeAt(hash, shards, writes, t) == Sum(Sizes(At(hash, shards, writes, t)))
  {
    WritesStayPlaced(hash, shards, writes, t);
    PlacedApart(hash, At(hash, shards, writes, t));
    UnionSize(At(hash, shards, writes, t));
  }

  /** A reading, against what was there first and last and what was removed and added between. */
  ghost predicate Bounded(seen: nat, first: nat, last: nat, removed: nat, added: nat) {
    first <= seen + removed && seen <= first + added && last <= seen + added && seen <= last + removed
  }

  /** One shard of a scan. */
  lemma ReadingBounds<K(!new), V>(
    hash: K -> nat, shards: seq<map<K, V>>, writes: seq<Write<K, V>>, from: nat, t: nat, to: nat, j: nat)
    requires shards != [] && Placed(hash, shards) && from <= t <= to <= |writes| && j < |shards|
    ensures Bounded(
      |At(hash, shards, writes, t)[j]|, |At(hash, shards, writes, from)[j]|, |At(hash, shards, writes, to)[j]|,
      ChangesIn(hash, shards, writes, Removal, from, to)[j], ChangesIn(hash, shards, writes, Addition, from, to)[j])
  {
    Balance(hash, shards, writes, from, t, j);
    Balance(hash, shards, writes, from, to, j);
    ChangesGrow(hash, shards, writes, Removal, from, t, to);
    ChangesGrow(hash, shards, writes, Addition, from, t, to);
  }

  /** Every shard of a scan. */
  lemma ShardsBounded<K(!new), V>(
    hash: K -> nat, shards: seq<map<K, V>>, writes: seq<Write<K, V>>, at: seq<nat>, from: nat, to: nat)
    requires shards != [] && Placed(hash, shards) && Scan(|shards|, |writes|, at, from, to)
    ensures var seen := Readings(SizeHistory(hash, shards, writes), at);
      var first, last := Sizes(At(hash, shards, writes, from)), Sizes(At(hash, shards, writes, to));
      var removed := ChangesIn(hash, shards, writes, Removal, from, to);
      var added := ChangesIn(hash, shards, writes, Addition, from, to);
      forall j :: 0 <= j < |shards| ==> Bounded(seen[j], first[j], last[j], removed[j], added[j])
  {
    forall j | 0 <= j < |shards|
      ensures Bounded(
        |At(hash, shards, writes, at[j])[j]|, |At(hash, shards, writes, from)[j]|, |At(hash, shards, writes, to)[j]|,
        ChangesIn(hash, shards, writes, Removal, from, to)[j], ChangesIn(hash, shards, writes, Addition, from, to)[j])
    {
      ReadingBounds(hash, shards, writes, from, at[j], to, j);
    }
  }

  lemma {:induction false} SumsBounded(seen: seq<nat>, first: seq<nat>, last: seq<nat>, removed: seq<nat>, added: seq<nat>)
    requires |seen| == |first| == |last| == |removed| == |added|
    requires forall j :: 0 <= j < |seen| ==> Bounded(seen[j], first[j], last[j], removed[j], added[j])
    ensures Bounded(Sum(seen), Sum(first), Sum(last), Sum(removed), Sum(added))
  {
    if seen != [] {
      var n := |seen| - 1;
      SumsBounded(seen[..n], first[..n], last[..n], removed[..n], added[..n]);
      assert Bounded(seen[n], first[n], last[n], removed[n], added[n]);
    }
  }

  /**
   Under any concurrent Sets and Deletes, Len is off the size of the map at either end of its window
   by no more than the removals and additions that fall into the window.
   */
  lemma LenBounds<K(!new), V>(
    hash: K -> nat, shards: seq<map<K, V>>, writes: seq<Write<K, V>>, at: seq<nat>, from: nat, to: nat)
    requires shards != [] && Placed(hash, shards) && Scan(|shards|, |writes|, at, from, to)
    ensures var total := LenSeen(hash, shards, writes, at);
      var removals := Changes(hash, shards, writes, Removal, from, to);
      var additions := Changes(hash, shards, writes, Addition, from, to);
      && SizeAt(hash, shards, writes, from) - removals <= total <= SizeAt(hash, shards, writes, from) + additions
      && SizeAt(hash, shards, writes, to) - additions <= total <= SizeAt(hash, shards, writes, to) + removals
  {
    var seen := Readings(SizeHistory(hash, shards, writes), at);
    var first, last := Sizes(At(hash, shards, writes, from)), Sizes(At(hash, shards, writes, to));
    var removed := ChangesIn(hash, shards, writes, Removal, from, to);
    var added := ChangesIn(hash, shards, writes, Addition, from, to);
    ShardsBounded(hash, shards, writes, at, from, to);
    SumsBounded(seen, first, last, removed, added);
    ChangesSum(hash, shards, writes, Removal, from, to);
    ChangesSum(hash, shards, writes, Addition, from, to);
    SizeIsSum(hash, shards, writes, from);
    SizeIsSum(hash, shards, writes, to);
  }

  ghost predicate RemovesNothing<K, V>(hash: K -> nat, shards: seq<map<K, V>>, writes: seq<Write<K, V>>)
    requires shards != []
  {
    forall t :: 0 <= t < |writes| ==> !StepMakes(hash, shards, writes, t, Removal)
  }

  lemma {:induction false} NoRemovals<K, V>(
    hash: K -> nat, shards: seq<map<K, V>>, writes: seq<Write<K, V>>, from: nat, to: nat)
    requires shards != [] && from <= to <= |writes| && RemovesNothing(hash, shards, writes)
    ensures Changes(hash, shards, writes, Removal, from, to) == 0
  {
    if from < to {
      NoRemovals(hash, shards, writes, from, to - 1);
    }
  }

  /** While no present key is removed, Len answers with a number between the sizes at its two ends. */
  lemma LenBetween<K(!new), V>(
    hash: K -> nat, shards: seq<map<K, V>>, writes: seq<Write<K, V>>, at: seq<nat>, from: nat, to: nat)
    requires shards != [] && Placed(hash, shards) && Scan(|shards|, |writes|, at, from, to)
    requires RemovesNothing(hash, shards, writes)
    ensures SizeAt(hash, shards, writes, from) <= LenSeen(hash, shards, writes, at) <= SizeAt(hash, shards, writes, to)
  {
    LenBounds(hash, shards, writes, at, from, to);
    NoRemovals(hash, shards, writes, from, to);
  }

  /** Every Len, over every window of the run, lies between the sizes at its two ends. */
  ghost predicate AlwaysBetween<K, V>(hash: K -> nat, shards: seq<map<K, V>>, writes: seq<Write<K, V>>)
    requires shards != []
  {
    forall at, from, to :: Scan(|shards|, |writes|, at, from, to) ==>
      SizeAt(hash, shards, writes, from) <= LenSeen(hash, shards, writes, at) <= SizeAt(hash, shards, writes, to)
  }

  lemma RemovalShrinks<K(!new), V>(hash: K -> nat, shards: seq<map<K, V>>, writes: seq<Write<K, V>>, t: nat)
    requires shards != [] && Placed(hash, shards) && t < |writes| && StepMakes(hash, shards, writes, t, Removal)
    ensures SizeAt(hash, shards, writes, t + 1) < SizeAt(hash, shards, writes, t)
  {
    var before, k := At(hash, shards, writes, t), writes[t].key;
    WritesStayPlaced(hash, shards, writes, t);
    DeleteOwnShard(hash, before, k);
    assert (Union(before) - {k}).Keys == Union(before).Keys - {k};
  }

  /** The runs with that property are exactly those in which no step removes a present key. */
  lemma LenBetweenExactly<K(!new), V>(hash: K -> nat, shards: seq<map<K, V>>, writes: seq<Write<K, V>>)
    requires shards != [] && Placed(hash, shards)
    ensures AlwaysBetween(hash, shards, writes) <==> RemovesNothing(hash, shards, writes)
  {
    if AlwaysBetween(hash, shards, writes) {
      forall t | 0 <= t < |writes| ensures !StepMakes(hash, shards, writes, t, Removal) {
        assert Scan(|shards|, |writes|, seq(|shards|, _ => t), t, t + 1);
        if StepMakes(hash, shards, writes, t, Removal) {
          RemovalShrinks(hash, shards, writes, t);
        }
      }
    }
    if RemovesNothing(hash, shards, writes) {
      forall at, from, to | Scan(|shards|, |writes|, at, from, to)
        ensures SizeAt(hash, shards, writes, from) <= LenSeen(hash, shards, writes, at) <= SizeAt(hash, shards, writes, to)
      {
        LenBetween(hash, shards, writes, at, from, to);
      }
    }
  }

  lemma SumPair(a: nat, b: nat)
    ensures Sum([a, b]) == a + b
  {
    assert [a, b][..1] == [a] && [a][..0] == [];
    assert Sum([a]) == Sum([a][..0]) + a;
  }

  lemma PairSize<V>(hash: nat -> nat, m: map<nat, V>, n: map<nat, V>)
    requires (forall k <- m :: hash(k) % 2 == 0) && (forall k <- n :: hash(k) % 2 == 1)
    ensures Placed(hash, [m, n]) && |Union([m, n])| == |m| + |n| && Sizes([m, n]) == [|m|, |n|]
  {
    PlacedApart(hash, [m, n]);
    UnionSize([m, n]);
    SumPair(|m|, |n|);
  }

  const KEY_ONE: seq<map<nat, bool>> := [map[], map[1 := true]]
  const MOVE: seq<Write<nat, bool>> := [Set(0, true), Delete(1)]

  lemma MoveRun(hash: nat -> nat)
    requires hash(0) % 2 == 0 && hash(1) % 2 == 1
    ensures At(hash, KEY_ONE, MOVE, 1) == [map[0 := true], map[1 := true]]
    ensures At(hash, KEY_ONE, MOVE, 2) == [map[0 := true], map[]]
  {
  }

  /**
   Once keys are removed Len can fall short of every size the map ever had: key 0 is added, key 1 is
   deleted, and Len reads shard 0 before and shard 1 after.
   */
  lemma LenMissesMoves(hash: nat -> nat)
    requires hash(0) % 2 == 0 && hash(1) % 2 == 1
    ensures Placed(hash, KEY_ONE)
    ensures SizeAt(hash, KEY_ONE, MOVE, 0) == 1 && SizeAt(hash, KEY_ONE, MOVE, 1) == 2 && SizeAt(hash, KEY_ONE, MOVE, 2) == 1
    ensures Scan(|KEY_ONE|, |MOVE|, [0, 2], 0, 2) && LenSeen(hash, KEY_ONE, MOVE, [0, 2]) == 0
  {
    MoveSizes(hash);
    MoveSeen(hash);
  }

  lemma MoveSeen(hash: nat -> nat)
    requires hash(0) % 2 == 0 && hash(1) % 2 == 1
    ensures Scan(|KEY_ONE|, |MOVE|, [0, 2], 0, 2) && LenSeen(hash, KEY_ONE, MOVE, [0, 2]) == 0
  {
    MoveRun(hash);
    SeenAtBothEnds(hash, KEY_ONE, MOVE, 2);
  }

  lemma MoveSizes(hash: nat -> nat)
    requires hash(0) % 2 == 0 && hash(1) % 2 == 1
    ensures Placed(hash, KEY_ONE) && SizeAt(hash, KEY_ONE, MOVE, 0) == 1
    ensures SizeAt(hash, KEY_ONE, MOVE, 1) == 2
    ensures SizeAt(hash, KEY_ONE, MOVE, 2) == 1
  {
    MoveRun(hash);
    PairSize<bool>(hash, map[], map[1 := true]);
    PairSize<bool>(hash, map[0 := true], map[1 := true]);
    PairSize<bool>(hash, map[0 := true], map[]);
  }

  lemma BothEnds(h: seq<seq<nat>>, n: nat)
    requires |h| == n + 1 && |h[0]| == |h[n]| == 2
    ensures Scan(2, n, [0, n], 0, n)
    ensures Sum(Readings(h, [0, n])) == h[0][0] + h[n][1]
  {
    assert Readings(h, [0, n]) == [h[0][0], h[n][1]];
    SumPair(h[0][0], h[n][1]);
  }

  /** A Len over two shards that reads one at the start and one at the end of a run. */
  lemma SeenAtBothEnds<K(!new), V>(hash: K -> nat, shards: seq<map<K, V>>, writes: seq<Write<K, V>>, n: nat)
    requires |shards| == 2 && n == |writes|
    ensures Scan(2, n, [0, n], 0, n)
    ensures LenSeen(hash, shards, writes, [0, n]) == |shards[0]| + |At(hash, shards, writes, n)[1]|
  {
    var h := SizeHistory(hash, shards, writes);
    assert h[0] == Sizes(shards) && h[n] == Sizes(At(hash, shards, writes, n));
    BothEnds(h, n);
  }

  // ---- the map object

  class ShardedMap<K(==, !new), V> {
    const count: nat
    const hash: K -> nat
    var shards: array<map<K, V>>

    ghost predicate Valid()
      reads this, shards
    {
      shards.Length == count > 0 && Placed(hash, shards[..])
    }

    ghost function Contents(): map<K, V>
      reads this, shards
    {
      Union(shards[..])
    }

    constructor (count: nat, hash: K -> nat)
      requires count > 0
      ensures Valid() && fresh(shards) && this.count == count && this.hash == hash
      ensures Contents() == map[]
    {
      this.count := count;
      this.hash := hash;
      shards := new map<K, V>[count](_ => map[]);
      new;
      for i := 0 to count
        invariant shards.Length == count && fresh(shards)
        invariant forall j :: 0 <= j < count ==> shards[j] == map[]
      {
        shards[i] := map[];
      }
      forall k: K ensures k !in Contents() {
        OwnShard(hash, shards[..], k);
      }
    }

    method GetShard(key: K) returns (i: nat)
      requires count > 0
      ensures i < count && i == hash(key) % count
    {
      i := hash(key) % count;
    }

    method Set(key: K, value: V)
      requires Valid()
      modifies shards
      ensures Valid() && Contents() == old(Contents())[key := value]
    {
      var i := GetShard(key);
      SetOwnShard(hash, shards[..], key, value);
      ghost var after := shards[..][i := shards[i][key := value]];
      shards[i] := shards[i][key := value];
      assert shards[..] == after;
    }

    method Get(key: K) returns (r: Option<V>)
      requires Valid()
      ensures r == if key in Contents() then Some(Contents()[key]) else None
    {
      var i := GetShard(key);
      OwnShard(hash, shards[..], key);
      if key in shards[i] {
        return Some(shards[i][key]);
      }
      return None;
    }

    method Delete(key: K)
      requires Valid()
      modifies shards
      ensures Valid() && Contents() == old(Contents()) - {key}
    {
      var i := GetShard(key);
      DeleteOwnShard(hash, shards[..], key);
      ghost var after := shards[..][i := shards[i] - {key}];
      shards[i] := shards[i] - {key};
      assert shards[..] == after;
    }

    method Len() returns (total: nat)
      requires Valid()
      ensures total == |Contents()|
    {
      total := 0;
      ghost var sizes := Sizes(shards[..]);
      for i := 0 to shards.Length
        invariant total == Sum(sizes[..i])
      {
        SumPrefix(sizes, i);
        total := total + |shards[i]|;
      }
      assert sizes[..count] == sizes;
      PlacedApart(hash, shards[..]);
      UnionSize(shards[..]);
    }

    /**
     Calls f on pair after pair, each shard in any order, until f says stop. `f` sees everything it
     has been called with so far, the current pair last, so that it may keep state.
     */
    method Range(f: seq<(K, V)> -> bool) returns (visited: seq<(K, V)>, stopped: bool)
      requires Valid()
      ensures Visited(visited, FirstOf(visited), Contents())
      ensures stopped ==> visited != [] && !f(visited) && Continued(f, visited[..|visited| - 1])
      ensures !stopped ==> Continued(f, visited) && FirstOf(visited) == Contents().Keys
    {
      visited := [];
      for i := 0 to shards.Length
        invariant Visited(visited, Union(shards[..i]).Keys, Contents()) && Continued(f, visited)
      {
        visited, stopped := RangeShard(i, f, visited);
        if stopped {
          return;
        }
        assert shards[..i + 1][..i] == shards[..i];
      }
      assert shards[..shards.Length] == shards[..];
      stopped := false;
    }

    method RangeShard(i: nat, f: seq<(K, V)> -> bool, before: seq<(K, V)>) returns (visited: seq<(K, V)>, stopped: bool)
      requires Valid() && i < count
      requires Visited(before, Union(shards[..i]).Keys, Contents()) && Continued(f, before)
      ensures Visited(visited, FirstOf(visited), Contents())
      ensures stopped ==> visited != [] && !f(visited) && Continued(f, visited[..|visited| - 1])
      ensures !stopped ==> Continued(f, visited) && FirstOf(visited) == Union(shards[..i]).Keys + shards[i].Keys
    {
      visited := before;
      var left := shards[i].Keys;
      ghost var seen := Union(shards[..i]).Keys;
      PlacedApart(hash, shards[..]);
      assert shards[..][..i] == shards[..i];
      EarlierApart(shards[..], i);
      while left != {}
        invariant left <= shards[i].Keys && seen !! left
        invariant seen + left == Union(shards[..i]).Keys + shards[i].Keys
        invariant Visited(visited, seen, Contents()) && Continued(f, visited)
      {
        var k :| k in left;
        UnionLookup(shards[..], k);
        var pair := (k, shards[i][k]);
        VisitOne(visited, seen, Contents(), k);
        ContinueOne(f, visited, pair);
        visited := visited + [pair];
        left := left - {k};
        seen := seen + {k};
        if !f(visited) {
          stopped := true;
          return;
        }
      }
      stopped := false;
    }
  }

  ghost function FirstOf<K, V>(visited: seq<(K, V)>): set<K> {
    set p <- visited :: p.0
  }

  /** `visited` has each of these keys once, with its value in m. */
  ghost predicate Visited<K, V>(visited: seq<(K, V)>, keys: set<K>, m: map<K, V>) {
    && (forall i, j :: 0 <= i < j < |visited| ==> visited[i].0 != visited[j].0)
    && (forall p <- visited :: p.0 in m && m[p.0] == p.1)
    && FirstOf(visited) == keys
  }

  ghost predicate SaidYes<K, V>(f: seq<(K, V)> -> bool, visited: seq<(K, V)>, j: nat) {
    0 < j <= |visited| ==> f(visited[..j])
  }

  /** f has answered true after each pair. */
  ghost predicate Continued<K, V>(f: seq<(K, V)> -> bool, visited: seq<(K, V)>) {
    forall j: nat :: SaidYes(f, visited, j)
  }

  lemma VisitOne<K, V>(visited: seq<(K, V)>, keys: set<K>, m: map<K, V>, k: K)
    requires Visited(visited, keys, m) && k !in keys && k in m
    ensures Visited(visited + [(k, m[k])], keys + {k}, m)
  {
  }

  lemma ContinueOne<K, V>(f: seq<(K, V)> -> bool, visited: seq<(K, V)>, p: (K, V))
    requires Continued(f, visited)
    ensures (visited + [p])[..|visited|] == visited
    ensures f(visited + [p]) ==> Continued(f, visited + [p])
  {
    var after := visited + [p];
    assert after[..|after|] == after;
    forall j: nat | f(after) ensures SaidYes(f, after, j) {
      assert SaidYes(f, visited, j);
      if j <= |visited| {
        assert after[..j] == visited[..j];
      }
    }
  }
}
