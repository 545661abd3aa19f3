/**
 The recency list of the LRU cache as a value: what one Get or Put does to it, and what a
 whole trace of calls leaves behind. The class in LruCache is proved against these functions.
 */
module LruSpec {
  import opened Prelude

  datatype Pair<K, V> = Pair(key: K, value: V)

  datatype Op<K, V> = Get(key: K) | Put(key: K, value: V)

  /** A capacity of zero or less still keeps the entry that was just inserted. */
  function Limit(capacity: int): (n: nat)
  {
    if capacity < 1 then 1 else capacity
  }

  function Keys<K, V>(s: seq<Pair<K, V>>): (ks: seq<K>)
    ensures |ks| == |s| && forall i :: 0 <= i < |s| ==> ks[i] == s[i].key
  {
    seq(|s|, i requires 0 <= i < |s| => s[i].key)
  }

  /** The list without the entries of key `k`. */
  ghost function Without<K, V>(s: seq<Pair<K, V>>, k: K): seq<Pair<K, V>> {
    if s == [] then []
    else (if s[0].key == k then [] else [s[0]]) + Without(s[1..], k)
  }

  ghost function Find<K, V>(s: seq<Pair<K, V>>, k: K): Option<V> {
    if s == [] then None
    else if s[0].key == k then Some(s[0].value)
    else Find(s[1..], k)
  }

  /** What Get leaves: a hit moves to the front, a miss changes nothing. */
  ghost function AfterGet<K, V>(s: seq<Pair<K, V>>, k: K): seq<Pair<K, V>> {
    match Find(s, k)
    case None => s
    case Some(v) => [Pair(k, v)] + Without(s, k)
  }

  /** What Put leaves: the key in front with its new value, and a full list loses its back. */
  ghost function AfterPut<K, V>(capacity: int, s: seq<Pair<K, V>>, k: K, v: V): seq<Pair<K, V>> {
    if Find(s, k).Some? then [Pair(k, v)] + Without(s, k)
    else [Pair(k, v)] + (if |s| >= Limit(capacity) then s[..|s| - 1] else s)
  }

  ghost function After<K, V>(capacity: int, s: seq<Pair<K, V>>, op: Op<K, V>): seq<Pair<K, V>> {
    match op
    case Get(k) => AfterGet(s, k)
    case Put(k, v) => AfterPut(capacity, s, k, v)
  }

  /** The recency list a cache of this capacity holds after a trace, oldest call first. */
  ghost function Run<K, V>(capacity: int, trace: seq<Op<K, V>>): seq<Pair<K, V>> {
    if trace == [] then []
    else After(capacity, Run(capacity, trace[..|trace| - 1]), trace[|trace| - 1])
  }

  // ---- Find and Without

  lemma {:induction false} FindLocates<K, V>(s: seq<Pair<K, V>>, k: K)
    ensures Find(s, k).Some? <==> k in Keys(s)
    ensures Find(s, k).Some? ==> Pair(k, Find(s, k).value) in s
  {
    if s != [] {
      FindLocates(s[1..], k);
    }
  }

  lemma {:induction false} FindUnique<K, V>(s: seq<Pair<K, V>>, p: Pair<K, V>)
    requires p in s && Distinct(Keys(s))
    ensures Find(s, p.key) == Some(p.value)
  {
    assert Keys(s)[0] == s[0].key;
    if s[0] != p {
      var i :| 0 <= i < |s| && s[i] == p;
      assert Keys(s)[i] == p.key;
      assert p == s[1..][i - 1];
      forall a, b | 0 <= a < b < |s[1..]| ensures Keys(s[1..])[a] != Keys(s[1..])[b] {
        assert Keys(s)[a + 1] != Keys(s)[b + 1];
      }
      FindUnique(s[1..], p);
    }
  }

  lemma {:induction false} WithoutMembers<K, V>(s: seq<Pair<K, V>>, k: K)
    ensures forall p :: p in Without(s, k) <==> p in s && p.key != k
  {
    if s != [] {
      WithoutMembers(s[1..], k);
      assert s == [s[0]] + s[1..];
    }
  }

  lemma {:induction false} WithoutAbsent<K, V>(s: seq<Pair<K, V>>, k: K)
    requires k !in Keys(s)
    ensures Without(s, k) == s
  {
    if s != [] {
      assert Keys(s) == [s[0].key] + Keys(s[1..]);
      WithoutAbsent(s[1..], k);
    }
  }

  /** Cutting out the one position that holds `k` is what Without does. */
  lemma {:induction false} WithoutAt<K, V>(s: seq<Pair<K, V>>, i: nat)
    requires i < |s| && Distinct(Keys(s))
    ensures Without(s, s[i].key) == s[..i] + s[i + 1..]
  {
    var k := s[i].key;
    assert Keys(s)[i] == k;
    forall a, b | 0 <= a < b < |s[1..]| ensures Keys(s[1..])[a] != Keys(s[1..])[b] {
      assert Keys(s)[a + 1] != Keys(s)[b + 1];
    }
    if i == 0 {
      forall j | 0 <= j < |s| - 1 ensures Keys(s[1..])[j] != k {
        assert Keys(s)[j + 1] != Keys(s)[0];
      }
      WithoutAbsent(s[1..], k);
    } else {
      assert Keys(s)[0] != Keys(s)[i];
      WithoutAt(s[1..], i - 1);
      assert s[..i] + s[i + 1..] == [s[0]] + (s[1..][..i - 1] + s[1..][i..]);
    }
  }

  // ---- the recency list is cut from the log of Puts and hitting Gets

  ghost function Drop<T>(s: seq<T>, x: T): seq<T> {
    if s == [] then [] else (if s[0] == x then [] else [s[0]]) + Drop(s[1..], x)
  }

  /** The elements of `s` in the order of their first occurrence. */
  ghost function FirstOccurrences<T>(s: seq<T>): seq<T> {
    if s == [] then [] else [s[0]] + Drop(FirstOccurrences(s[1..]), s[0])
  }

  ghost function Reverse<T>(s: seq<T>): seq<T> {
    if s == [] then [] else [s[|s| - 1]] + Reverse(s[..|s| - 1])
  }

  ghost function Take<T>(n: nat, s: seq<T>): seq<T> {
    if |s| <= n then s else s[..n]
  }

  /** The keys that a log of accesses says a cache of this capacity should hold. */
  ghost function MostRecent<K>(capacity: int, log: seq<K>): seq<K> {
    Take(Limit(capacity), FirstOccurrences(Reverse(log)))
  }

  /** The accesses that count: every Put, and a Get whose key is still among the most recent. */
  ghost function Log<K, V>(capacity: int, trace: seq<Op<K, V>>): seq<K> {
    if trace == [] then []
    else
      var before := Log(capacity, trace[..|trace| - 1]);
      match trace[|trace| - 1]
      case Put(k, _) => before + [k]
      case Get(k) => if k in MostRecent(capacity, before) then before + [k] else before
  }

  ghost function LatestPut<K, V>(trace: seq<Op<K, V>>, k: K): Option<V> {
    if trace == [] then None
    else
      match trace[|trace| - 1]
      case Put(k', v) => if k' == k then Some(v) else LatestPut(trace[..|trace| - 1], k)
      case Get(_) => LatestPut(trace[..|trace| - 1], k)
  }

  lemma {:induction false} DropMembers<T>(s: seq<T>, x: T)
    ensures forall y :: y in Drop(s, x) <==> y in s && y != x
    ensures Distinct(s) ==> Distinct(Drop(s, x))
  {
    if s != [] {
      DropMembers(s[1..], x);
      DistinctCons(s);
      if s[0] != x {
        DistinctCons(Drop(s, x));
      }
      assert s == [s[0]] + s[1..];
    }
  }

  lemma {:induction false} FirstOccurrencesDistinct<T>(s: seq<T>)
    ensures Distinct(FirstOccurrences(s))
  {
    if s != [] {
      FirstOccurrencesDistinct(s[1..]);
      DropMembers(FirstOccurrences(s[1..]), s[0]);
      DistinctCons(FirstOccurrences(s));
    }
  }

  lemma {:induction false} KeysWithout<K, V>(s: seq<Pair<K, V>>, k: K)
    ensures Keys(Without(s, k)) == Drop(Keys(s), k)
  {
    if s != [] {
      KeysWithout(s[1..], k);
      assert Keys(s)[1..] == Keys(s[1..]);
      assert Keys(Without(s, k)) == (if s[0].key == k then [] else [s[0].key]) + Keys(Without(s[1..], k));
    }
  }

  /** Dropping an element commutes with taking a prefix: the prefix shrinks iff it held it. */
  lemma {:induction false} DropTake<T>(n: nat, s: seq<T>, x: T)
    requires Distinct(s)
    ensures x in Take(n + 1, s) ==> Drop(Take(n + 1, s), x) == Take(n, Drop(s, x))
    ensures x !in Take(n + 1, s) ==> Take(n, s) == Take(n, Drop(s, x))
  {
    if s != [] {
      var y, t := s[0], s[1..];
      DistinctCons(s);
      assert s == [y] + t;
      if y == x {
        DropTakeFront(n, y, t);
      } else if n > 0 {
        DropTake(n - 1, t, x);
        DropTakeLater(n, y, t, x);
      } else {
        TakeCons(1, y, t);
        DropCons(y, Take(0, t), x);
      }
    }
  }

  lemma DropTakeFront<T>(n: nat, y: T, t: seq<T>)
    requires y !in t
    ensures Drop(Take(n + 1, [y] + t), y) == Take(n, Drop([y] + t, y))
    ensures y in Take(n + 1, [y] + t)
  {
    TakeCons(n + 1, y, t);
    DropCons(y, t, y);
    DropCons(y, Take(n, t), y);
    DropAbsent(t, y);
    DropAbsent(Take(n, t), y);
  }

  lemma DropTakeLater<T>(n: nat, y: T, t: seq<T>, x: T)
    requires n > 0 && y != x
    requires x in Take(n, t) ==> Drop(Take(n, t), x) == Take(n - 1, Drop(t, x))
    requires x !in Take(n, t) ==> Take(n - 1, t) == Take(n - 1, Drop(t, x))
    ensures var s := [y] + t;
      && (x in Take(n + 1, s) ==> Drop(Take(n + 1, s), x) == Take(n, Drop(s, x)))
      && (x !in Take(n + 1, s) ==> Take(n, s) == Take(n, Drop(s, x)))
  {
    TakeCons(n + 1, y, t);
    TakeCons(n, y, t);
    DropCons(y, t, x);
    TakeCons(n, y, Drop(t, x));
    DropCons(y, Take(n, t), x);
  }

  lemma TakeCons<T>(n: nat, y: T, t: seq<T>)
    requires n > 0
    ensures Take(n, [y] + t) == [y] + Take(n - 1, t)
  {
  }

  lemma DropCons<T>(y: T, t: seq<T>, x: T)
    ensures Drop([y] + t, x) == (if y == x then [] else [y]) + Drop(t, x)
  {
  }

  lemma {:induction false} DropAbsent<T>(s: seq<T>, x: T)
    ensures x !in s ==> Drop(s, x) == s
  {
    if s != [] {
      DropAbsent(s[1..], x);
      assert s == [s[0]] + s[1..];
    }
  }

  /** One access of `k`, seen in the log and in the list of keys. */
  lemma AccessStep<K>(capacity: int, log: seq<K>, k: K)
    ensures k in MostRecent(capacity, log) ==>
      MostRecent(capacity, log + [k]) == [k] + Drop(MostRecent(capacity, log), k)
    ensures k !in MostRecent(capacity, log) ==>
      MostRecent(capacity, log + [k]) == [k] + Take(Limit(capacity) - 1, MostRecent(capacity, log))
  {
    var recent := FirstOccurrences(Reverse(log));
    assert (log + [k])[..|log|] == log;
    assert Reverse(log + [k]) == [k] + Reverse(log);
    assert FirstOccurrences(Reverse(log + [k])) == [k] + Drop(recent, k);
    FirstOccurrencesDistinct(Reverse(log));
    DropTake(Limit(capacity) - 1, recent, k);
    assert MostRecent(capacity, log + [k]) == [k] + Take(Limit(capacity) - 1, Drop(recent, k));
    assert Take(Limit(capacity) - 1, Take(Limit(capacity), recent)) == Take(Limit(capacity) - 1, recent);
  }

  lemma KeysAfter<K, V>(capacity: int, s: seq<Pair<K, V>>, op: Op<K, V>)
    requires |s| <= Limit(capacity)
    ensures Keys(After(capacity, s, op)) ==
      if op.key in Keys(s) then [op.key] + Drop(Keys(s), op.key)
      else if op.Put? then [op.key] + Take(Limit(capacity) - 1, Keys(s))
      else Keys(s)
  {
    FindLocates(s, op.key);
    if op.key in Keys(s) {
      KeysWithout(s, op.key);
      var v := if op.Put? then op.value else Find(s, op.key).value;
    } else if op.Put? {
      var kept := if |s| >= Limit(capacity) then s[..|s| - 1] else s;
    }
  }

  /** What a step keeps of the list it found, besides the entry in front. */
  lemma MembersAfter<K, V>(capacity: int, s: seq<Pair<K, V>>, op: Op<K, V>, p: Pair<K, V>)
    requires Distinct(Keys(s)) && p in After(capacity, s, op)
    ensures if op.Put? && p.key == op.key then p.value == op.value else p in s
  {
    FindLocates(s, op.key);
    WithoutMembers(s, op.key);
    if p in s {
      FindUnique(s, p);
      var i :| 0 <= i < |s| && s[i] == p;
      assert Keys(s)[i] == p.key;
    }
  }

  lemma RunValues<K, V>(capacity: int, trace: seq<Op<K, V>>)
    requires trace != []
    requires var earlier := trace[..|trace| - 1];
      && Distinct(Keys(Run(capacity, earlier)))
      && forall p :: p in Run(capacity, earlier) ==> LatestPut(earlier, p.key) == Some(p.value)
    ensures forall p :: p in Run(capacity, trace) ==> LatestPut(trace, p.key) == Some(p.value)
  {
    var earlier, op := trace[..|trace| - 1], trace[|trace| - 1];
    var s := Run(capacity, earlier);
    FindLocates(s, op.key);
    forall p | p in Run(capacity, trace) ensures LatestPut(trace, p.key) == Some(p.value) {
      MembersAfter(capacity, s, op, p);
    }
  }

  /**
   After any trace the keys are exactly the first Limit(capacity) distinct keys of the reversed
   access log, each carries the value of its latest Put, and the list stays within its limit.
   */
  lemma {:induction false} RunSpecification<K, V>(capacity: int, trace: seq<Op<K, V>>)
    ensures Keys(Run(capacity, trace)) == MostRecent(capacity, Log(capacity, trace))
    ensures Distinct(Keys(Run(capacity, trace)))
    ensures |Run(capacity, trace)| <= Limit(capacity)
    ensures forall p :: p in Run(capacity, trace) ==> LatestPut(trace, p.key) == Some(p.value)
  {
    if trace != [] {
      var earlier := trace[..|trace| - 1];
      RunSpecification(capacity, earlier);
      KeysAfter(capacity, Run(capacity, earlier), trace[|trace| - 1]);
      AccessStep(capacity, Log(capacity, earlier), trace[|trace| - 1].key);
      RunValues(capacity, trace);
    }
    MostRecentDistinct(capacity, Log(capacity, trace));
  }

  lemma MostRecentDistinct<K>(capacity: int, log: seq<K>)
    ensures Distinct(MostRecent(capacity, log)) && |MostRecent(capacity, log)| <= Limit(capacity)
  {
    FirstOccurrencesDistinct(Reverse(log));
  }

  // ---- size and hits, counted in keys

  ghost function Elements<T>(s: seq<T>): set<T> {
    set x | x in s
  }

  ghost function Least(a: int, b: int): int {
    if a < b then a else b
  }

  /** The keys ever put. */
  ghost function PutKeys<K, V>(trace: seq<Op<K, V>>): set<K> {
    set i | 0 <= i < |trace| && trace[i].Put? :: trace[i].key
  }

  lemma {:induction false} FirstOccurrencesMembers<T>(s: seq<T>)
    ensures forall x :: x in FirstOccurrences(s) <==> x in s
  {
    if s != [] {
      FirstOccurrencesMembers(s[1..]);
      DropMembers(FirstOccurrences(s[1..]), s[0]);
      assert s == [s[0]] + s[1..];
    }
  }

  lemma {:induction false} ReverseMembers<T>(s: seq<T>)
    ensures forall x :: x in Reverse(s) <==> x in s
  {
    if s != [] {
      ReverseMembers(s[..|s| - 1]);
      assert s == s[..|s| - 1] + [s[|s| - 1]];
    }
  }

  lemma {:induction false} DistinctSize<T>(s: seq<T>)
    requires Distinct(s)
    ensures |Elements(s)| == |s|
  {
    if s != [] {
      var before, last := s[..|s| - 1], s[|s| - 1];
      DistinctSize(before);
      assert s == before + [last];
      assert last !in before;
      assert Elements(s) == Elements(before) + {last};
    }
  }

  /** As many first occurrences as elements. */
  lemma FirstOccurrencesSize<T>(s: seq<T>)
    ensures |FirstOccurrences(s)| == |Elements(s)|
  {
    FirstOccurrencesDistinct(s);
    DistinctSize(FirstOccurrences(s));
    FirstOccurrencesMembers(s);
    assert Elements(FirstOccurrences(s)) == Elements(s);
  }

  lemma MostRecentLogged<K>(capacity: int, log: seq<K>, k: K)
    ensures k in MostRecent(capacity, log) ==> k in log
  {
    FirstOccurrencesMembers(Reverse(log));
    ReverseMembers(log);
  }

  /** The log is about the keys that were put, all of them and no others. */
  lemma {:induction false} LogKeys<K, V>(capacity: int, trace: seq<Op<K, V>>)
    ensures Elements(Log(capacity, trace)) == PutKeys(trace)
  {
    if trace != [] {
      var earlier, op := trace[..|trace| - 1], trace[|trace| - 1];
      LogKeys(capacity, earlier);
      PutKeysLast(trace);
      MostRecentLogged(capacity, Log(capacity, earlier), op.key);
    }
  }

  lemma PutKeysLast<K, V>(trace: seq<Op<K, V>>)
    requires trace != []
    ensures var op := trace[|trace| - 1];
      PutKeys(trace) == PutKeys(trace[..|trace| - 1]) + (if op.Put? then {op.key} else {})
  {
  }

  /**
   The size after any trace: the number of keys ever put, but no more than the capacity, where one
   below 1 counts as 1.
   */
  lemma SizeExactly<K, V>(capacity: int, trace: seq<Op<K, V>>)
    ensures |Run(capacity, trace)| == Least(|PutKeys(trace)|, if capacity < 1 then 1 else capacity)
  {
    var log := Log(capacity, trace);
    RunSpecification(capacity, trace);
    LogKeys(capacity, trace);
    FirstOccurrencesSize(Reverse(log));
    ReverseMembers(log);
    assert Elements(Reverse(log)) == Elements(log);
  }

  /** Putting an absent key loses nothing while there is room, and then the back entry and no other. */
  lemma PutEvicts<K, V>(capacity: int, s: seq<Pair<K, V>>, k: K, v: V)
    ensures Find(s, k) == None && (|s| < capacity || s == []) ==> AfterPut(capacity, s, k, v) == [Pair(k, v)] + s
    ensures Find(s, k) == None && |s| >= capacity && s != [] ==>
      AfterPut(capacity, s, k, v) == [Pair(k, v)] + s[..|s| - 1]
  {
  }

  lemma {:induction false} DropAppend<T>(a: seq<T>, b: seq<T>, x: T)
    ensures Drop(a + b, x) == Drop(a, x) + Drop(b, x)
  {
    if a == [] {
      assert a + b == b;
    } else {
      var y, t := a[0], a[1..];
      DropAppend(t, b, x);
      Regrouped([y], t, b);
      DropCons(y, t + b, x);
      Regrouped(if y == x then [] else [y], Drop(t, x), Drop(b, x));
      assert a == [y] + t;
    }
  }

  lemma Regrouped<T>(a: seq<T>, b: seq<T>, c: seq<T>)
    ensures a + b + c == a + (b + c)
  {
  }

  /** The first occurrences of `a` come first, and right after them an element that is new. */
  lemma {:induction false} FirstOccurrencesAppend<T>(a: seq<T>, x: T, b: seq<T>) returns (rest: seq<T>)
    requires x !in a
    ensures FirstOccurrences(a + ([x] + b)) == FirstOccurrences(a) + ([x] + rest)
  {
    if a == [] {
      assert a + ([x] + b) == [x] + b && ([x] + b)[1..] == b;
      rest := Drop(FirstOccurrences(b), x);
    } else {
      var y := a[0];
      var before := FirstOccurrencesAppend(a[1..], x, b);
      assert (a + ([x] + b))[1..] == a[1..] + ([x] + b);
      DropAppend(FirstOccurrences(a[1..]), [x] + before, y);
      DropCons(x, before, y);
      rest := Drop(before, y);
    }
  }

  lemma {:induction false} ReverseAppend<T>(a: seq<T>, b: seq<T>)
    ensures Reverse(a + b) == Reverse(b) + Reverse(a)
  {
    if b == [] {
      assert a + b == a;
    } else {
      var last := b[|b| - 1];
      ReverseAppend(a, b[..|b| - 1]);
      assert (a + b)[..|a + b| - 1] == a + b[..|b| - 1];
      assert [last] + (Reverse(b[..|b| - 1]) + Reverse(a)) == Reverse(b) + Reverse(a);
    }
  }

  /** A key is among the most recent exactly if fewer other keys than the capacity came after it. */
  lemma RecencyRule<K>(capacity: int, before: seq<K>, k: K, after: seq<K>)
    requires k !in after
    ensures k in MostRecent(capacity, before + [k] + after) <==>
      |Elements(after)| < if capacity < 1 then 1 else capacity
  {
    ReverseAppend(before + [k], after);
    ReverseAppend(before, [k]);
    assert Reverse([k]) == [k] by {
      assert [k][..0] == [];
    }
    var a, b := Reverse(after), Reverse(before);
    ReverseMembers(after);
    assert Elements(a) == Elements(after);
    var rest := FirstOccurrencesAppend(a, k, b);
    FirstOccurrencesSize(a);
    FirstOccurrencesDistinct(Reverse(before + [k] + after));
    AtPlace(FirstOccurrences(a), k, rest, Limit(capacity));
  }

  lemma AtPlace<T>(a: seq<T>, x: T, b: seq<T>, n: nat)
    requires Distinct(a + ([x] + b))
    ensures x in Take(n, a + ([x] + b)) <==> |a| < n
  {
    var s := a + ([x] + b);
    assert s[|a|] == x;
    if |a| < n {
      assert Take(n, s)[|a|] == x;
    }
  }

  /**
   What Get answers after any trace, for a key that was put: its latest value if fewer other keys than
   the capacity were put or hit since it last was, and nothing otherwise.
   */
  lemma HitRule<K, V>(capacity: int, trace: seq<Op<K, V>>, before: seq<K>, k: K, after: seq<K>)
    requires Log(capacity, trace) == before + [k] + after && k !in after
    ensures Find(Run(capacity, trace), k) ==
      if |Elements(after)| < if capacity < 1 then 1 else capacity then LatestPut(trace, k) else None
  {
    RecencyRule(capacity, before, k, after);
    RunSpecification(capacity, trace);
    FindLocates(Run(capacity, trace), k);
  }

  /** What the log counts: every Put, and exactly the Gets that found their key. */
  lemma LogCountsHits<K, V>(capacity: int, trace: seq<Op<K, V>>, op: Op<K, V>)
    ensures Log(capacity, trace + [op]) ==
      Log(capacity, trace) + (if op.Put? || Find(Run(capacity, trace), op.key).Some? then [op.key] else [])
  {
    assert (trace + [op])[..|trace|] == trace;
    RunSpecification(capacity, trace);
    FindLocates(Run(capacity, trace), op.key);
  }

  /** A key that was never put is not found. */
  lemma MissRule<K, V>(capacity: int, trace: seq<Op<K, V>>, k: K)
    requires k !in PutKeys(trace)
    ensures Find(Run(capacity, trace), k) == None
  {
    LogKeys(capacity, trace);
    RunSpecification(capacity, trace);
    FindLocates(Run(capacity, trace), k);
    assert k !in Elements(Log(capacity, trace));
    MostRecentLogged(capacity, Log(capacity, trace), k);
  }

  // ---- inclusion between capacities

  /** `a` is obtained from `b` by leaving elements out. */
  ghost predicate Subsequence<T>(a: seq<T>, b: seq<T>) {
    a == [] || (b != [] && ((a[0] == b[0] && Subsequence(a[1..], b[1..])) || Subsequence(a, b[1..])))
  }

  lemma {:induction false} SubsequenceMembers<T>(a: seq<T>, b: seq<T>, x: T)
    requires Subsequence(a, b) && x in a
    ensures x in b
  {
    if a[0] == b[0] && Subsequence(a[1..], b[1..]) {
      if x != a[0] {
        SubsequenceMembers(a[1..], b[1..], x);
      }
    } else {
      SubsequenceMembers(a, b[1..], x);
    }
  }

  lemma {:induction false} SubsequenceReflexive<T>(a: seq<T>)
    ensures Subsequence(a, a)
  {
    if a != [] {
      SubsequenceReflexive(a[1..]);
    }
  }

  lemma {:induction false} SubsequenceWithout<K, V>(a: seq<Pair<K, V>>, b: seq<Pair<K, V>>, k: K)
    requires Subsequence(a, b)
    ensures Subsequence(Without(a, k), Without(b, k))
  {
    if a != [] {
      if a[0] == b[0] && Subsequence(a[1..], b[1..]) {
        SubsequenceWithout(a[1..], b[1..], k);
        if a[0].key != k {
          assert Without(a, k)[1..] == Without(a[1..], k);
          assert Without(b, k)[1..] == Without(b[1..], k);
        } else {
          assert Without(a, k) == Without(a[1..], k);
          assert Without(b, k) == Without(b[1..], k);
        }
      } else {
        SubsequenceWithout(a, b[1..], k);
        if b[0].key != k {
          assert Without(b, k)[1..] == Without(b[1..], k);
        } else {
          assert Without(b, k) == Without(b[1..], k);
        }
      }
    }
  }

  /** The shorter list may lose its back, and so may both at once. */
  lemma {:induction false} SubsequenceDropBack<T>(a: seq<T>, b: seq<T>)
    requires Subsequence(a, b) && a != []
    ensures Subsequence(a[..|a| - 1], b)
    ensures Subsequence(a[..|a| - 1], b[..|b| - 1])
  {
    var a' := a[..|a| - 1];
    var b' := b[..|b| - 1];
    if a' != [] {
      if a[0] == b[0] && Subsequence(a[1..], b[1..]) {
        SubsequenceDropBack(a[1..], b[1..]);
        assert a'[1..] == a[1..][..|a| - 2];
        assert b'[1..] == b[1..][..|b| - 2];
      } else {
        SubsequenceDropBack(a, b[1..]);
        assert b'[1..] == b[1..][..|b| - 2];
      }
    }
  }

  /** The relation the two caches keep: while the smaller one has room, they are equal. */
  ghost predicate Included<K, V>(c: int, small: seq<Pair<K, V>>, large: seq<Pair<K, V>>) {
    && Subsequence(small, large)
    && (|small| < Limit(c) ==> small == large)
  }

  lemma HitsAgree<K, V>(small: seq<Pair<K, V>>, large: seq<Pair<K, V>>, k: K)
    requires Subsequence(small, large) && Distinct(Keys(large)) && Find(small, k).Some?
    ensures Find(large, k) == Find(small, k)
  {
    var p := Pair(k, Find(small, k).value);
    FindLocates(small, k);
    SubsequenceMembers(small, large, p);
    FindUnique(large, p);
  }

  lemma WithoutShorter<K, V>(s: seq<Pair<K, V>>, k: K)
    requires Distinct(Keys(s)) && Find(s, k).Some?
    ensures |Without(s, k)| == |s| - 1
  {
    FindLocates(s, k);
    var i :| 0 <= i < |s| && Keys(s)[i] == k;
    WithoutAt(s, i);
  }

  lemma InclusionStep<K, V>(c: int, d: int, small: seq<Pair<K, V>>, large: seq<Pair<K, V>>, op: Op<K, V>)
    requires c <= d && Included(c, small, large)
    requires Distinct(Keys(small)) && Distinct(Keys(large)) && |small| <= Limit(c)
    ensures Included(c, After(c, small, op), After(d, large, op))
  {
    var k := op.key;
    SubsequenceWithout(small, large, k);
    if Find(small, k).Some? {
      HitsAgree(small, large, k);
      WithoutShorter(small, k);
      var v := if op.Put? then op.value else Find(small, k).value;
    } else {
      FindLocates(small, k);
      WithoutAbsent(small, k);
      match op
      case Get(_) =>
        if Find(large, k).Some? {
          assert |small| >= Limit(c);
          var p := Pair(k, Find(large, k).value);
          var moved := [p] + Without(large, k);
          assert moved[1..] == Without(large, k);
        }
      case Put(_, v) =>
        if |small| < Limit(c) {
          SubsequenceReflexive(After(c, small, op));
        } else {
          var rest := if Find(large, k).Some? then Without(large, k)
                      else if |large| >= Limit(d) then large[..|large| - 1]
                      else large;
          SubsequenceDropBack(small, large);
          SubsequenceDropBack(small, Without(large, k));
        }
    }
  }

  /**
   LRU inclusion: after any trace the smaller cache's recency list is a subsequence of the larger
   one's, so every key the smaller one finds the larger one finds with the same value.
   */
  lemma {:induction false} Inclusion<K, V>(c: int, d: int, trace: seq<Op<K, V>>)
    requires c <= d
    ensures Included(c, Run(c, trace), Run(d, trace))
    ensures forall k :: Find(Run(c, trace), k).Some? ==> Find(Run(d, trace), k) == Find(Run(c, trace), k)
  {
    if trace != [] {
      var earlier := trace[..|trace| - 1];
      Inclusion(c, d, earlier);
      RunSpecification(c, earlier);
      RunSpecification(d, earlier);
      InclusionStep(c, d, Run(c, earlier), Run(d, earlier), trace[|trace| - 1]);
    }
    RunSpecification(d, trace);
    forall k | Find(Run(c, trace), k).Some? ensures Find(Run(d, trace), k) == Find(Run(c, trace), k) {
      HitsAgree(Run(c, trace), Run(d, trace), k);
    }
  }
}
