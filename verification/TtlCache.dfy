/**
 The TTL cache as a map, next to a reference map that never purges anything. Both are run on the
 same calls; a call is atomic, except that the deletion at the end of a Get that found its entry
 expired may also come later, as a separate LateDelete. Times are clock readings.
 */
module TtlSpec {
  import opened Prelude

  datatype Item<V> = Item(value: V, expiresAt: int)

  datatype Op<K, V> =
    | Set(key: K, value: V, ttl: int)
    | Get(key: K)
    | Look(key: K)         // a Get whose deletion, if it needs one, is still to come
    | LateDelete(key: K)   // the deletion of an earlier Look that found its entry expired
    | Delete(key: K)
    | Len
    | Tick                 // one round of the cleanup goroutine

  datatype Timed<K, V> = Timed(op: Op<K, V>, now: int)

  datatype Answer<V> = Found(value: Option<V>) | Size(n: nat) | Nothing

  /** Get and the cleanup call an entry expired only after its time, at that time it is still there. */
  ghost predicate Expired<V>(item: Item<V>, now: int) {
    now > item.expiresAt
  }

  /** Len counts an entry only before its time. */
  ghost predicate Counted<V>(item: Item<V>, now: int) {
    now < item.expiresAt
  }

  ghost function Live<K, V>(m: map<K, Item<V>>, k: K, now: int): Option<V> {
    if k in m && !Expired(m[k], now) then Some(m[k].value) else None
  }

  ghost function CountedKeys<K, V>(m: map<K, Item<V>>, now: int): set<K> {
    set k | k in m && Counted(m[k], now)
  }

  ghost function Purged<K, V>(m: map<K, Item<V>>, now: int): map<K, Item<V>> {
    map k | k in m && !Expired(m[k], now) :: m[k]
  }

  ghost function AnswerOf<K, V>(m: map<K, Item<V>>, t: Timed<K, V>): Answer<V> {
    match t.op
    case Get(k) => Found(Live(m, k, t.now))
    case Look(k) => Found(Live(m, k, t.now))
    case Len => Size(|CountedKeys(m, t.now)|)
    case _ => Nothing
  }

  /** What a call does to the items of the cache. */
  ghost function CacheNext<K, V>(m: map<K, Item<V>>, t: Timed<K, V>): map<K, Item<V>> {
    match t.op
    case Set(k, v, ttl) => m[k := Item(v, t.now + ttl)]
    case Get(k) => if k in m && Expired(m[k], t.now) then m - {k} else m
    case Look(_) => m
    case LateDelete(k) => m - {k}
    case Delete(k) => m - {k}
    case Len => m
    case Tick => Purged(m, t.now)
  }

  /** What it does to a map that never purges: only Set and Delete change it. */
  ghost function PlainNext<K, V>(m: map<K, Item<V>>, t: Timed<K, V>): map<K, Item<V>> {
    match t.op
    case Set(k, v, ttl) => m[k := Item(v, t.now + ttl)]
    case Delete(k) => m - {k}
    case _ => m
  }

  ghost function CacheAfter<K, V>(ops: seq<Timed<K, V>>): map<K, Item<V>> {
    if ops == [] then map[] else CacheNext(CacheAfter(ops[..|ops| - 1]), ops[|ops| - 1])
  }

  ghost function PlainAfter<K, V>(ops: seq<Timed<K, V>>): map<K, Item<V>> {
    if ops == [] then map[] else PlainNext(PlainAfter(ops[..|ops| - 1]), ops[|ops| - 1])
  }

  /** Calls whose answer a user sees; the cleanup and a late deletion answer nobody. */
  ghost predicate Internal<K, V>(t: Timed<K, V>) {
    t.op.Tick? || t.op.LateDelete?
  }

  ghost function CacheAnswers<K, V>(ops: seq<Timed<K, V>>): seq<Answer<V>> {
    if ops == [] then []
    else
      var before, t := ops[..|ops| - 1], ops[|ops| - 1];
      CacheAnswers(before) + (if Internal(t) then [] else [AnswerOf(CacheAfter(before), t)])
  }

  ghost function PlainAnswers<K, V>(ops: seq<Timed<K, V>>): seq<Answer<V>> {
    if ops == [] then []
    else
      var before, t := ops[..|ops| - 1], ops[|ops| - 1];
      PlainAnswers(before) + (if Internal(t) then [] else [AnswerOf(PlainAfter(before), t)])
  }

  ghost function UserCalls<K, V>(ops: seq<Timed<K, V>>): seq<Timed<K, V>> {
    if ops == [] then []
    else
      var before, t := ops[..|ops| - 1], ops[|ops| - 1];
      UserCalls(before) + (if Internal(t) then [] else [t])
  }

  ghost predicate Ordered<K, V>(ops: seq<Timed<K, V>>) {
    forall i, j :: 0 <= i < j < |ops| ==> ops[i].now <= ops[j].now
  }

  /** A late deletion does no harm exactly when a plain map would not find the key alive. */
  ghost predicate Harmless<K, V>(before: seq<Timed<K, V>>, t: Timed<K, V>) {
    t.op.LateDelete? ==> Live(PlainAfter(before), t.op.key, t.now) == None
  }

  ghost predicate AllHarmless<K, V>(ops: seq<Timed<K, V>>) {
    ops == [] || (AllHarmless(ops[..|ops| - 1]) && Harmless(ops[..|ops| - 1], ops[|ops| - 1]))
  }

  /** The cache holds what the plain map holds, but for entries that have expired by now. */
  ghost predicate Agree<K, V>(c: map<K, Item<V>>, p: map<K, Item<V>>, now: int) {
    && (forall k <- c :: k in p && c[k] == p[k])
    && (forall k <- p :: k !in c ==> Expired(p[k], now))
  }

  lemma AgreeAnswers<K, V>(c: map<K, Item<V>>, p: map<K, Item<V>>, now: int, t: Timed<K, V>)
    requires Agree(c, p, now) && now <= t.now
    ensures AnswerOf(c, t) == AnswerOf(p, t)
  {
    assert CountedKeys(c, t.now) == CountedKeys(p, t.now);
  }

  lemma AgreeStep<K, V>(c: map<K, Item<V>>, p: map<K, Item<V>>, now: int, t: Timed<K, V>)
    requires Agree(c, p, now) && now <= t.now
    requires t.op.LateDelete? ==> Live(p, t.op.key, t.now) == None
    ensures Agree(CacheNext(c, t), PlainNext(p, t), t.now)
  {
  }

  /**
   The cache refines a map that never purges: in any run with an ordered clock and harmless late
   deletions, every Get and every Len answers as the plain map does.
   */
  lemma {:induction false} RefinesPlain<K, V>(ops: seq<Timed<K, V>>)
    requires Ordered(ops) && AllHarmless(ops)
    ensures CacheAnswers(ops) == PlainAnswers(ops)
    ensures ops != [] ==> Agree(CacheAfter(ops), PlainAfter(ops), ops[|ops| - 1].now)
  {
    if ops != [] {
      var before, t := ops[..|ops| - 1], ops[|ops| - 1];
      RefinesPlain(before);
      var now := if before == [] then t.now else before[|before| - 1].now;
      AgreeAnswers(CacheAfter(before), PlainAfter(before), now, t);
      AgreeStep(CacheAfter(before), PlainAfter(before), now, t);
    }
  }

  lemma {:induction false} PlainIgnoresInternal<K, V>(ops: seq<Timed<K, V>>)
    ensures PlainAnswers(ops) == PlainAnswers(UserCalls(ops)) && PlainAfter(ops) == PlainAfter(UserCalls(ops))
  {
    if ops != [] {
      var before, t := ops[..|ops| - 1], ops[|ops| - 1];
      PlainIgnoresInternal(before);
      var u := UserCalls(before);
      if Internal(t) {
        assert UserCalls(ops) == u && PlainAnswers(ops) == PlainAnswers(before);
      } else {
        assert (u + [t])[..|u|] == u;
        assert UserCalls(ops) == u + [t];
      }
    }
  }

  /** Wherever cleanup rounds and late deletions are put, users see the same answers. */
  lemma CleanupInvisible<K, V>(ops: seq<Timed<K, V>>, others: seq<Timed<K, V>>)
    requires Ordered(ops) && AllHarmless(ops) && Ordered(others) && AllHarmless(others)
    requires UserCalls(ops) == UserCalls(others)
    ensures CacheAnswers(ops) == CacheAnswers(others)
  {
    RefinesPlain(ops);
    RefinesPlain(others);
    PlainIgnoresInternal(ops);
    PlainIgnoresInternal(others);
  }

  /** A cleanup round leaves exactly the entries of the plain map that have not expired. */
  lemma CleanupLeavesTheLive<K, V>(ops: seq<Timed<K, V>>, now: int)
    requires Ordered(ops + [Timed(Tick, now)]) && AllHarmless(ops)
    ensures CacheAfter(ops + [Timed(Tick, now)]) == Purged(PlainAfter(ops), now)
  {
    var all := ops + [Timed(Tick, now)];
    assert all[..|ops|] == ops;
    assert forall i :: 0 <= i < |ops| ==> all[i] == ops[i];
    assert CacheAfter(all) == Purged(CacheAfter(ops), now);
    RefinesPlain(ops);
    if ops == [] {
      assert Agree<K, V>(map[], map[], now);
    }
    PurgedAgree(CacheAfter(ops), PlainAfter(ops), now);
  }

  lemma PurgedAgree<K, V>(c: map<K, Item<V>>, p: map<K, Item<V>>, now: int)
    requires (forall k <- c :: k in p && c[k] == p[k]) && (forall k <- p :: k !in c ==> Expired(p[k], now))
    ensures Purged(c, now) == Purged(p, now)
  {
  }

  lemma {:induction false} AtomicHarmless<K, V>(ops: seq<Timed<K, V>>)
    requires forall t <- ops :: !t.op.LateDelete?
    ensures AllHarmless(ops)
  {
    if ops != [] {
      AtomicHarmless(ops[..|ops| - 1]);
    }
  }

  // ---- the gap between reading an entry and deleting it

  ghost predicate Writes<K, V>(t: Timed<K, V>, k: K) {
    (t.op.Set? || t.op.Delete?) && t.op.key == k
  }

  /** Event i sets the key, and nothing later sets or deletes it. */
  ghost predicate LastSet<K, V>(ops: seq<Timed<K, V>>, k: K, i: nat) {
    && i < |ops|
    && ops[i].op.Set? && ops[i].op.key == k
    && forall j :: i < j < |ops| ==> !Writes(ops[j], k)
  }

  ghost function Expiry<K, V>(t: Timed<K, V>): int
    requires t.op.Set?
  {
    t.now + t.op.ttl
  }

  /** The same, and the entry has not expired by `now`. */
  ghost predicate FreshSet<K, V>(gap: seq<Timed<K, V>>, k: K, now: int, i: nat) {
    LastSet(gap, k, i) && now <= Expiry(gap[i])
  }

  ghost predicate FreshSetIn<K, V>(gap: seq<Timed<K, V>>, k: K, now: int) {
    exists i: nat :: FreshSet(gap, k, now, i)
  }

  lemma FreshSetAppended<K, V>(gap: seq<Timed<K, V>>, t: Timed<K, V>, k: K, now: int)
    ensures FreshSetIn(gap + [t], k, now) <==>
      if Writes(t, k) then t.op.Set? && now <= t.now + t.op.ttl else FreshSetIn(gap, k, now)
  {
    var all := gap + [t];
    assert all[|gap|] == t;
    if Writes(t, k) {
      if FreshSetIn(all, k, now) {
        var i: nat :| FreshSet(all, k, now, i);
        assert i == |gap|;
      } else {
        assert !FreshSet(all, k, now, |gap|);
      }
    } else {
      if FreshSetIn(gap, k, now) {
        var i: nat :| FreshSet(gap, k, now, i);
        assert FreshSet(all, k, now, i);
      }
      if FreshSetIn(all, k, now) {
        var i: nat :| FreshSet(all, k, now, i);
        assert forall j :: i < j < |gap| ==> all[j] == gap[j];
        assert FreshSet(gap, k, now, i);
      }
    }
  }

  /** A key that was not alive is alive after the gap exactly because of a fresh Set in it. */
  lemma {:induction false} AliveAfterGap<K, V>(before: seq<Timed<K, V>>, gap: seq<Timed<K, V>>, k: K, judged: int, now: int)
    requires Live(PlainAfter(before), k, judged) == None && judged <= now
    ensures Live(PlainAfter(before + gap), k, now).Some? <==> FreshSetIn(gap, k, now)
  {
    if gap == [] {
      assert before + gap == before;
    } else {
      var rest, t := gap[..|gap| - 1], gap[|gap| - 1];
      assert (before + gap)[..|before + gap| - 1] == before + rest;
      assert gap == rest + [t];
      AliveAfterGap(before, rest, k, judged, now);
      FreshSetAppended(rest, t, k, now);
    }
  }

  lemma OrderedPrefix<K, V>(ops: seq<Timed<K, V>>, n: nat)
    requires Ordered(ops) && n <= |ops|
    ensures Ordered(ops[..n])
  {
  }

  /** Reading from the cache and reading from the plain map are the same at any later time. */
  lemma SameReading<K, V>(before: seq<Timed<K, V>>, k: K, now: int)
    requires Ordered(before + [Timed(Get(k), now)]) && AllHarmless(before)
    ensures Live(CacheAfter(before), k, now) == Live(PlainAfter(before), k, now)
  {
    var get: Timed<K, V> := Timed(Get(k), now);
    assert (before + [get])[..|before|] == before && (before + [get])[|before|] == get;
    OrderedPrefix(before + [get], |before|);
    RefinesPlain(before);
    if before != [] {
      assert (before + [get])[|before| - 1] == before[|before| - 1];
      AgreeAnswers(CacheAfter(before), PlainAfter(before), before[|before| - 1].now, get);
    }
  }

  /**
   A Get reads its entry after `before`, finds it expired at time `judged`, and deletes the key after
   the events of `gap`. The deletion does harm, and the very next Get shows it, exactly if the gap
   has a Set of the key whose entry is still alive and neither set again nor deleted.
   */
  lemma GapHarmlessExactly<K, V>(before: seq<Timed<K, V>>, gap: seq<Timed<K, V>>, late: Timed<K, V>, judged: int)
    requires late.op.LateDelete? && judged <= late.now && AllHarmless(before)
    requires Ordered(before + [Timed(Get(late.op.key), judged)])
    requires Live(CacheAfter(before), late.op.key, judged) == None
    ensures Harmless(before + gap, late) <==> !FreshSetIn(gap, late.op.key, late.now)
    ensures var all, get := before + gap + [late], Timed(Get(late.op.key), late.now);
      AnswerOf(CacheAfter(all), get) == AnswerOf(PlainAfter(all), get) <==> !FreshSetIn(gap, late.op.key, late.now)
  {
    SameReading(before, late.op.key, judged);
    AliveAfterGap(before, gap, late.op.key, judged, late.now);
    var all := before + gap + [late];
    assert all[..|all| - 1] == before + gap;
  }

  /** LateDelete j of a run belongs to a Look i of the same key that missed. */
  ghost predicate AfterMissedLook<K, V>(ops: seq<Timed<K, V>>, i: nat, j: nat) {
    && i < j < |ops|
    && ops[j].op.LateDelete? && ops[i].op == Look(ops[j].op.key)
    && Live(CacheAfter(ops[..i]), ops[j].op.key, ops[i].now) == None
  }

  /** Every late deletion of the run comes from a Get that found its entry gone or expired. */
  ghost predicate DeletesAfterLooks<K, V>(ops: seq<Timed<K, V>>) {
    forall j :: 0 <= j < |ops| && ops[j].op.LateDelete? ==> exists i: nat :: AfterMissedLook(ops, i, j)
  }

  /** No fresh Set between a missed Look and its deletion. */
  ghost predicate GapClear<K, V>(ops: seq<Timed<K, V>>, i: nat, j: nat)
    requires AfterMissedLook(ops, i, j)
  {
    !FreshSetIn(ops[i + 1..j], ops[j].op.key, ops[j].now)
  }

  lemma HarmlessAt<K, V>(ops: seq<Timed<K, V>>, i: nat, j: nat)
    requires Ordered(ops) && AfterMissedLook(ops, i, j) && AllHarmless(ops[..i])
    ensures Harmless(ops[..j], ops[j]) <==> GapClear(ops, i, j)
  {
    var k, before, gap := ops[j].op.key, ops[..i], ops[i + 1..j];
    var look := ops[i];
    var get: Timed<K, V> := Timed(Get(k), look.now);
    assert forall a :: 0 <= a < i ==> (before + [get])[a] == ops[a];
    assert Ordered(before + [get]);
    GapHarmlessExactly(before, [look] + gap, ops[j], look.now);
    assert ops[..j] == before + ([look] + gap);
    LookWritesNothing(look, gap, k, ops[j].now);
  }

  lemma LookWritesNothing<K, V>(look: Timed<K, V>, gap: seq<Timed<K, V>>, k: K, now: int)
    requires look.op.Look?
    ensures FreshSetIn([look] + gap, k, now) <==> FreshSetIn(gap, k, now)
  {
    var all := [look] + gap;
    assert forall j :: 0 <= j < |gap| ==> gap[j] == all[j + 1];
    if FreshSetIn(gap, k, now) {
      var i: nat :| FreshSet(gap, k, now, i);
      forall j | i + 1 < j < |all| ensures !Writes(all[j], k) {
        assert !Writes(gap[j - 1], k);
      }
      assert FreshSet(all, k, now, i + 1);
    }
    if FreshSetIn(all, k, now) {
      var i: nat :| FreshSet(all, k, now, i);
      forall j: nat | i <= j < |gap| ensures !Writes(gap[j], k) {
        assert !Writes(all[j + 1], k);
      }
      assert FreshSet(gap, k, now, i - 1);
    }
  }

  lemma {:induction false} AllHarmlessPrefix<K, V>(ops: seq<Timed<K, V>>, n: nat)
    requires AllHarmless(ops) && n <= |ops|
    ensures AllHarmless(ops[..n])
    ensures n < |ops| ==> Harmless(ops[..n], ops[n])
  {
    if n == |ops| {
      assert ops[..n] == ops;
    } else if n < |ops| - 1 {
      var before := ops[..|ops| - 1];
      AllHarmlessPrefix(before, n);
      assert before[..n] == ops[..n];
    }
  }

  lemma {:induction false} ClearGapsHarmless<K, V>(ops: seq<Timed<K, V>>, n: nat)
    requires Ordered(ops) && DeletesAfterLooks(ops) && n <= |ops|
    requires forall i: nat, j: nat :: AfterMissedLook(ops, i, j) ==> GapClear(ops, i, j)
    ensures AllHarmless(ops[..n])
  {
    if n > 0 {
      ClearGapsHarmless(ops, n - 1);
      assert ops[..n][..n - 1] == ops[..n - 1];
      if ops[n - 1].op.LateDelete? {
        var i: nat :| AfterMissedLook(ops, i, n - 1);
        AllHarmlessPrefix(ops[..n - 1], i);
        assert ops[..n - 1][..i] == ops[..i];
        HarmlessAt(ops, i, n - 1);
      }
    }
  }

  /**
   A run whose late deletions all follow a Look that missed is harmless throughout, so that every
   Get and Len answers as the plain map, exactly if no gap has a fresh Set of its key.
   */
  lemma ClearGapsExactly<K, V>(ops: seq<Timed<K, V>>)
    requires Ordered(ops) && DeletesAfterLooks(ops)
    ensures AllHarmless(ops) <==> forall i: nat, j: nat :: AfterMissedLook(ops, i, j) ==> GapClear(ops, i, j)
    ensures AllHarmless(ops) ==> CacheAnswers(ops) == PlainAnswers(ops)
  {
    if AllHarmless(ops) {
      RefinesPlain(ops);
      forall i: nat, j: nat | AfterMissedLook(ops, i, j) ensures GapClear(ops, i, j) {
        AllHarmlessPrefix(ops, i);
        AllHarmlessPrefix(ops, j);
        HarmlessAt(ops, i, j);
      }
    }
    if forall i: nat, j: nat :: AfterMissedLook(ops, i, j) ==> GapClear(ops, i, j) {
      ClearGapsHarmless(ops, |ops|);
      assert ops[..|ops|] == ops;
    }
  }

  /**
   A Get that reads its entry at time `read` and the clock only later, after the events of `gap`,
   answers as an atomic Get would at one of these two moments, unless its entry expires in between
   while a fresh Set of the key keeps it alive.
   */
  lemma LateClock<K, V>(before: seq<Timed<K, V>>, gap: seq<Timed<K, V>>, k: K, read: int, now: int)
    requires Ordered(before + [Timed(Get(k), read)]) && AllHarmless(before) && read <= now
    ensures var answer := Live(CacheAfter(before), k, now);
      answer == Live(PlainAfter(before), k, read) || answer == Live(PlainAfter(before + gap), k, now) <==>
      !(Live(PlainAfter(before), k, read).Some? && answer == None && FreshSetIn(gap, k, now))
  {
    var p := PlainAfter(before);
    assert Ordered(before + [Timed(Get(k), now)]) by {
      var a, b: seq<Timed<K, V>> := before + [Timed(Get(k), read)], before + [Timed(Get(k), now)];
      assert forall i :: 0 <= i < |before| ==> a[i] == b[i] && a[i].now <= a[|before|].now;
    }
    SameReading(before, k, now);
    if Live(p, k, now) == None {
      AliveAfterGap(before, gap, k, now, now);
    }
  }

  // ---- answers, by the events alone

  lemma LastSetAppended<K, V>(ops: seq<Timed<K, V>>, t: Timed<K, V>, k: K, i: nat)
    ensures LastSet(ops + [t], k, i) <==>
      if Writes(t, k) then t.op.Set? && i == |ops| else LastSet(ops, k, i)
  {
    var all := ops + [t];
    assert all[|ops|] == t;
    assert forall j :: 0 <= j < |ops| ==> all[j] == ops[j];
  }

  /** What the plain map has for a key is what the last Set stored, if no Delete came after it. */
  lemma {:induction false} PlainHolds<K, V>(ops: seq<Timed<K, V>>, k: K)
    ensures k in PlainAfter(ops) <==> exists i: nat :: LastSet(ops, k, i)
    ensures forall i: nat :: LastSet(ops, k, i) ==>
      k in PlainAfter(ops) && PlainAfter(ops)[k] == Item(ops[i].op.value, Expiry(ops[i]))
  {
    if ops != [] {
      var before, t := ops[..|ops| - 1], ops[|ops| - 1];
      assert ops == before + [t];
      PlainHolds(before, k);
      forall i: nat ensures LastSet(ops, k, i) <==>
        if Writes(t, k) then t.op.Set? && i == |before| else LastSet(before, k, i)
      {
        LastSetAppended(before, t, k, i);
      }
      if Writes(t, k) {
        assert t.op.Set? ==> LastSet(ops, k, |before|);
      } else if i: nat :| LastSet(before, k, i) {
        assert LastSet(ops, k, i);
      }
    }
  }

  /** After any such run Get finds exactly the value of the last Set, up to and including its expiry. */
  lemma GetByEvents<K, V(!new)>(ops: seq<Timed<K, V>>, k: K, now: int)
    requires Ordered(ops + [Timed(Get(k), now)]) && AllHarmless(ops)
    ensures forall v :: AnswerOf(CacheAfter(ops), Timed(Get(k), now)) == Found(Some(v)) <==>
      exists i: nat :: LastSet(ops, k, i) && now <= ops[i].now + ops[i].op.ttl && ops[i].op.value == v
  {
    SameReading(ops, k, now);
    PlainHolds(ops, k);
  }

  /** The keys whose last Set is not followed by a Delete and whose time is still to come. */
  ghost function KeysAlive<K, V>(ops: seq<Timed<K, V>>, now: int): set<K> {
    set i | 0 <= i < |ops| && ops[i].op.Set? && LastSet(ops, ops[i].op.key, i) && now < ops[i].now + ops[i].op.ttl
      :: ops[i].op.key
  }

  lemma AliveByEvents<K, V>(ops: seq<Timed<K, V>>, k: K, now: int)
    ensures k in CountedKeys(PlainAfter(ops), now) <==> k in KeysAlive(ops, now)
  {
  }

  /** After any such run Len counts those keys. */
  lemma LenByEvents<K(!new), V>(ops: seq<Timed<K, V>>, now: int)
    requires Ordered(ops + [Timed(Len, now)]) && AllHarmless(ops)
    ensures AnswerOf(CacheAfter(ops), Timed(Len, now)) == Size(|KeysAlive(ops, now)|)
  {
    var len: Timed<K, V> := Timed(Len, now);
    assert (ops + [len])[..|ops|] == ops && (ops + [len])[|ops|] == len;
    OrderedPrefix(ops + [len], |ops|);
    RefinesPlain(ops);
    if ops != [] {
      assert (ops + [len])[|ops| - 1] == ops[|ops| - 1];
      AgreeAnswers(CacheAfter(ops), PlainAfter(ops), ops[|ops| - 1].now, len);
    }
    forall k ensures k in CountedKeys(PlainAfter(ops), now) <==> k in KeysAlive(ops, now) {
      AliveByEvents(ops, k, now);
    }
    assert CountedKeys(PlainAfter(ops), now) == KeysAlive(ops, now);
  }

  /** Len counts a key exactly if Get finds it and its time has not just come. */
  lemma LenAndGet<K, V(!new)>(ops: seq<Timed<K, V>>, k: K, now: int)
    requires Ordered(ops + [Timed(Get(k), now)]) && AllHarmless(ops)
    ensures k in KeysAlive(ops, now) <==>
      && AnswerOf(CacheAfter(ops), Timed(Get(k), now)) != Found(None)
      && !exists i: nat :: LastSet(ops, k, i) && now == ops[i].now + ops[i].op.ttl
  {
    SameReading(ops, k, now);
    PlainHolds(ops, k);
    AliveByEvents(ops, k, now);
  }

  /** With a Set in the gap the fresh entry is lost: the next Get misses it. */
  lemma SetInGapIsLost<K, V>(k: K, v: V)
    ensures var ops := [Timed(Set(k, v, 1), 0), Timed(Look(k), 2), Timed(Set(k, v, 5), 2), Timed(LateDelete(k), 2), Timed(Get(k), 2)];
      && Ordered(ops) && !AllHarmless(ops)
      && CacheAnswers(ops)[|CacheAnswers(ops)| - 1] == Found(None)
      && PlainAnswers(ops)[|PlainAnswers(ops)| - 1] == Found(Some(v))
  {
    var ops := [Timed(Set(k, v, 1), 0), Timed(Look(k), 2), Timed(Set(k, v, 5), 2), Timed(LateDelete(k), 2), Timed(Get(k), 2)];
    assert ops[..4] == [Timed(Set(k, v, 1), 0), Timed(Look(k), 2), Timed(Set(k, v, 5), 2), Timed(LateDelete(k), 2)];
    assert ops[..4][..3] == [Timed(Set(k, v, 1), 0), Timed(Look(k), 2), Timed(Set(k, v, 5), 2)];
    assert ops[..4][..3][..2] == [Timed(Set(k, v, 1), 0), Timed(Look(k), 2)];
    var p := PlainAfter(ops[..4][..3]);
    assert p == PlainAfter(ops[..4][..3][..2])[k := Item(v, 7)];
    assert PlainAfter(ops[..4]) == p;
    assert !Harmless(ops[..4][..3], ops[3]);
    assert k !in CacheAfter(ops[..4]);
  }
}

/** The cache itself; the clock is read through a parameter. */
module TtlCache {
  import opened Prelude
  import opened TtlSpec

  class Cache<K(==), V> {
    var items: map<K, Item<V>>

    constructor ()
      ensures items == map[]
    {
      items := map[];
    }

    method Set(key: K, value: V, ttl: int, now: int)
      modifies this
      ensures items == CacheNext(old(items), Timed(Op.Set(key, value, ttl), now))
    {
      items := items[key := Item(value, now + ttl)];
    }

    /** The read-locked part of Get. */
    method Read(key: K) returns (it: Option<Item<V>>)
      ensures it == if key in items then Some(items[key]) else None
    {
      if key in items {
        return Some(items[key]);
      }
      return None;
    }

    /** Get when nothing comes between its reading, its look at the clock and its deletion. */
    method Get(key: K, now: int) returns (r: Option<V>)
      modifies this
      ensures items == CacheNext(old(items), Timed(Op.Get(key), now))
      ensures Found(r) == AnswerOf(old(items), Timed(Op<K, V>.Get(key), now))
      ensures r == None ==> key !in items
    {
      var it := Read(key);
      if it == None {
        return None;
      }
      if now > it.value.expiresAt {
        Delete(key, now);
        return None;
      }
      return Some(it.value.value);
    }

    method Delete(key: K, now: int)
      modifies this
      ensures items == CacheNext(old(items), Timed(Op.Delete(key), now))
    {
      items := items - {key};
    }

    method Len(now: int) returns (count: nat)
      ensures Size(count) == AnswerOf(items, Timed(Op<K, V>.Len, now))
    {
      count := 0;
      var left := items.Keys;
      ghost var seen: set<K> := {};
      while left != {}
        invariant left <= items.Keys && seen == CountedKeys(items, now) - left && count == |seen|
      {
        var k :| k in left;
        if now < items[k].expiresAt {
          count := count + 1;
          seen := seen + {k};
        }
        left := left - {k};
      }
      assert seen == CountedKeys(items, now);
    }

    /** One tick of the cleanup goroutine. */
    method Cleanup(now: int)
      modifies this
      ensures items == CacheNext(old(items), Timed(Op.Tick, now))
    {
      var left := items.Keys;
      while left != {}
        invariant left <= items.Keys <= old(items).Keys
        invariant forall k <- items :: items[k] == old(items)[k]
        invariant forall k <- old(items) :: k !in left ==> (k in items <==> !Expired(old(items)[k], now))
      {
        var k :| k in left;
        if now > items[k].expiresAt {
          items := items - {k};
        }
        left := left - {k};
      }
    }
  }
}
