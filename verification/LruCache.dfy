/** The cache itself: a map from keys to list elements, and the list, most recent first. */
module LruCache {
  import opened LruSpec
  import opened Prelude

  /** The payload of a list element; Put overwrites the value where it stands. */
  class Entry<K, V> {
    const key: K
    var value: V

    constructor (key: K, value: V)
      ensures this.key == key && this.value == value
    {
      this.key := key;
      this.value := value;
    }
  }

  function Position<T(==)>(s: seq<T>, x: T): (i: nat)
    requires x in s
    ensures i < |s| && s[i] == x
  {
    if s[0] == x then 0 else 1 + Position(s[1..], x)
  }

  /** The list operation behind both Get and Put: cut the element out and put it first. */
  function MovedToFront<T(==)>(s: seq<T>, x: T): seq<T>
    requires x in s
  {
    var i := Position(s, x);
    [x] + (s[..i] + s[i + 1..])
  }

  lemma MovedToFrontMembers<T>(s: seq<T>, x: T)
    requires x in s && Distinct(s)
    ensures forall y :: y in MovedToFront(s, x) <==> y in s
    ensures Distinct(MovedToFront(s, x)) && |MovedToFront(s, x)| == |s|
  {
  }

  ghost function Pairs<K, V>(order: seq<Entry<K, V>>): (s: seq<Pair<K, V>>)
    reads order
    ensures |s| == |order|
  {
    if order == [] then [] else [Pair(order[0].key, order[0].value)] + Pairs(order[1..])
  }

  lemma {:induction false} PairsAt<K, V>(order: seq<Entry<K, V>>, i: nat)
    requires i < |order|
    ensures Pairs(order)[i] == Pair(order[i].key, order[i].value)
  {
    if i > 0 {
      PairsAt(order[1..], i - 1);
    }
  }

  /** List and map agree element for element. */
  ghost predicate Linked<K, V>(items: map<K, Entry<K, V>>, order: seq<Entry<K, V>>) {
    && Distinct(order)
    && (forall e <- order :: e.key in items && items[e.key] == e)
    && (forall k <- items :: items[k] in order && items[k].key == k)
  }

  lemma LinkedPairs<K, V>(items: map<K, Entry<K, V>>, order: seq<Entry<K, V>>)
    requires Linked(items, order)
    ensures Distinct(Keys(Pairs(order)))
    ensures forall k :: k in items <==> Find(Pairs(order), k).Some?
    ensures forall k <- items :: Find(Pairs(order), k) == Some(items[k].value)
  {
    var s := Pairs(order);
    forall i | 0 <= i < |s| ensures s[i] == Pair(order[i].key, order[i].value) {
      PairsAt(order, i);
    }
    forall i, j | 0 <= i < j < |s| ensures Keys(s)[i] != Keys(s)[j] {
      assert order[i] in order && order[j] in order;
    }
    forall k ensures k in items <==> Find(s, k).Some?
             ensures k in items ==> Find(s, k) == Some(items[k].value) {
      FindLocates(s, k);
      if k in items {
        var i := Position(order, items[k]);
        assert Keys(s)[i] == k;
        assert s[i] == Pair(k, items[k].value);
        FindUnique(s, Pair(k, items[k].value));
      }
    }
  }

  lemma MovedLinked<K, V>(items: map<K, Entry<K, V>>, order: seq<Entry<K, V>>, elem: Entry<K, V>)
    requires Linked(items, order) && elem in order
    ensures Linked(items, MovedToFront(order, elem))
  {
  }

  lemma PairsFront<K, V>(order: seq<Entry<K, V>>)
    requires order != []
    ensures Pairs(order) == [Pair(order[0].key, order[0].value)] + Pairs(order[1..])
  {
  }

  lemma {:induction false} PairsConcat<K, V>(a: seq<Entry<K, V>>, b: seq<Entry<K, V>>)
    ensures Pairs(a + b) == Pairs(a) + Pairs(b)
  {
    if a == [] {
      assert a + b == b;
    } else {
      PairsConcat(a[1..], b);
      assert a + b == [a[0]] + (a[1..] + b);
      PairsFront([a[0]] + (a[1..] + b));
    }
  }

  lemma PairsSplit<K, V>(order: seq<Entry<K, V>>, i: nat)
    requires i <= |order|
    ensures Pairs(order)[..i] == Pairs(order[..i]) && Pairs(order)[i..] == Pairs(order[i..])
  {
    assert order == order[..i] + order[i..];
    PairsConcat(order[..i], order[i..]);
  }

  lemma PairsCut<K, V>(order: seq<Entry<K, V>>, i: nat)
    requires i < |order|
    ensures Pairs(order[..i] + order[i + 1..]) == Pairs(order)[..i] + Pairs(order)[i + 1..]
  {
    PairsSplit(order, i);
    PairsSplit(order, i + 1);
    PairsConcat(order[..i], order[i + 1..]);
  }

  lemma MovedPairs<K, V>(items: map<K, Entry<K, V>>, order: seq<Entry<K, V>>, elem: Entry<K, V>)
    requires Linked(items, order) && elem in order
    ensures elem !in MovedToFront(order, elem)[1..]
    ensures Pairs(MovedToFront(order, elem)[1..]) == Without(Pairs(order), elem.key)
  {
    MovedToFrontMembers(order, elem);
    DistinctCons(MovedToFront(order, elem));
    var i := Position(order, elem);
    assert MovedToFront(order, elem)[1..] == order[..i] + order[i + 1..];
    PairsCut(order, i);
    PairsAt(order, i);
    assert Distinct(Keys(Pairs(order))) by {
      LinkedPairs(items, order);
    }
    WithoutAt(Pairs(order), i);
  }

  lemma DroppedBack<K, V>(items: map<K, Entry<K, V>>, order: seq<Entry<K, V>>)
    requires Linked(items, order) && order != []
    ensures var back := order[|order| - 1]; Linked(items - {back.key}, order[..|order| - 1])
  {
  }

  lemma LinkedFront<K, V>(items: map<K, Entry<K, V>>, order: seq<Entry<K, V>>, e: Entry<K, V>)
    requires Linked(items, order) && e.key !in items && e !in order
    ensures Linked(items[e.key := e], [e] + order)
  {
  }

  class LRUCache<K(==), V> {
    const capacity: int
    var items: map<K, Entry<K, V>>
    var order: seq<Entry<K, V>>
    /** Every call made so far, oldest first. */
    ghost var trace: seq<Op<K, V>>

    /** What the cache holds, most recently used first. */
    ghost function Contents(): seq<Pair<K, V>>
      reads this, order
    {
      Pairs(order)
    }

    ghost predicate Valid()
      reads this, order
    {
      Linked(items, order) && Contents() == Run(capacity, trace)
    }

    constructor (capacity: int)
      ensures Valid() && this.capacity == capacity && order == [] && trace == []
    {
      this.capacity := capacity;
      items := map[];
      order := [];
      trace := [];
    }

    lemma Traced(op: Op<K, V>)
      ensures Run(capacity, trace + [op]) == After(capacity, Run(capacity, trace), op)
    {
    }

    /** A hit answers with the stored value and becomes the most recent; a miss changes nothing. */
    method Get(key: K) returns (r: Option<V>)
      requires Valid()
      modifies this
      ensures Valid() && forall e <- order :: e in old(order)
      ensures trace == old(trace) + [Op.Get(key)]
      ensures r == Find(old(Contents()), key) && Contents() == AfterGet(old(Contents()), key)
    {
      assert (key in items <==> Find(Pairs(order), key).Some?)
          && (key in items ==> Find(Pairs(order), key) == Some(items[key].value)) by {
        LinkedPairs(items, order);
      }
      Traced(Op.Get(key));
      trace := trace + [Op.Get(key)];
      if key !in items {
        return None;
      }
      MoveToFront(items[key]);
      return Some(items[key].value);
    }

    /** The list's own operation: nothing but the position of `elem` changes. */
    method MoveToFront(elem: Entry<K, V>)
      requires Linked(items, order) && elem in order
      modifies this`order
      ensures Linked(items, order) && order != [] && order[0] == elem && elem !in order[1..]
      ensures forall e <- order :: e in old(order)
      ensures Pairs(order[1..]) == Without(old(Contents()), elem.key)
      ensures Contents() == [Pair(elem.key, elem.value)] + Without(old(Contents()), elem.key)
    {
      MovedLinked(items, order, elem);
      MovedPairs(items, order, elem);
      assert forall e <- MovedToFront(order, elem) :: e in order by {
        MovedToFrontMembers(order, elem);
      }
      PairsFront(MovedToFront(order, elem));
      order := MovedToFront(order, elem);
    }

    /** The key ends up in front with the new value; a full cache gives up its back entry. */
    method Put(key: K, value: V)
      requires Valid()
      modifies this, order
      ensures Valid() && forall e <- order :: e in old(order) || fresh(e)
      ensures trace == old(trace) + [Op.Put(key, value)]
      ensures Contents() == AfterPut(capacity, old(Contents()), key, value)
    {
      assert (key in items <==> Find(Pairs(order), key).Some?) by {
        LinkedPairs(items, order);
      }
      Traced(Op.Put(key, value));
      trace := trace + [Op.Put(key, value)];
      if key in items {
        var elem := items[key];
        MoveToFront(elem);
        Overwrite(elem, value);
        return;
      }

      Insert(key, value);
    }

    method Insert(key: K, value: V)
      requires Linked(items, order) && key !in items
      modifies this`order, this`items
      ensures Linked(items, order) && forall e <- order :: e in old(order) || fresh(e)
      ensures Contents() == [Pair(key, value)] + Room(old(Contents()))
    {
      if |order| >= capacity {
        if order != [] {
          RemoveBack();
        }
      }
      ghost var kept := order;
      ghost var pairs := Contents();
      assert pairs == Room(old(Contents()));
      assert forall e <- kept :: e in old(order);
      PushFront(key, value);
      assert forall e <- order :: e == order[0] || e in kept;
    }

    /** What is left of a list after making room for one more. */
    ghost function Room<T>(s: seq<T>): seq<T> {
      if |s| >= Limit(capacity) then s[..|s| - 1] else s
    }

    method Overwrite(elem: Entry<K, V>, value: V)
      requires order != [] && order[0] == elem && elem !in order[1..]
      modifies elem`value
      ensures Contents() == [Pair(elem.key, value)] + old(Pairs(order[1..]))
    {
      elem.value := value;
      PairsFront(order);
      assert forall i :: 0 <= i < |order[1..]| ==> order[1..][i] in order[1..];
    }

    method RemoveBack()
      requires Linked(items, order) && order != []
      modifies this`order, this`items
      ensures Linked(items, order) && order == old(order)[..|old(order)| - 1]
      ensures forall k <- items :: k in old(items)
      ensures Contents() == old(Contents())[..|old(order)| - 1]
    {
      var back := order[|order| - 1];
      DroppedBack(items, order);
      assert order == order[..|order| - 1] + [back];
      PairsConcat(order[..|order| - 1], [back]);
      order := order[..|order| - 1];
      items := items - {back.key};
    }

    method PushFront(key: K, value: V)
      requires Linked(items, order) && key !in items
      modifies this`order, this`items
      ensures Linked(items, order) && order != [] && fresh(order[0]) && order == [order[0]] + old(order)
      ensures Contents() == [Pair(key, value)] + old(Contents())
    {
      ghost var rest := order;
      var e := new Entry(key, value);
      LinkedFront(items, order, e);
      order := [e] + order;
      items := items[key := e];
      PairsFront(order);
      assert order[1..] == rest;
    }

    method Len() returns (n: nat)
      requires Valid()
      ensures n == |Contents()| <= Limit(capacity)
      ensures n == |MostRecent(capacity, Log(capacity, trace))|
      ensures n == Least(|PutKeys(trace)|, if capacity < 1 then 1 else capacity)
    {
      RunSpecification(capacity, trace);
      SizeExactly(capacity, trace);
      n := |order|;
    }
  }
}
