/** Small shared vocabulary: optional values, repetition-free lists, occurrence counts, remainders. */
module Prelude {
  datatype Option<+T> = None | Some(value: T)

  ghost predicate Distinct<T>(s: seq<T>) {
    forall i, j :: 0 <= i < j < |s| ==> s[i] != s[j]
  }

  lemma DistinctCons<T>(s: seq<T>)
    requires s != []
    ensures Distinct(s) <==> s[0] !in s[1..] && Distinct(s[1..])
  {
  }

  /** How often `x` occurs in `s`. */
  ghost function Count<T>(s: seq<T>, x: T): nat {
    if s == [] then 0
    else Count(s[..|s| - 1], x) + (if s[|s| - 1] == x then 1 else 0)
  }

  lemma CountAppended<T>(s: seq<T>, y: T, x: T)
    ensures Count(s + [y], x) == Count(s, x) + (if y == x then 1 else 0)
  {
  }

  lemma {:induction false} CountIsMultiplicity<T>(s: seq<T>, x: T)
    ensures multiset(s)[x] == Count(s, x)
  {
    if s != [] {
      CountIsMultiplicity(s[..|s| - 1], x);
      assert s == s[..|s| - 1] + [s[|s| - 1]];
    }
  }

  lemma EqualCounts<T>(s: seq<T>, t: seq<T>)
    requires forall x :: Count(s, x) == Count(t, x)
    ensures multiset(s) == multiset(t)
  {
    forall x ensures multiset(s)[x] == multiset(t)[x] {
      CountIsMultiplicity(s, x);
      CountIsMultiplicity(t, x);
    }
  }

  lemma {:induction false} MultiplesApart(p: int, q: int, n: nat)
    requires p < q
    ensures p * n + n <= q * n
    decreases q - p
  {
    assert (p + 1) * n == p * n + n;
    if p + 1 < q {
      MultiplesApart(p + 1, q, n);
    }
  }

  lemma DivModUnique(a: int, n: nat, q: int, r: int)
    requires 0 <= r < n && a == q * n + r
    ensures a / n == q && a % n == r
  {
    assert a == (a / n) * n + a % n;
    if q < a / n {
      MultiplesApart(q, a / n, n);
    } else if a / n < q {
      MultiplesApart(a / n, q, n);
    }
  }

  lemma ModPlus(a: int, n: nat)
    requires n > 0
    ensures (a + n) % n == a % n
  {
    var q, r := a / n, a % n;
    assert a == q * n + r;
    assert (q + 1) * n == q * n + n;
    DivModUnique(a + n, n, q + 1, r);
  }

  lemma {:induction false} ModPlusMultiple(a: int, m: nat, n: nat)
    requires n > 0
    ensures (a + m * n) % n == a % n
  {
    if m > 0 {
      var b := (m - 1) * n;
      assert b + n == m * n;
      ModPlusMultiple(a, m - 1, n);
      ModPlus(a + b, n);
      assert a + m * n == a + b + n;
    }
  }
}
