/**
 The sharded counter. Inc is two atomic operations, taking a ticket and adding to the ticket's
 shard, and other goroutines may run in between; Value loads shard after shard. Counters are taken
 to stay below their machine limits.
 */
module ShardedCounter {
  import opened Prelude
  import opened Sums

  /** `added[t]` says whether the Inc with ticket t + 1 has done its second step. */
  datatype State = State(shards: seq<nat>, added: seq<bool>)

  datatype Step = TakeTicket | AddFor(t: nat)

  ghost function Init(n: nat): State {
    State(seq(n, _ => 0), [])
  }

  ghost function Shard(n: nat, t: nat): nat
    requires n > 0
  {
    (t + 1) % n
  }

  ghost predicate Enabled(s: State, step: Step) {
    step.AddFor? ==> step.t < |s.added| && !s.added[step.t]
  }

  ghost function Next(s: State, step: Step): State
    requires s.shards != [] && Enabled(s, step)
  {
    match step
    case TakeTicket => s.(added := s.added + [false])
    case AddFor(t) =>
      var idx := Shard(|s.shards|, t);
      State(s.shards[idx := s.shards[idx] + 1], s.added[t := true])
  }

  ghost function Exec(n: nat, steps: seq<Step>): (r: Option<State>)
    requires n > 0
    ensures r.Some? ==> |r.value.shards| == n
  {
    if steps == [] then Some(Init(n))
    else
      match Exec(n, steps[..|steps| - 1])
      case None => None
      case Some(s) => if Enabled(s, steps[|steps| - 1]) then Some(Next(s, steps[|steps| - 1])) else None
  }

  /** The Incs that have done both steps. */
  ghost function Done(added: seq<bool>): nat {
    Count(added, true)
  }

  /** Those of them that went to shard j. */
  ghost function DoneIn(added: seq<bool>, n: nat, j: nat): nat
    requires n > 0
  {
    if added == [] then 0
    else
      var last := |added| - 1;
      DoneIn(added[..last], n, j) + (if added[last] && Shard(n, last) == j then 1 else 0)
  }

  ghost predicate Inv(s: State) {
    && s.shards != []
    && Sum(s.shards) == Done(s.added)
    && forall j :: 0 <= j < |s.shards| ==> s.shards[j] == DoneIn(s.added, |s.shards|, j)
  }

  lemma InitInv(n: nat)
    requires n > 0
    ensures Inv(Init(n))
  {
    SumZeros(n);
  }

  lemma {:induction false} DoneUpdate(added: seq<bool>, t: nat)
    requires t < |added| && !added[t]
    ensures Done(added[t := true]) == Done(added) + 1
  {
    var last := |added| - 1;
    if t == last {
      assert added[t := true][..last] == added[..last];
    } else {
      assert added[t := true][..last] == added[..last][t := true];
      DoneUpdate(added[..last], t);
    }
  }

  lemma {:induction false} DoneInUpdate(added: seq<bool>, n: nat, t: nat, j: nat)
    requires n > 0 && t < |added| && !added[t]
    ensures DoneIn(added[t := true], n, j) == DoneIn(added, n, j) + (if Shard(n, t) == j then 1 else 0)
  {
    var last := |added| - 1;
    if t == last {
      assert added[t := true][..last] == added[..last];
    } else {
      assert added[t := true][..last] == added[..last][t := true];
      DoneInUpdate(added[..last], n, t, j);
    }
  }

  lemma TicketKeepsInv(s: State)
    requires Inv(s)
    ensures Inv(Next(s, TakeTicket))
  {
  }

  lemma AddKeepsInv(s: State, t: nat)
    requires Inv(s) && Enabled(s, AddFor(t))
    ensures Inv(Next(s, AddFor(t)))
  {
    var n := |s.shards|;
    var idx := Shard(n, t);
    SumUpdate(s.shards, idx, s.shards[idx] + 1);
    DoneUpdate(s.added, t);
    forall j | 0 <= j < n ensures Next(s, AddFor(t)).shards[j] == DoneIn(s.added[t := true], n, j) {
      DoneInUpdate(s.added, n, t, j);
    }
  }

  lemma StepKeepsInv(s: State, step: Step)
    requires Inv(s) && Enabled(s, step)
    ensures Inv(Next(s, step)) && Below(s.shards, Next(s, step).shards)
  {
    match step
    case TakeTicket => TicketKeepsInv(s);
    case AddFor(t) => AddKeepsInv(s, t);
  }

  lemma {:induction false} Invariant(n: nat, steps: seq<Step>)
    requires n > 0
    ensures Exec(n, steps).Some? ==> Inv(Exec(n, steps).value)
  {
    if steps == [] {
      InitInv(n);
    } else {
      Invariant(n, steps[..|steps| - 1]);
      if Exec(n, steps).Some? {
        StepKeepsInv(Exec(n, steps[..|steps| - 1]).value, steps[|steps| - 1]);
      }
    }
  }

  ghost function TicketsTaken(steps: seq<Step>): nat {
    if steps == [] then 0
    else TicketsTaken(steps[..|steps| - 1]) + (if steps[|steps| - 1].TakeTicket? then 1 else 0)
  }

  ghost function AddsDone(steps: seq<Step>): nat {
    if steps == [] then 0
    else AddsDone(steps[..|steps| - 1]) + (if steps[|steps| - 1].AddFor? then 1 else 0)
  }

  /** The state counts the steps: one ticket for each first half of an Inc, one added for each second. */
  lemma {:induction false} StepsCounted(n: nat, steps: seq<Step>, s: State)
    requires n > 0 && Exec(n, steps) == Some(s)
    ensures |s.added| == TicketsTaken(steps) && Done(s.added) == Sum(s.shards) == AddsDone(steps)
  {
    Invariant(n, steps);
    if steps != [] {
      var before, step := steps[..|steps| - 1], steps[|steps| - 1];
      var r := Exec(n, before).value;
      StepsCounted(n, before, r);
      match step
      case TakeTicket => CountAppended(r.added, false, true);
      case AddFor(t) => DoneUpdate(r.added, t);
    }
  }

  // ---- scans

  lemma {:induction false} PrefixPossible(n: nat, steps: seq<Step>, k: nat)
    requires n > 0 && Exec(n, steps).Some? && k <= |steps|
    ensures Exec(n, steps[..k]).Some?
  {
    if k < |steps| {
      PrefixPossible(n, steps[..|steps| - 1], k);
      assert steps[..|steps| - 1][..k] == steps[..k];
    } else {
      assert steps[..k] == steps;
    }
  }

  /** The state after the first k steps of a run. */
  ghost function At(n: nat, steps: seq<Step>, k: nat): State
    requires n > 0 && Exec(n, steps).Some? && k <= |steps|
  {
    PrefixPossible(n, steps, k);
    Exec(n, steps[..k]).value
  }

  ghost function History(n: nat, steps: seq<Step>): (h: seq<seq<nat>>)
    requires n > 0 && Exec(n, steps).Some?
    ensures |h| == |steps| + 1 && forall k :: 0 <= k <= |steps| ==> h[k] == At(n, steps, k).shards
  {
    seq(|steps| + 1, k requires 0 <= k <= |steps| => At(n, steps, k).shards)
  }

  lemma {:induction false} ShardsGrow(n: nat, steps: seq<Step>, t: nat, u: nat)
    requires n > 0 && Exec(n, steps).Some? && t <= u <= |steps|
    ensures Below(At(n, steps, t).shards, At(n, steps, u).shards)
  {
    if t < u {
      ShardsGrow(n, steps, t, u - 1);
      PrefixPossible(n, steps, u);
      assert steps[..u][..u - 1] == steps[..u - 1];
      Invariant(n, steps[..u - 1]);
      StepKeepsInv(At(n, steps, u - 1), steps[u - 1]);
    }
  }

  /** A Value call that loads shard i after at[i] steps of the run. */
  ghost predicate Scan(n: nat, steps: seq<Step>, at: seq<nat>, from: nat, to: nat) {
    |at| == n && from <= to <= |steps| && forall i :: 0 <= i < n ==> from <= at[i] <= to
  }

  ghost function Value(n: nat, steps: seq<Step>, at: seq<nat>): nat
    requires n > 0 && Exec(n, steps).Some? && |at| == n
    requires forall i :: 0 <= i < n ==> at[i] <= |steps|
  {
    ValueReadable(n, steps, at);
    Sum(Readings(History(n, steps), at))
  }

  lemma ValueReadable(n: nat, steps: seq<Step>, at: seq<nat>)
    requires n > 0 && Exec(n, steps).Some? && |at| == n
    requires forall i :: 0 <= i < n ==> at[i] <= |steps|
    ensures forall i :: 0 <= i < n ==> |History(n, steps)[at[i]]| == n
  {
    forall i | 0 <= i < n ensures |At(n, steps, at[i]).shards| == n {
      PrefixPossible(n, steps, at[i]);
    }
  }

  /** A Value that runs between two points of any run lies between the adds done at those points. */
  lemma ValueBetween(n: nat, steps: seq<Step>, at: seq<nat>, from: nat, to: nat)
    requires n > 0 && Exec(n, steps).Some? && Scan(n, steps, at, from, to)
    ensures Done(At(n, steps, from).added) <= Value(n, steps, at) <= Done(At(n, steps, to).added)
  {
    var h := History(n, steps);
    forall t, u | 0 <= t <= u < |h| ensures Below(h[t], h[u]) {
      ShardsGrow(n, steps, t, u);
    }
    forall t | 0 <= t < |h| ensures |h[t]| == n {
      PrefixPossible(n, steps, t);
    }
    ScanBetween(h, n, at, from, to);
    PrefixPossible(n, steps, from);
    PrefixPossible(n, steps, to);
    Invariant(n, steps[..from]);
    Invariant(n, steps[..to]);
  }

  /** Of two Values that do not overlap, the later one is not smaller. */
  lemma ScansMonotone(n: nat, steps: seq<Step>, at: seq<nat>, from: nat, mid: nat, at': seq<nat>, mid': nat, to: nat)
    requires n > 0 && Exec(n, steps).Some? && mid <= mid'
    requires Scan(n, steps, at, from, mid) && Scan(n, steps, at', mid', to)
    ensures Value(n, steps, at) <= Value(n, steps, at')
  {
    ValueBetween(n, steps, at, from, mid);
    ValueBetween(n, steps, at', mid', to);
    ShardsGrow(n, steps, mid, mid');
    SumMonotone(At(n, steps, mid).shards, At(n, steps, mid').shards);
    PrefixPossible(n, steps, mid);
    PrefixPossible(n, steps, mid');
    Invariant(n, steps[..mid]);
    Invariant(n, steps[..mid']);
  }

  // ---- at rest

  ghost predicate Quiescent(s: State) {
    forall t :: 0 <= t < |s.added| ==> s.added[t]
  }

  lemma {:induction false} DoneAtMost(added: seq<bool>)
    ensures Done(added) <= |added|
    ensures Done(added) == |added| <==> forall t :: 0 <= t < |added| ==> added[t]
  {
    if added != [] {
      var before := added[..|added| - 1];
      DoneAtMost(before);
      if forall t :: 0 <= t < |before| ==> before[t] {
        assert forall t :: 0 <= t < |before| ==> added[t] == before[t];
      } else {
        var t :| 0 <= t < |before| && !before[t];
        assert !added[t];
      }
    }
  }

  /** With no Inc in flight and none started meanwhile, Value is exactly the number of Incs. */
  lemma ValueAtRest(n: nat, steps: seq<Step>, at: seq<nat>, from: nat, to: nat)
    requires n > 0 && Exec(n, steps).Some? && Scan(n, steps, at, from, to)
    requires Quiescent(At(n, steps, from)) && |At(n, steps, to).added| == |At(n, steps, from).added|
    ensures Value(n, steps, at) == |At(n, steps, from).added|
  {
    ValueBetween(n, steps, at, from, to);
    DoneAtMost(At(n, steps, from).added);
    DoneAtMost(At(n, steps, to).added);
  }

  /** Of the first m tickets shard j gets m / n, and one more if it lies among the first m % n after 0. */
  lemma {:induction false} TicketsSpread(added: seq<bool>, n: nat, j: nat)
    requires n > 0 && j < n && forall t :: 0 <= t < |added| ==> added[t]
    ensures DoneIn(added, n, j) == |added| / n + (if 1 <= j <= |added| % n then 1 else 0)
  {
    if added == [] {
      DivModUnique(0, n, 0, 0);
    } else {
      var m := |added| - 1;
      TicketsSpread(added[..m], n, j);
      NextTicket(m, n);
    }
  }

  lemma NextTicket(m: nat, n: nat)
    requires n > 0
    ensures m % n + 1 < n ==> (m + 1) / n == m / n && (m + 1) % n == m % n + 1
    ensures m % n + 1 == n ==> (m + 1) / n == m / n + 1 && (m + 1) % n == 0
  {
    var q, r := m / n, m % n;
    assert m == q * n + r;
    if r + 1 < n {
      DivModUnique(m + 1, n, q, r + 1);
    } else {
      assert (q + 1) * n == q * n + n;
      DivModUnique(m + 1, n, q + 1, 0);
    }
  }

  /** At rest no two shards differ by more than one. */
  lemma ShardsBalanced(n: nat, steps: seq<Step>, s: State, i: nat, j: nat)
    requires n > 0 && Exec(n, steps) == Some(s) && Quiescent(s) && i < n && j < n
    ensures s.shards[i] <= s.shards[j] + 1
  {
    Invariant(n, steps);
    TicketsSpread(s.added, n, i);
    TicketsSpread(s.added, n, j);
  }

  // ---- steps of others

  ghost predicate CanRun(s: State, steps: seq<Step>)
    requires s.shards != []
    decreases |steps|
  {
    steps == [] || (Enabled(s, steps[0]) && CanRun(Next(s, steps[0]), steps[1..]))
  }

  ghost function RunOn(s: State, steps: seq<Step>): (t: State)
    requires s.shards != [] && CanRun(s, steps)
    ensures |t.shards| == |s.shards|
    decreases |steps|
  {
    if steps == [] then s else RunOn(Next(s, steps[0]), steps[1..])
  }

  lemma {:induction false} RunGrows(s: State, steps: seq<Step>)
    requires Inv(s) && CanRun(s, steps)
    ensures Inv(RunOn(s, steps)) && Below(s.shards, RunOn(s, steps).shards)
    decreases |steps|
  {
    if steps != [] {
      StepKeepsInv(s, steps[0]);
      RunGrows(Next(s, steps[0]), steps[1..]);
    }
  }

  ghost predicate CanRunAll(s: State, others: seq<seq<Step>>)
    requires s.shards != []
    decreases |others|
  {
    others == [] || (CanRun(s, others[0]) && CanRunAll(RunOn(s, others[0]), others[1..]))
  }

  ghost function RunAll(s: State, others: seq<seq<Step>>): State
    requires s.shards != [] && CanRunAll(s, others)
    decreases |others|
  {
    if others == [] then s else RunAll(RunOn(s, others[0]), others[1..])
  }

  /** What loads from shard i on add up to, each made after the steps that come before it. */
  ghost function Loaded(s: State, others: seq<seq<Step>>, i: nat): nat
    requires s.shards != [] && CanRunAll(s, others) && i + |others| <= |s.shards|
    decreases |others|
  {
    if others == [] then 0
    else
      var t := RunOn(s, others[0]);
      t.shards[i] + Loaded(t, others[1..], i + 1)
  }

  /** A shard that is loaded after some steps and before others is between what it was and what it will be. */
  lemma {:induction false} LoadedBetween(s: State, others: seq<seq<Step>>, i: nat)
    requires Inv(s) && CanRunAll(s, others) && i + |others| == |s.shards|
    ensures Inv(RunAll(s, others)) && Below(s.shards, RunAll(s, others).shards)
    ensures Sum(s.shards[i..]) <= Loaded(s, others, i) <= Sum(RunAll(s, others).shards[i..])
    decreases |others|
  {
    if others != [] {
      var t, last := RunOn(s, others[0]), RunAll(s, others);
      RunGrows(s, others[0]);
      LoadedBetween(t, others[1..], i + 1);
      SuffixSum(s.shards, i);
      SuffixSum(last.shards, i);
      SumMonotone(s.shards[i + 1..], t.shards[i + 1..]);
    }
  }

  lemma SuffixSum(s: seq<nat>, i: nat)
    requires i < |s|
    ensures Sum(s[i..]) == s[i] + Sum(s[i + 1..])
  {
    SumFront(s[i..]);
    assert s[i..][1..] == s[i + 1..];
  }

  // ---- the counter object

  class Counter {
    const n: nat
    var shards: array<nat>
    var next: nat
    /** Which of the tickets handed out have been used. */
    ghost var added: seq<bool>

    ghost function View(): State
      reads this, shards
    {
      State(shards[..], added)
    }

    ghost predicate Valid()
      reads this, shards
    {
      shards.Length == n > 0 && next == |added| && Inv(View())
    }

    /** A count of zero or less means one shard per processor. */
    constructor (count: int, processors: nat)
      requires processors > 0
      ensures Valid() && fresh(shards) && View() == Init(n)
      ensures n == if count <= 0 then processors else count
    {
      var k: nat := if count <= 0 then processors else count;
      n := k;
      shards := new nat[k](_ => 0);
      next := 0;
      added := [];
      new;
      assert View() == Init(n);
      InitInv(n);
    }

    /** First half of Inc: c.next.Add(1) % n. */
    method Ticket() returns (idx: nat)
      requires Valid()
      modifies this`next, this`added
      ensures Valid() && View() == Next(old(View()), TakeTicket)
      ensures idx < n && idx == Shard(n, old(next))
    {
      StepKeepsInv(View(), TakeTicket);
      next := next + 1;
      added := added + [false];
      idx := next % n;
    }

    /** Second half of Inc, for the ticket t that gave idx. */
    method Add(idx: nat, ghost t: nat)
      requires Valid() && t < |added| && !added[t] && idx == Shard(n, t)
      modifies this`added, shards
      ensures Valid() && shards == old(shards) && next == old(next) && View() == Next(old(View()), AddFor(t))
    {
      StepKeepsInv(View(), AddFor(t));
      shards[idx] := shards[idx] + 1;
      added := added[t := true];
    }

    method Inc()
      requires Valid()
      modifies this, shards
      ensures Valid() && shards == old(shards)
      ensures next == old(next) + 1 && Done(added) == Done(old(added)) + 1
      ensures View() == Next(Next(old(View()), TakeTicket), AddFor(old(next)))
    {
      ghost var t := next;
      var idx := Ticket();
      CountAppended(old(added), false, true);
      DoneUpdate(added, t);
      Add(idx, t);
    }

    /** What other goroutines do, one atomic step after the other. */
    method Others(steps: seq<Step>)
      requires Valid() && CanRun(View(), steps)
      modifies this`next, this`added, shards
      ensures Valid() && shards == old(shards) && View() == RunOn(old(View()), steps)
      decreases |steps|
    {
      if steps != [] {
        match steps[0] {
          case TakeTicket =>
            var _ := Ticket();
          case AddFor(t) =>
            Add((t + 1) % n, t);
        }
        Others(steps[1..]);
      }
    }

    /**
     The scan. Before load i the other goroutines take the steps others[i]; the answer is what the
     loads find, and it lies between the Incs finished when the scan starts and when it ends.
     */
    method Value(others: seq<seq<Step>>) returns (total: nat)
      requires Valid() && |others| == n && CanRunAll(View(), others)
      modifies this`next, this`added, shards
      ensures Valid() && shards == old(shards) && View() == RunAll(old(View()), others)
      ensures total == Loaded(old(View()), others, 0)
      ensures Done(old(added)) <= total <= Done(added)
    {
      total := 0;
      ghost var start := View();
      for i := 0 to n
        invariant Valid() && shards == old(shards) && CanRunAll(View(), others[i..])
        invariant RunAll(View(), others[i..]) == RunAll(start, others)
        invariant total + Loaded(View(), others[i..], i) == Loaded(start, others, 0)
      {
        assert others[i..][0] == others[i] && others[i..][1..] == others[i + 1..];
        Others(others[i]);
        total := total + shards[i];
      }
      assert others[n..] == [];
      LoadedBetween(start, others, 0);
      assert start.shards[0..] == start.shards && View().shards[0..] == View().shards;
    }
  }
}
