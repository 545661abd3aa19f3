/**
 Generate, Square and Filter chained over unbuffered channels. A send and its receive are one step;
 what a stage does with a value it received happens in the same step. Each stage closes its channel
 when it ends. A send on a closed channel or a second close leads to a panicked state.
 */
module Pipeline {
  import opened Prelude

  datatype Stage =
    | Ranging             // ready to receive (Generate: ready to send the next number)
    | Sending(value: int) // blocked in out <- value
    | Ended

  datatype State = State(
    i: nat,               // numbers Generate has passed on
    generate: Stage,
    square: Stage,
    filter: Stage,
    closed: seq<bool>,    // the three channels, in order
    out: seq<int>,        // what the consumer has received
    panicked: bool
  )

  datatype Step = GenerateSend | GenerateClose | SquareSend | SquareClose | FilterSend | FilterClose

  /** int is 64 bits wide and wraps around. */
  function Wrap64(n: int): int {
    (n + 0x8000_0000_0000_0000) % 0x1_0000_0000_0000_0000 - 0x8000_0000_0000_0000
  }

  function Squared(n: int): int {
    Wrap64(n * n)
  }

  ghost function Mapped(nums: seq<int>): seq<int> {
    if nums == [] then [] else [Squared(nums[0])] + Mapped(nums[1..])
  }

  ghost function Filtered(pred: int -> bool, s: seq<int>): seq<int> {
    if s == [] then [] else (if pred(s[0]) then [s[0]] else []) + Filtered(pred, s[1..])
  }

  /** A square is the product, wrapped into the 64-bit range. */
  lemma SquaredWraps(n: int) returns (turns: int)
    ensures Squared(n) == n * n - turns * 0x1_0000_0000_0000_0000
    ensures -0x8000_0000_0000_0000 <= Squared(n) < 0x8000_0000_0000_0000
  {
    var shifted := n * n + 0x8000_0000_0000_0000;
    turns := shifted / 0x1_0000_0000_0000_0000;
  }

  lemma {:induction false} MappedAt(nums: seq<int>, i: nat)
    requires i < |nums|
    ensures |Mapped(nums)| == |nums| && Mapped(nums)[i] == Squared(nums[i])
  {
    MappedLength(nums);
    if i > 0 {
      MappedAt(nums[1..], i - 1);
    }
  }

  lemma {:induction false} MappedLength(nums: seq<int>)
    ensures |Mapped(nums)| == |nums|
  {
    if nums != [] {
      MappedLength(nums[1..]);
    }
  }

  ghost predicate Increasing(places: seq<nat>) {
    forall i, j :: 0 <= i < j < |places| ==> places[i] < places[j]
  }

  /** These places, in order, are those of the elements that satisfy the predicate. */
  ghost predicate Selects(pred: int -> bool, s: seq<int>, places: seq<nat>) {
    Increasing(places) && forall k :: 0 <= k < |s| ==> (k in places <==> pred(s[k]))
  }

  ghost predicate At(s: seq<int>, places: seq<nat>, r: seq<int>) {
    |r| == |places| && forall i :: 0 <= i < |r| ==> places[i] < |s| && r[i] == s[places[i]]
  }

  /** Filtering keeps, in order, exactly the elements that satisfy the predicate. */
  lemma {:induction false} FilteredExactly(pred: int -> bool, s: seq<int>) returns (places: seq<nat>)
    ensures Selects(pred, s, places) && At(s, places, Filtered(pred, s))
  {
    if s == [] {
      places := [];
    } else {
      var later := FilteredExactly(pred, s[1..]);
      var shifted: seq<nat> := seq(|later|, i requires 0 <= i < |later| => later[i] + 1);
      places := (if pred(s[0]) then [0] else []) + shifted;
      Shifted(pred, s, later, shifted);
      if pred(s[0]) {
        InFront(pred, s, shifted, Filtered(pred, s[1..]));
      } else {
        assert places == shifted && Filtered(pred, s) == Filtered(pred, s[1..]);
      }
    }
  }

  lemma Shifted(pred: int -> bool, s: seq<int>, later: seq<nat>, shifted: seq<nat>)
    requires s != [] && Selects(pred, s[1..], later)
    requires |shifted| == |later| && forall i :: 0 <= i < |later| ==> shifted[i] == later[i] + 1
    ensures Increasing(shifted) && 0 !in shifted
    ensures forall k :: 0 < k < |s| ==> (k in shifted <==> pred(s[k]))
    ensures forall r :: At(s[1..], later, r) ==> At(s, shifted, r)
  {
  }

  lemma InFront(pred: int -> bool, s: seq<int>, shifted: seq<nat>, r: seq<int>)
    requires s != [] && pred(s[0]) && Increasing(shifted) && 0 !in shifted && At(s, shifted, r)
    requires forall k :: 0 < k < |s| ==> (k in shifted <==> pred(s[k]))
    ensures Selects(pred, s, [0] + shifted) && At(s, [0] + shifted, [s[0]] + r)
  {
  }

  const START := State(0, Ranging, Ranging, Ranging, [false, false, false], [], false)

  ghost predicate Enabled(nums: seq<int>, s: State, step: Step) {
    && !s.panicked && |s.closed| == 3
    && match step
       case GenerateSend => s.generate.Ranging? && s.i < |nums| && s.square.Ranging?
       case GenerateClose => s.generate.Ranging? && s.i == |nums|
       case SquareSend => s.square.Sending? && s.filter.Ranging?
       case SquareClose => s.square.Ranging? && s.closed[0]
       case FilterSend => s.filter.Sending?
       case FilterClose => s.filter.Ranging? && s.closed[1]
  }

  ghost function Next(nums: seq<int>, pred: int -> bool, s: State, step: Step): State
    requires Enabled(nums, s, step)
  {
    match step
    case GenerateSend => s.(i := s.i + 1, square := Sending(Squared(nums[s.i])), panicked := s.closed[0])
    case GenerateClose => s.(generate := Ended, closed := s.closed[0 := true], panicked := s.closed[0])
    case SquareSend =>
      s.(square := Ranging, panicked := s.closed[1],
         filter := if pred(s.square.value) then Sending(s.square.value) else Ranging)
    case SquareClose => s.(square := Ended, closed := s.closed[1 := true], panicked := s.closed[1])
    case FilterSend => s.(filter := Ranging, out := s.out + [s.filter.value], panicked := s.closed[2])
    case FilterClose => s.(filter := Ended, closed := s.closed[2 := true], panicked := s.closed[2])
  }

  ghost function Exec(nums: seq<int>, pred: int -> bool, steps: seq<Step>): Option<State> {
    if steps == [] then Some(START)
    else
      match Exec(nums, pred, steps[..|steps| - 1])
      case None => None
      case Some(s) =>
        var step := steps[|steps| - 1];
        if Enabled(nums, s, step) then Some(Next(nums, pred, s, step)) else None
  }

  ghost function InHand(stage: Stage): seq<int> {
    if stage.Sending? then [stage.value] else []
  }

  /** What the consumer has, what the stages hold, and what is still to come make up the whole. */
  ghost predicate Accounted(nums: seq<int>, pred: int -> bool, s: State)
    requires s.i <= |nums|
  {
    s.out + InHand(s.filter) + Filtered(pred, InHand(s.square) + Mapped(nums[s.i..])) == Filtered(pred, Mapped(nums))
  }

  ghost predicate Inv(nums: seq<int>, pred: int -> bool, s: State) {
    && !s.panicked && |s.closed| == 3
    && s.i <= |nums|
    && !s.generate.Sending?
    && (s.closed[0] <==> s.generate.Ended?)
    && (s.closed[1] <==> s.square.Ended?)
    && (s.closed[2] <==> s.filter.Ended?)
    && (s.generate.Ended? ==> s.i == |nums|)
    && (s.square.Ended? ==> s.generate.Ended?)
    && (s.filter.Ended? ==> s.square.Ended?)
    && Accounted(nums, pred, s)
  }

  lemma StepKeepsInv(nums: seq<int>, pred: int -> bool, s: State, step: Step)
    requires Inv(nums, pred, s) && Enabled(nums, s, step)
    ensures Inv(nums, pred, Next(nums, pred, s, step))
  {
    match step
    case GenerateSend =>
      assert nums[s.i..][1..] == nums[s.i + 1..];
      assert [] + Mapped(nums[s.i..]) == [Squared(nums[s.i])] + Mapped(nums[s.i + 1..]);
    case SquareSend =>
      var v, rest := s.square.value, Mapped(nums[s.i..]);
      assert ([v] + rest)[1..] == rest && [] + rest == rest;
      assert s.out + [] + Filtered(pred, [v] + rest) == s.out + (if pred(v) then [v] else []) + Filtered(pred, rest);
    case FilterSend =>
      assert s.out + [s.filter.value] == s.out + [s.filter.value] + [];
    case _ =>
  }

  lemma {:induction false} Invariant(nums: seq<int>, pred: int -> bool, steps: seq<Step>)
    ensures var r := Exec(nums, pred, steps); r.Some? ==> Inv(nums, pred, r.value)
  {
    if steps == [] {
      assert nums[0..] == nums;
      assert [] + Mapped(nums) == Mapped(nums);
      assert [] + [] + Filtered(pred, Mapped(nums)) == Filtered(pred, Mapped(nums));
    } else {
      Invariant(nums, pred, steps[..|steps| - 1]);
      if Exec(nums, pred, steps).Some? {
        StepKeepsInv(nums, pred, Exec(nums, pred, steps[..|steps| - 1]).value, steps[|steps| - 1]);
      }
    }
  }

  ghost predicate Final(s: State) {
    s.generate.Ended? && s.square.Ended? && s.filter.Ended?
  }

  /**
   In every interleaving nothing panics and the output is a prefix of the filtered squares; when the
   last channel is closed it is all of them.
   */
  lemma Determinism(nums: seq<int>, pred: int -> bool, steps: seq<Step>, s: State)
    requires Exec(nums, pred, steps) == Some(s)
    ensures !s.panicked
    ensures s.out <= Filtered(pred, Mapped(nums))
    ensures s.closed[2] ==> Final(s) && s.closed == [true, true, true] && s.out == Filtered(pred, Mapped(nums))
  {
    Invariant(nums, pred, steps);
    if s.closed[2] {
      assert nums[s.i..] == [];
      assert s.out + [] + [] == s.out;
    }
  }

  ghost function StageWork(stage: Stage, sending: nat): nat {
    match stage case Ranging => 1 case Sending(_) => 1 + sending case Ended => 0
  }

  ghost function Remaining(nums: seq<int>, s: State): int {
    3 * (|nums| - s.i) + StageWork(s.generate, 0) + StageWork(s.square, 2) + StageWork(s.filter, 1)
  }

  lemma StepDecreases(nums: seq<int>, pred: int -> bool, s: State, step: Step)
    requires Inv(nums, pred, s) && Enabled(nums, s, step)
    ensures 0 <= Remaining(nums, Next(nums, pred, s, step)) < Remaining(nums, s)
  {
  }

  lemma NoDeadlock(nums: seq<int>, pred: int -> bool, s: State)
    requires Inv(nums, pred, s)
    ensures s.filter.Ended? || exists step :: Enabled(nums, s, step)
  {
    if !s.filter.Ended? {
      assert Enabled(nums, s, FilterSend) || Enabled(nums, s, FilterClose) || Enabled(nums, s, SquareSend)
          || Enabled(nums, s, SquareClose) || Enabled(nums, s, GenerateSend) || Enabled(nums, s, GenerateClose);
    }
  }

  /**
   With a consumer that keeps receiving, a run takes at most 3 * |nums| + 3 steps, and one that can
   go no further has closed every channel and delivered exactly the filtered squares.
   */
  lemma {:induction false} Terminates(nums: seq<int>, pred: int -> bool, steps: seq<Step>, s: State)
    requires Exec(nums, pred, steps) == Some(s)
    ensures 0 <= Remaining(nums, s) && |steps| + Remaining(nums, s) <= 3 * |nums| + 3
    ensures (forall step :: !Enabled(nums, s, step)) ==>
      s.closed == [true, true, true] && s.out == Filtered(pred, Mapped(nums))
  {
    Invariant(nums, pred, steps);
    if steps != [] {
      var before := steps[..|steps| - 1];
      var r := Exec(nums, pred, before).value;
      Terminates(nums, pred, before, r);
      Invariant(nums, pred, before);
      StepDecreases(nums, pred, r, steps[|steps| - 1]);
    }
    NoDeadlock(nums, pred, s);
    Determinism(nums, pred, steps, s);
  }
}
