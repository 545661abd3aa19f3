/**
 FanIn(FanOut(in, n)...) as a network of goroutines over unbuffered channels. A step is one
 channel operation of one goroutine; a send on an unbuffered channel and the matching receive
 are one step. Sending on or closing a closed channel, and i % 0, lead to a panicked state.
 */
module FanOutFanIn {
  import opened Prelude

  datatype Sender =
    | Ranging              // about to receive from `in`
    | Sending(value: int)  // blocked in outs[i % n] <- value
    | Closing(next: nat)   // about to close outs[next]
    | SenderDone

  datatype Forwarder =
    | Receiving
    | Holding(value: int)  // blocked in out <- value
    | ForwarderDone

  /** An element of `out`, tagged with the forwarder that sent it. */
  datatype Item = Item(source: nat, value: int)

  datatype State = State(
    sender: Sender,
    i: nat,                      // values the sender has passed on
    outClosed: seq<bool>,        // per fan-out channel: is it closed
    carried: seq<seq<int>>,      // per fan-out channel: every value sent on it, in order
    forwarders: seq<Forwarder>,  // one per channel; the WaitGroup counts those not done
    received: seq<Item>,         // what the consumer took from `out`
    merged: bool,                // is `out` closed
    panicked: bool
  )

  datatype Step =
    | ReceiveInput   // v, ok := <-in
    | SendOut        // outs[i % n] <- v meets forwarder i % n
    | SendPanics     // i % 0, or a send on a closed channel
    | CloseNext      // close the next fan-out channel, or finish
    | Emit(k: nat)   // out <- v meets the consumer
    | Finish(k: nat) // forwarder k sees its channel closed: wg.Done()
    | CloseMerged    // wg.Wait() returns: close(out)

  ghost function Init(n: nat): State {
    State(Ranging, 0, seq(n, _ => false), seq(n, _ => []), seq(n, _ => Receiving), [], false, false)
  }

  ghost predicate Enabled(input: seq<int>, n: nat, s: State, step: Step)
  {
    && !s.panicked
    && |s.outClosed| == |s.carried| == |s.forwarders| == n
    && match step
       case ReceiveInput => s.sender.Ranging? && s.i <= |input|
       case SendOut =>
         s.sender.Sending? && n > 0 && !s.outClosed[s.i % n] && s.forwarders[s.i % n].Receiving?
       case SendPanics => s.sender.Sending? && (n == 0 || s.outClosed[s.i % n])
       case CloseNext => s.sender.Closing?
       case Emit(k) => k < n && s.forwarders[k].Holding?
       case Finish(k) => k < n && s.forwarders[k].Receiving? && s.outClosed[k]
       case CloseMerged => !s.merged && forall k :: 0 <= k < n ==> s.forwarders[k].ForwarderDone?
  }

  ghost function Next(input: seq<int>, n: nat, s: State, step: Step): State
    requires Enabled(input, n, s, step)
  {
    match step
    case ReceiveInput =>
      s.(sender := if s.i < |input| then Sending(input[s.i]) else Closing(0))
    case SendOut =>
      var k, v := s.i % n, s.sender.value;
      s.(sender := Ranging, i := s.i + 1,
         carried := s.carried[k := s.carried[k] + [v]],
         forwarders := s.forwarders[k := Holding(v)])
    case SendPanics => s.(panicked := true)
    case CloseNext =>
      var k := s.sender.next;
      if k >= n then s.(sender := SenderDone)
      else s.(sender := Closing(k + 1), outClosed := s.outClosed[k := true], panicked := s.outClosed[k])
    case Emit(k) =>
      s.(received := s.received + [Item(k, s.forwarders[k].value)],
         forwarders := s.forwarders[k := Receiving], panicked := s.merged)
    case Finish(k) => s.(forwarders := s.forwarders[k := ForwarderDone])
    case CloseMerged => s.(merged := true)
  }

  /** The state after taking `steps` from the initial state, if they can all be taken. */
  ghost function Exec(input: seq<int>, n: nat, steps: seq<Step>): Option<State> {
    if steps == [] then Some(Init(n))
    else
      match Exec(input, n, steps[..|steps| - 1])
      case None => None
      case Some(s) =>
        var step := steps[|steps| - 1];
        if Enabled(input, n, s, step) then Some(Next(input, n, s, step)) else None
  }

  // ---- what the network promises

  /** The elements of `input` at positions k, k + n, k + 2n, ... */
  ghost function EveryNth(input: seq<int>, n: nat, k: nat): seq<int>
    requires n > 0
  {
    if input == [] then []
    else
      var last := |input| - 1;
      EveryNth(input[..last], n, k) + (if last % n == k then [input[last]] else [])
  }

  /** What forwarder k contributed to `out`. */
  ghost function From(received: seq<Item>, k: nat): seq<int> {
    if received == [] then []
    else
      var last := |received| - 1;
      From(received[..last], k) + (if received[last].source == k then [received[last].value] else [])
  }

  ghost function Values(received: seq<Item>): seq<int> {
    seq(|received|, i requires 0 <= i < |received| => received[i].value)
  }

  ghost function InHand(f: Forwarder): seq<int> {
    if f.Holding? then [f.value] else []
  }

  /** How often `v` is in some forwarder's hand. */
  ghost function Held(fs: seq<Forwarder>, v: int): nat {
    if fs == [] then 0 else (if fs[0] == Holding(v) then 1 else 0) + Held(fs[1..], v)
  }

  ghost predicate Final(s: State) {
    s.sender.SenderDone? && s.merged && forall k :: 0 <= k < |s.forwarders| ==> s.forwarders[k].ForwarderDone?
  }

  // ---- the invariant

  /** How far the sender is, and which channels it has closed. */
  ghost predicate SenderInv(input: seq<int>, n: nat, s: State)
    requires |s.outClosed| == n
  {
    && s.i <= |input|
    && (s.sender.Sending? ==> s.i < |input| && s.sender.value == input[s.i])
    && (s.sender.Closing? || s.sender.SenderDone? ==> s.i == |input|)
    && (s.sender.Closing? ==> s.sender.next <= n)
    && forall k :: 0 <= k < n ==>
         (s.outClosed[k] <==> s.sender.SenderDone? || (s.sender.Closing? && k < s.sender.next))
  }

  /** No forwarder stops before its channel is closed, none is running once `out` is closed. */
  ghost predicate ForwarderInv(n: nat, s: State)
    requires |s.outClosed| == |s.forwarders| == n
  {
    forall k :: 0 <= k < n ==>
      && (s.forwarders[k].ForwarderDone? ==> s.outClosed[k])
      && (s.merged ==> s.forwarders[k].ForwarderDone?)
  }

  /** Channel k got its share of what was passed on, and its forwarder delivers it in order. */
  ghost predicate ChannelInv(input: seq<int>, n: nat, s: State, k: nat)
    requires s.i <= |input| && k < |s.carried| == |s.forwarders| == n
  {
    && s.carried[k] == EveryNth(input[..s.i], n, k)
    && From(s.received, k) + InHand(s.forwarders[k]) == s.carried[k]
  }

  /** Every copy of `v` passed on is with the consumer or in one forwarder's hand. */
  ghost predicate Conserved(input: seq<int>, s: State, v: int)
    requires s.i <= |input|
  {
    Count(Values(s.received), v) + Held(s.forwarders, v) == Count(input[..s.i], v)
  }

  ghost predicate Inv(input: seq<int>, n: nat, s: State) {
    && |s.outClosed| == |s.carried| == |s.forwarders| == n
    && (n == 0 ==> s.i == 0)
    && SenderInv(input, n, s)
    && ForwarderInv(n, s)
    && (forall k :: 0 <= k < n ==> ChannelInv(input, n, s, k))
    && (forall v :: Conserved(input, s, v))
    && (s.panicked ==> n == 0 && input != [])
  }

  lemma {:induction false} HeldUpdate(fs: seq<Forwarder>, k: nat, f: Forwarder, v: int)
    requires k < |fs|
    ensures Held(fs[k := f], v) + (if fs[k] == Holding(v) then 1 else 0) ==
            Held(fs, v) + (if f == Holding(v) then 1 else 0)
  {
    if k == 0 {
      assert fs[k := f][1..] == fs[1..];
    } else {
      assert fs[k := f][1..] == fs[1..][k - 1 := f];
      HeldUpdate(fs[1..], k - 1, f, v);
    }
  }

  lemma {:induction false} NoneHeld(fs: seq<Forwarder>, v: int)
    requires forall k :: 0 <= k < |fs| ==> !fs[k].Holding?
    ensures Held(fs, v) == 0
  {
    if fs != [] {
      NoneHeld(fs[1..], v);
    }
  }

  lemma InitInv(input: seq<int>, n: nat)
    ensures Inv(input, n, Init(n))
  {
    assert input[..0] == [];
    forall v ensures Conserved(input, Init(n), v) {
      NoneHeld(Init(n).forwarders, v);
    }
  }

  lemma EveryNthAppended(input: seq<int>, n: nat, i: nat, k: nat)
    requires n > 0 && i < |input|
    ensures EveryNth(input[..i + 1], n, k) ==
            EveryNth(input[..i], n, k) + (if i % n == k then [input[i]] else [])
  {
    assert input[..i + 1][..i] == input[..i];
  }

  lemma SendKeepsChannels(input: seq<int>, n: nat, s: State, j: nat)
    requires Inv(input, n, s) && Enabled(input, n, s, SendOut) && j < n
    ensures ChannelInv(input, n, Next(input, n, s, SendOut), j)
  {
    EveryNthAppended(input, n, s.i, j);
    assert ChannelInv(input, n, s, j);
  }

  lemma SendKeepsConserved(input: seq<int>, n: nat, s: State, v: int)
    requires Inv(input, n, s) && Enabled(input, n, s, SendOut)
    ensures Conserved(input, Next(input, n, s, SendOut), v)
  {
    assert Conserved(input, s, v);
    assert input[..s.i + 1] == input[..s.i] + [s.sender.value];
    CountAppended(input[..s.i], s.sender.value, v);
    HeldUpdate(s.forwarders, s.i % n, Holding(s.sender.value), v);
  }

  lemma EmitKeepsChannels(input: seq<int>, n: nat, s: State, k: nat, j: nat)
    requires Inv(input, n, s) && Enabled(input, n, s, Emit(k)) && j < n
    ensures ChannelInv(input, n, Next(input, n, s, Emit(k)), j)
  {
    assert ChannelInv(input, n, s, j);
  }

  lemma EmitKeepsConserved(input: seq<int>, n: nat, s: State, k: nat, v: int)
    requires Inv(input, n, s) && Enabled(input, n, s, Emit(k))
    ensures Conserved(input, Next(input, n, s, Emit(k)), v)
  {
    var w, t := s.forwarders[k].value, Next(input, n, s, Emit(k));
    assert Conserved(input, s, v);
    assert Values(t.received) == Values(s.received) + [w];
    CountAppended(Values(s.received), w, v);
    HeldUpdate(s.forwarders, k, Receiving, v);
  }

  lemma StepKeepsContents(input: seq<int>, n: nat, s: State, step: Step)
    requires Inv(input, n, s) && Enabled(input, n, s, step)
    ensures var t := Next(input, n, s, step);
      && t.i <= |input| && |t.carried| == |t.forwarders| == n
      && (forall j :: 0 <= j < n ==> ChannelInv(input, n, t, j))
      && forall v :: Conserved(input, t, v)
  {
    var t := Next(input, n, s, step);
    forall j | 0 <= j < n ensures ChannelInv(input, n, t, j) {
      assert ChannelInv(input, n, s, j);
      match step
      case SendOut => SendKeepsChannels(input, n, s, j);
      case Emit(k) => EmitKeepsChannels(input, n, s, k, j);
      case _ =>
    }
    forall v ensures Conserved(input, t, v) {
      assert Conserved(input, s, v);
      match step
      case SendOut => SendKeepsConserved(input, n, s, v);
      case Emit(k) => EmitKeepsConserved(input, n, s, k, v);
      case Finish(k) => HeldUpdate(s.forwarders, k, ForwarderDone, v);
      case _ =>
    }
  }

  lemma StepKeepsInv(input: seq<int>, n: nat, s: State, step: Step)
    requires Inv(input, n, s) && Enabled(input, n, s, step)
    ensures Inv(input, n, Next(input, n, s, step))
  {
    StepKeepsContents(input, n, s, step);
  }

  lemma {:induction false} Invariant(input: seq<int>, n: nat, steps: seq<Step>)
    ensures var r := Exec(input, n, steps); r.Some? ==> Inv(input, n, r.value)
  {
    if steps == [] {
      InitInv(input, n);
    } else {
      var before := steps[..|steps| - 1];
      Invariant(input, n, before);
      if Exec(input, n, steps).Some? {
        StepKeepsInv(input, n, Exec(input, n, before).value, steps[|steps| - 1]);
      }
    }
  }

  // ---- main results

  /**
   In every run channel k carries input positions k, k + n, ... in order and the consumer gets
   them in that order; when `out` is closed it has delivered a permutation of the whole input.
   */
  lemma Conservation(input: seq<int>, n: nat, steps: seq<Step>, s: State)
    requires n > 0 && Exec(input, n, steps) == Some(s)
    ensures s.i <= |input| && |s.carried| == n
    ensures forall k :: 0 <= k < n ==> s.carried[k] == EveryNth(input[..s.i], n, k)
    ensures forall k :: 0 <= k < n ==> From(s.received, k) <= s.carried[k]
    ensures forall v :: Count(Values(s.received), v) <= Count(input[..s.i], v)
    ensures s.merged ==> multiset(Values(s.received)) == multiset(input)
    ensures s.merged ==> forall k :: 0 <= k < n ==> From(s.received, k) == EveryNth(input, n, k)
  {
    Invariant(input, n, steps);
    forall k | 0 <= k < n ensures s.carried[k] == EveryNth(input[..s.i], n, k)
                                  && From(s.received, k) <= s.carried[k] {
      assert ChannelInv(input, n, s, k);
    }
    forall v ensures Count(Values(s.received), v) <= Count(input[..s.i], v) {
      assert Conserved(input, s, v);
    }
    if s.merged {
      Delivered(input, n, s);
    }
  }

  lemma Delivered(input: seq<int>, n: nat, s: State)
    requires n > 0 && Inv(input, n, s) && s.merged
    ensures multiset(Values(s.received)) == multiset(input)
    ensures forall k :: 0 <= k < n ==> From(s.received, k) == EveryNth(input, n, k)
  {
    assert s.forwarders[0].ForwarderDone?;
    assert input[..s.i] == input;
    forall v ensures Count(Values(s.received), v) == Count(input, v) {
      assert Conserved(input, s, v);
      NoneHeld(s.forwarders, v);
    }
    EqualCounts(Values(s.received), input);
    forall k | 0 <= k < n ensures From(s.received, k) == EveryNth(input, n, k) {
      assert ChannelInv(input, n, s, k);
      assert InHand(s.forwarders[k]) == [];
    }
  }

  /** Input position of the j-th element of channel k. */
  ghost function Slot(n: nat, k: nat, j: nat): nat {
    k + j * n
  }

  /** EveryNth says what it should: its elements are the input positions k + j * n, all of them. */
  lemma {:induction false} EveryNthAt(input: seq<int>, n: nat, k: nat)
    requires k < n
    ensures var m := |EveryNth(input, n, k)|;
      |input| <= Slot(n, k, m) && (m > 0 ==> Slot(n, k, m - 1) < |input|)
    ensures forall j :: 0 <= j < |EveryNth(input, n, k)| ==>
      Slot(n, k, j) < |input| && EveryNth(input, n, k)[j] == input[Slot(n, k, j)]
  {
    if input != [] {
      var last := |input| - 1;
      var before := EveryNth(input[..last], n, k);
      EveryNthAt(input[..last], n, k);
      NextMultiple(last, n, k, |before|);
      NextSlot(n, k, |before|);
      var r := EveryNth(input, n, k);
      forall j | 0 <= j < |r| ensures Slot(n, k, j) < |input| && r[j] == input[Slot(n, k, j)] {
        if j < |before| {
          assert r[j] == before[j];
        }
      }
    }
  }

  lemma NextSlot(n: nat, k: nat, j: nat)
    ensures Slot(n, k, j + 1) == Slot(n, k, j) + n
  {
  }

  lemma NextMultiple(i: nat, n: nat, k: nat, m: nat)
    requires k < n && i <= Slot(n, k, m) && (m > 0 ==> Slot(n, k, m - 1) < i)
    ensures i % n == k <==> i == Slot(n, k, m)
  {
    if m == 0 {
      DivModUnique(i, n, 0, i);
    } else {
      NextSlot(n, k, m - 1);
      BetweenSlots(i, n, k, m - 1, i - Slot(n, k, m - 1));
    }
  }

  lemma BetweenSlots(i: nat, n: nat, k: nat, m: nat, d: nat)
    requires k < n && 0 < d <= n && i == Slot(n, k, m) + d
    ensures i % n == k <==> d == n
  {
    ModPlusMultiple(k + d, m, n);
    Within(k + d, n, k);
  }

  lemma Within(a: nat, n: nat, k: nat)
    requires k < a <= k + n && k < n
    ensures a % n == k <==> a == k + n
  {
  }

  ghost predicate CanPanic(input: seq<int>, n: nat) {
    exists steps :: var r := Exec(input, n, steps); r.Some? && r.value.panicked
  }

  /** A panic can happen exactly when there are no channels to send on and something to send. */
  lemma PanicExactlyWithoutChannels(input: seq<int>, n: nat)
    ensures CanPanic(input, n) <==> n == 0 && input != []
  {
    if n == 0 && input != [] {
      var steps := [ReceiveInput, SendPanics];
      assert steps[..1] == [ReceiveInput] && [ReceiveInput][..0] == [];
      assert Exec(input, n, []) == Some(Init(n));
      var s := Init(n).(sender := Sending(input[0]));
      assert Exec(input, n, [ReceiveInput]) == Some(s);
      assert Exec(input, n, steps) == Some(s.(panicked := true));
    }
    if CanPanic(input, n) {
      var steps :| var r := Exec(input, n, steps); r.Some? && r.value.panicked;
      Invariant(input, n, steps);
    }
  }

  /** Channel operations still to come, counted per goroutine. */
  ghost function Remaining(input: seq<int>, n: nat, s: State): int {
    SenderWork(input, n, s) + ForwarderWork(s.forwarders) + (if s.merged then 0 else 1)
  }

  ghost function SenderWork(input: seq<int>, n: nat, s: State): int {
    match s.sender
    case Ranging => 3 * (|input| - s.i) + n + 2
    case Sending(_) => 3 * (|input| - s.i) + n + 1
    case Closing(k) => n + 1 - k
    case SenderDone => 0
  }

  ghost function ForwarderWork(fs: seq<Forwarder>): nat {
    if fs == [] then 0
    else (match fs[0] case Receiving => 1 case Holding(_) => 2 case ForwarderDone => 0) + ForwarderWork(fs[1..])
  }

  lemma {:induction false} ForwarderWorkUpdate(fs: seq<Forwarder>, k: nat, f: Forwarder)
    requires k < |fs|
    ensures ForwarderWork(fs[k := f]) + ForwarderWork([fs[k]]) == ForwarderWork(fs) + ForwarderWork([f])
  {
    if k == 0 {
      assert fs[k := f][1..] == fs[1..];
    } else {
      assert fs[k := f][1..] == fs[1..][k - 1 := f];
      ForwarderWorkUpdate(fs[1..], k - 1, f);
    }
  }

  /** Each step leaves strictly less to do, so no run is longer than the work of the initial state. */
  lemma StepDecreases(input: seq<int>, n: nat, s: State, step: Step)
    requires Inv(input, n, s) && Enabled(input, n, s, step) && !Next(input, n, s, step).panicked
    ensures 0 <= Remaining(input, n, Next(input, n, s, step)) < Remaining(input, n, s)
  {
    StepKeepsInv(input, n, s, step);
    match step
    case SendOut => ForwarderWorkUpdate(s.forwarders, s.i % n, Holding(s.sender.value));
    case Emit(k) => ForwarderWorkUpdate(s.forwarders, k, Receiving);
    case Finish(k) => ForwarderWorkUpdate(s.forwarders, k, ForwarderDone);
    case _ =>
  }

  /** With a consumer that keeps receiving, only the final state has no next step. */
  lemma NoDeadlock(input: seq<int>, n: nat, s: State)
    requires Inv(input, n, s) && !s.panicked
    ensures Final(s) || exists step :: Enabled(input, n, s, step)
  {
    match s.sender
    case Ranging => assert Enabled(input, n, s, ReceiveInput);
    case Closing(_) => assert Enabled(input, n, s, CloseNext);
    case Sending(_) =>
      if n == 0 {
        assert Enabled(input, n, s, SendPanics);
      } else {
        assert Enabled(input, n, s, SendOut) || Enabled(input, n, s, Emit(s.i % n));
      }
    case SenderDone =>
      if k :| 0 <= k < n && !s.forwarders[k].ForwarderDone? {
        assert Enabled(input, n, s, Emit(k)) || Enabled(input, n, s, Finish(k));
      } else {
        assert s.merged || Enabled(input, n, s, CloseMerged);
      }
  }

  /**
   Progress: a run takes at most 3 * |input| + 2 * n + 3 steps, and one that can go no further has
   every goroutine finished and `out` closed on a permutation of the input.
   */
  lemma {:induction false} Progress(input: seq<int>, n: nat, steps: seq<Step>, s: State)
    requires n > 0 && Exec(input, n, steps) == Some(s)
    ensures |steps| + Remaining(input, n, s) <= 3 * |input| + 2 * n + 3
    ensures 0 <= Remaining(input, n, s)
    ensures (forall step :: !Enabled(input, n, s, step)) ==>
      Final(s) && multiset(Values(s.received)) == multiset(input)
  {
    Invariant(input, n, steps);
    if steps == [] {
      FreshWork(s.forwarders);
    } else {
      var before := steps[..|steps| - 1];
      Progress(input, n, before, Exec(input, n, before).value);
      Invariant(input, n, before);
      StepDecreases(input, n, Exec(input, n, before).value, steps[|steps| - 1]);
    }
    NoDeadlock(input, n, s);
    Conservation(input, n, steps, s);
  }

  lemma {:induction false} FreshWork(fs: seq<Forwarder>)
    requires forall k :: 0 <= k < |fs| ==> fs[k].Receiving?
    ensures ForwarderWork(fs) == |fs|
  {
    if fs != [] {
      FreshWork(fs[1..]);
    }
  }
}
