/**
 What a run of the broker does, told by its steps: which events were published, who subscribed to
 what, who cancelled, what the handlers answered. The functions of the first part look at the steps
 of the run; the theorems tie the state to them.
 */
module EventBrokerRuns {
  import opened EventBroker
  import opened Prelude

  /** The events of the Publish calls, in the order in which they began. */
  ghost function Published(steps: seq<Step>): seq<Event> {
    if steps == [] then []
    else
      var step := steps[|steps| - 1];
      Published(steps[..|steps| - 1]) + (if step.StartPublish? then [step.event] else [])
  }

  /** The topics of the Subscribe calls, in order. */
  ghost function Subscribed(steps: seq<Step>): seq<string> {
    if steps == [] then []
    else
      var step := steps[|steps| - 1];
      Subscribed(steps[..|steps| - 1]) + (if step.Subscribe? then [step.topic] else [])
  }

  /** How often subscription x was cancelled. */
  ghost function Cancels(steps: seq<Step>, x: nat): nat {
    if steps == [] then 0
    else Cancels(steps[..|steps| - 1], x) + (if steps[|steps| - 1] == CancelRemove(x) then 1 else 0)
  }

  /** What the handler of x answered, call by call. */
  ghost function Answers(steps: seq<Step>, x: nat): seq<bool> {
    if steps == [] then []
    else
      var step := steps[|steps| - 1];
      Answers(steps[..|steps| - 1], x) + (if step.Handle? && step.x == x then [step.ok] else [])
  }

  /** Does this step offer an event to x? */
  ghost predicate OffersTo(s: State, step: Step, x: nat) {
    && step.OfferNext? && step.p < |s.publishes|
    && s.publishes[step.p].next < |s.publishes[step.p].targets|
    && s.publishes[step.p].targets[s.publishes[step.p].next] == x
  }

  /** A channel as a line with 100 places: who got in, in order, and how many have been served. */
  datatype Line = Line(accepted: seq<Event>, taken: nat)

  /** The line of x after a run: an event gets in while fewer than 100 are waiting, and else never. */
  ghost function LineOf(steps: seq<Step>, x: nat): Line {
    if steps == [] then Line([], 0)
    else
      var before, step := steps[..|steps| - 1], steps[|steps| - 1];
      var line := LineOf(before, x);
      if step == Receive(x) then line.(taken := line.taken + 1)
      else if Exec(before).Some? && OffersTo(Exec(before).value, step, x) && step.p < |Published(before)| then
        if |line.accepted| - line.taken < 100
        then line.(accepted := line.accepted + [Published(before)[step.p]])
        else line
      else line
  }

  ghost function AllResults(handled: seq<Handled>): seq<bool> {
    if handled == [] then []
    else AllResults(handled[..|handled| - 1]) + handled[|handled| - 1].results
  }

  ghost function Current(w: Worker): seq<bool> {
    if w.Handling? then w.results else []
  }

  // ---- the state keeps what the steps say

  ghost predicate KeepsPublished(steps: seq<Step>, s: State) {
    |s.publishes| == |Published(steps)| && forall p :: 0 <= p < |s.publishes| ==> s.publishes[p].event == Published(steps)[p]
  }

  ghost predicate KeepsSubscribed(steps: seq<Step>, s: State) {
    && |s.subs| == |Subscribed(steps)|
    && forall x :: 0 <= x < |s.subs| ==>
         s.subs[x].topic == Subscribed(steps)[x] && s.subs[x].cancels == Cancels(steps, x)
  }

  /** Before there is a subscriber x, nothing is said about it. */
  ghost predicate NotYet(steps: seq<Step>, x: nat) {
    Cancels(steps, x) == 0 && Answers(steps, x) == [] && LineOf(steps, x) == Line([], 0)
  }

  ghost predicate KeepsAnswers(steps: seq<Step>, x: nat, sub: Subscriber) {
    AllResults(sub.handled) + Current(sub.worker) == Answers(steps, x)
  }

  ghost predicate KeepsLine(steps: seq<Step>, x: nat, sub: Subscriber) {
    && Accepted(sub.offers) == LineOf(steps, x).accepted
    && Served(sub) == LineOf(steps, x).taken
  }

  ghost predicate Keeps(steps: seq<Step>, s: State) {
    && KeepsPublished(steps, s)
    && KeepsSubscribed(steps, s)
    && (forall x :: 0 <= x < |s.subs| ==> KeepsAnswers(steps, x, s.subs[x]) && KeepsLine(steps, x, s.subs[x]))
    && (forall x: nat :: x >= |s.subs| ==> NotYet(steps, x))
  }

  lemma PublishedStep(before: seq<Step>, s: State, step: Step)
    requires KeepsPublished(before, s) && Enabled(s, step)
    ensures KeepsPublished(before + [step], Next(s, step))
  {
  }

  lemma SubscribedStep(before: seq<Step>, s: State, step: Step)
    requires KeepsSubscribed(before, s) && Enabled(s, step) && !Next(s, step).panicked
    requires step.Subscribe? ==> Cancels(before, |s.subs|) == 0
    ensures KeepsSubscribed(before + [step], Next(s, step))
  {
    assert (before + [step])[..|before|] == before;
    var t := Next(s, step);
    forall x | 0 <= x < |t.subs|
      ensures t.subs[x].topic == Subscribed(before + [step])[x] && t.subs[x].cancels == Cancels(before + [step], x)
    {
    }
  }

  /** What a step does to the worker and the histories of one subscriber. */
  ghost predicate SubStep(s: State, step: Step, x: nat, after: Subscriber)
    requires x < |s.subs|
  {
    var sub := s.subs[x];
    if step == Receive(x) then sub.worker.Ranging? && sub.buffer != [] && after == Taken(sub)
    else if step.Handle? && step.x == x then sub.worker.Handling? && after == Tried(sub, step.ok)
    else if OffersTo(s, step, x) then after == Offered(sub, step.p, s.publishes[step.p].event)
    else
      && after.offers == sub.offers && after.handled == sub.handled
      && InHand(after.worker) == InHand(sub.worker) && Current(after.worker) == Current(sub.worker)
  }

  lemma SubStepOf(s: State, step: Step, x: nat)
    requires Enabled(s, step) && !Next(s, step).panicked && x < |s.subs|
    ensures x < |Next(s, step).subs| && SubStep(s, step, x, Next(s, step).subs[x])
  {
  }

  lemma NewSub(s: State, step: Step)
    requires Enabled(s, step) && |Next(s, step).subs| > |s.subs|
    ensures step.Subscribe? && |Next(s, step).subs| == |s.subs| + 1
    ensures Next(s, step).subs[|s.subs|] == Made(step.topic)
  {
  }

  lemma AnswersStep(before: seq<Step>, s: State, step: Step, x: nat, after: Subscriber)
    requires x < |s.subs| && KeepsAnswers(before, x, s.subs[x]) && SubStep(s, step, x, after)
    ensures KeepsAnswers(before + [step], x, after)
  {
    assert (before + [step])[..|before|] == before;
    if step.Handle? && step.x == x {
      TriedResults(s.subs[x], step.ok);
    }
  }

  lemma AllResultsAppended(handled: seq<Handled>, h: Handled)
    ensures AllResults(handled + [h]) == AllResults(handled) + h.results
  {
    assert (handled + [h])[..|handled|] == handled;
  }

  lemma TriedResults(sub: Subscriber, ok: bool)
    requires sub.worker.Handling?
    ensures var after := Tried(sub, ok);
      AllResults(after.handled) + Current(after.worker) == AllResults(sub.handled) + Current(sub.worker) + [ok]
  {
    AllResultsAppended(sub.handled, Handled(sub.worker.event, sub.worker.results + [ok]));
    assert (AllResults(sub.handled) + sub.worker.results) + [ok] == AllResults(sub.handled) + (sub.worker.results + [ok]);
  }

  lemma Waiting(sub: Subscriber)
    requires SubInv(sub)
    ensures |sub.buffer| == |Accepted(sub.offers)| - Served(sub)
  {
  }

  /** How many events the goroutine has taken from the channel. */
  ghost function Served(sub: Subscriber): nat {
    |sub.handled| + |InHand(sub.worker)|
  }

  lemma LineStep(before: seq<Step>, s: State, step: Step, x: nat, after: Subscriber)
    requires Exec(before) == Some(s) && x < |s.subs| && KeepsLine(before, x, s.subs[x]) && SubInv(s.subs[x])
    requires KeepsPublished(before, s) && SubStep(s, step, x, after)
    ensures KeepsLine(before + [step], x, after)
  {
  }

  lemma NotYetStep(before: seq<Step>, s: State, step: Step, x: nat)
    requires Exec(before) == Some(s) && Inv(s) && Enabled(s, step) && x >= |s.subs| && NotYet(before, x)
    ensures NotYet(before + [step], x)
  {
  }

  lemma {:induction false} RunKeeps(steps: seq<Step>, s: State)
    requires Exec(steps) == Some(s)
    ensures Keeps(steps, s)
  {
    if steps != [] {
      var before, step := steps[..|steps| - 1], steps[|steps| - 1];
      var r := Exec(before).value;
      assert steps == before + [step];
      RunKeeps(before, r);
      Invariant(before);
      NoPanic(r, step);
      StepKeeps(before, r, step);
    }
  }

  lemma StepKeeps(before: seq<Step>, s: State, step: Step)
    requires Exec(before) == Some(s) && Keeps(before, s) && Inv(s) && Enabled(s, step) && !Next(s, step).panicked
    ensures Keeps(before + [step], Next(s, step))
  {
    var t := Next(s, step);
    PublishedStep(before, s, step);
    assert NotYet(before, |s.subs|);
    SubscribedStep(before, s, step);
    forall x: nat | x >= |s.subs| ensures NotYet(before + [step], x) {
      assert NotYet(before, x);
      NotYetStep(before, s, step, x);
    }
    forall x | 0 <= x < |t.subs|
      ensures KeepsAnswers(before + [step], x, t.subs[x]) && KeepsLine(before + [step], x, t.subs[x])
    {
      if x < |s.subs| {
        assert KeepsAnswers(before, x, s.subs[x]) && KeepsLine(before, x, s.subs[x]);
        assert SubInv(s.subs[x]);
        SubStepOf(s, step, x);
        AnswersStep(before, s, step, x, t.subs[x]);
        LineStep(before, s, step, x, t.subs[x]);
      } else {
        NewSub(s, step);
        assert NotYet(before + [step], x);
      }
    }
    SubsKept(s, step);
  }

  // ---- delivery

  /**
   Delivery, by the steps: what was handled, what is in hand and what is buffered are, in order, the
   published events that were offered to the subscriber while fewer than 100 were waiting; as many
   have been taken as were received. Each handled event had one to three handler calls, up to the
   first success, and the calls are those the handler answered.
   */
  lemma DeliveryOfRun(steps: seq<Step>, s: State, x: nat)
    requires Exec(steps) == Some(s) && x < |s.subs|
    ensures var sub, line := s.subs[x], LineOf(steps, x);
      && Events(sub.handled) + InHand(sub.worker) + sub.buffer == line.accepted
      && |sub.handled| + |InHand(sub.worker)| == line.taken
      && |sub.buffer| == |line.accepted| - line.taken <= 100
      && (forall h <- sub.handled :: RetriedProperly(h.results))
      && AllResults(sub.handled) + Current(sub.worker) == Answers(steps, x)
  {
    Invariant(steps);
    RunKeeps(steps, s);
    assert SubInv(s.subs[x]);
    assert KeepsAnswers(steps, x, s.subs[x]) && KeepsLine(steps, x, s.subs[x]);
    Waiting(s.subs[x]);
  }

  /** Who is among the targets of a publish has the topic of its event. */
  ghost predicate OnTopic(s: State, p: nat)
    requires p < |s.publishes|
  {
    forall x <- s.publishes[p].targets :: x < |s.subs| && s.subs[x].topic == s.publishes[p].event.topic
  }

  /** A publish keeps its event and its targets, and a subscriber its topic. */
  lemma TargetsFixed(s: State, step: Step, p: nat)
    requires Enabled(s, step) && p < |s.publishes|
    ensures p < |Next(s, step).publishes| && Next(s, step).publishes[p].targets == s.publishes[p].targets
    ensures Next(s, step).publishes[p].event == s.publishes[p].event && |s.subs| <= |Next(s, step).subs|
    ensures forall x :: 0 <= x < |s.subs| ==> Next(s, step).subs[x].topic == s.subs[x].topic
  {
  }

  lemma OnTopicStep(s: State, step: Step, p: nat)
    requires Inv(s) && Enabled(s, step) && p < |Next(s, step).publishes|
    requires p < |s.publishes| ==> OnTopic(s, p)
    ensures OnTopic(Next(s, step), p)
  {
    if p < |s.publishes| {
      TargetsFixed(s, step, p);
    } else if step.event.topic in s.topics {
      assert TopicInv(s, step.event.topic);
    }
  }

  lemma {:induction false} AllOnTopic(steps: seq<Step>, s: State, p: nat)
    requires Exec(steps) == Some(s) && p < |s.publishes|
    ensures OnTopic(s, p)
  {
    if steps != [] {
      var before, step := steps[..|steps| - 1], steps[|steps| - 1];
      var r := Exec(before).value;
      if p < |r.publishes| {
        AllOnTopic(before, r, p);
      }
      Invariant(before);
      OnTopicStep(r, step, p);
    }
  }

  lemma {:induction false} OffersFrom(offers: seq<Offer>, p: nat, i: nat)
    requires i < |offers| && offers[i].publish == p
    ensures OffersOf(offers, p) > 0
  {
    if i < |offers| - 1 {
      OffersFrom(offers[..|offers| - 1], p, i);
    }
  }

  /** Every offer is of a published event, to a subscriber of its topic. */
  lemma OffersAsPublished(steps: seq<Step>, s: State, x: nat, i: nat)
    requires Exec(steps) == Some(s) && x < |s.subs| && i < |s.subs[x].offers|
    ensures var o := s.subs[x].offers[i];
      && o.publish < |Published(steps)| && o.event == Published(steps)[o.publish]
      && x < |Subscribed(steps)| && o.event.topic == Subscribed(steps)[x]
  {
    Invariant(steps);
    RunKeeps(steps, s);
    var p := s.subs[x].offers[i].publish;
    assert OfferedByStarted(s, x);
    assert PublishInv(s, p);
    assert OfferedOnce(s, p, x);
    OffersFrom(s.subs[x].offers, p, i);
    AllOnTopic(steps, s, p);
  }

  lemma {:induction false} AcceptedOffered(offers: seq<Offer>, e: Event)
    requires e in Accepted(offers)
    ensures exists i :: 0 <= i < |offers| && offers[i].event == e
  {
    var last := offers[|offers| - 1];
    if last.buffered < 100 && last.event == e {
      assert offers[|offers| - 1].event == e;
    } else {
      AcceptedOffered(offers[..|offers| - 1], e);
      var i :| 0 <= i < |offers| - 1 && offers[..|offers| - 1][i].event == e;
      assert offers[i].event == e;
    }
  }

  /** Every event a handler is called with is one that was published, on the topic it subscribed to. */
  lemma HandledWasPublished(steps: seq<Step>, s: State, x: nat, e: Event)
    requires Exec(steps) == Some(s) && x < |s.subs|
    requires e in Events(s.subs[x].handled) || e in InHand(s.subs[x].worker)
    ensures e in Published(steps) && x < |Subscribed(steps)| && e.topic == Subscribed(steps)[x]
  {
    Invariant(steps);
    var sub := s.subs[x];
    assert SubInv(sub);
    assert e in Events(sub.handled) + InHand(sub.worker) + sub.buffer;
    AcceptedOffered(sub.offers, e);
    var i :| 0 <= i < |sub.offers| && sub.offers[i].event == e;
    OffersAsPublished(steps, s, x, i);
  }

  // ---- publishing

  lemma {:induction false} TargetsStay(before: seq<Step>, s: State, after: seq<Step>, t: State, p: nat)
    requires Exec(before) == Some(s) && Exec(before + after) == Some(t) && p < |s.publishes|
    ensures p < |t.publishes| && t.publishes[p].targets == s.publishes[p].targets
  {
    if after == [] {
      assert before + after == before;
    } else {
      var rest := after[..|after| - 1];
      assert (before + after)[..|before + after| - 1] == before + rest;
      var r := Exec(before + rest).value;
      TargetsStay(before, s, rest, r, p);
      TargetsFixed(r, after[|after| - 1], p);
    }
  }

  /**
   From start to end: a Publish that has finished has offered its event, and no other, exactly once to
   each subscription that at its start was on its topic, not cancelled and open, and never to any
   other, whatever was interleaved with it.
   */
  lemma PublishOfRun(before: seq<Step>, e: Event, after: seq<Step>, s: State, t: State, x: nat)
    requires Exec(before) == Some(s) && Exec(before + [StartPublish(e)] + after) == Some(t) && x < |t.subs|
    requires |Published(before)| < |t.publishes| && !t.publishes[|Published(before)|].active
    ensures |s.subs| == |Subscribed(before)|
    ensures OffersOf(t.subs[x].offers, |Published(before)|) ==
      if x < |s.subs| && Subscribed(before)[x] == e.topic && Cancels(before, x) == 0 && !s.subs[x].closed then 1 else 0
    ensures CarriesOnly(t.subs[x].offers, |Published(before)|, e)
  {
    var start, p := before + [StartPublish(e)], |Published(before)|;
    RunPrefix(start, after);
    assert start[..|before|] == before;
    RunKeeps(before, s);
    var r := Exec(start).value;
    RunKeeps(start, r);
    TargetsStay(start, r, after, t, p);
    PublishReachesEachOnce(start + after, t, p, x);
    RunKeeps(start + after, t);
    PublishedPrefix(start, after, p);
    if x < |s.subs| {
      PublishFindsAll(before, s, e, x);
      Invariant(before);
      assert SubInv(s.subs[x]);
    } else {
      AllOnTopic(start, r, p);
      assert |r.subs| == |s.subs|;
    }
  }

  lemma {:induction false} RunPrefix(before: seq<Step>, after: seq<Step>)
    requires Exec(before + after).Some?
    ensures Exec(before).Some?
  {
    if after == [] {
      assert before + after == before;
    } else {
      assert (before + after)[..|before + after| - 1] == before + after[..|after| - 1];
      RunPrefix(before, after[..|after| - 1]);
    }
  }

  lemma {:induction false} PublishedPrefix(before: seq<Step>, after: seq<Step>, p: nat)
    requires p < |Published(before)|
    ensures p < |Published(before + after)| && Published(before + after)[p] == Published(before)[p]
  {
    if after == [] {
      assert before + after == before;
    } else {
      assert (before + after)[..|before + after| - 1] == before + after[..|after| - 1];
      PublishedPrefix(before, after[..|after| - 1], p);
    }
  }

  // ---- nobody is stuck

  /** While an accepted event waits for its handler, a started subscriber has a step, Close or not. */
  lemma HandlesOn(steps: seq<Step>, s: State, x: nat)
    requires Exec(steps) == Some(s) && x < |s.subs| && Started(s.subs[x])
    requires |s.subs[x].handled| < |LineOf(steps, x).accepted|
    ensures Enabled(s, Receive(x)) || forall ok :: Enabled(s, Handle(x, ok))
  {
    DeliveryOfRun(steps, s, x);
    Invariant(steps);
    assert SubInv(s.subs[x]);
    StartedMoves(s, x);
  }

  lemma StartedMoves(s: State, x: nat)
    requires !s.panicked && x < |s.subs| && Started(s.subs[x]) && SubInv(s.subs[x])
    requires s.subs[x].buffer != [] || InHand(s.subs[x].worker) != []
    ensures Enabled(s, Receive(x)) || forall ok :: Enabled(s, Handle(x, ok))
  {
  }

  ghost predicate CloseStep(step: Step) {
    step.EnterTopic? || step.CloseNext? || step.UnlockAndWait?
  }

  /**
   The lock excludes and lets on: while a Close holds it no Publish is active and Close has a step; a
   Publish can start whenever no Close holds it, and everything else when no Publish is active either.
   */
  lemma LockRules(steps: seq<Step>, s: State)
    requires Exec(steps) == Some(s)
    ensures !s.lock.Free? ==> NoReaders(s) && exists step :: CloseStep(step) && Enabled(s, step)
    ensures s.lock.Free? ==> forall e :: Enabled(s, StartPublish(e))
    ensures s.lock.Free? && NoReaders(s) ==> forall topic :: Enabled(s, Subscribe(topic))
    ensures s.lock.Free? && NoReaders(s) ==> Enabled(s, LockForClose)
    ensures s.lock.Free? && NoReaders(s) ==>
      forall x :: 0 <= x < |s.subs| && Started(s.subs[x]) ==> Enabled(s, CancelRemove(x))
    ensures forall x :: 0 <= x < |s.subs| && !Started(s.subs[x]) ==> Enabled(s, StartWorker(x))
  {
    Invariant(steps);
    if !s.lock.Free? {
      forall p | 0 <= p < |s.publishes| ensures !s.publishes[p].active {
        assert PublishInv(s, p);
      }
      CloseHasStep(s);
    }
  }

  lemma CloseHasStep(s: State)
    requires Inv(s) && !s.lock.Free?
    ensures exists step :: CloseStep(step) && Enabled(s, step)
  {
    match s.lock
    case InTopic(topic, _) =>
      assert TopicInv(s, topic);
      assert CloseStep(CloseNext) && Enabled(s, CloseNext);
    case BetweenTopics =>
      if s.topics == map[] {
        assert CloseStep(UnlockAndWait) && Enabled(s, UnlockAndWait);
      } else {
        var t :| t in s.topics;
        assert CloseStep(EnterTopic(t)) && Enabled(s, EnterTopic(t));
      }
  }
}
