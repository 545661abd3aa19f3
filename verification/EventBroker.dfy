/**
 The in-memory event broker as a step relation. Any number of Publish, Subscribe, cancel and
 Close calls and of subscriber goroutines interleave; a step is what one of them does between two
 points where another may act. Publish holds the read lock while it offers its event subscriber
 by subscriber; the critical sections of Subscribe and cancel are one step each; Close holds the
 write lock while it closes channel after channel. Receives, and the close at the end of a
 cancel, need no lock. A send on, or a close of, a closed channel leads to a panicked state.
 */
module EventBroker {
  import opened Prelude
  import opened Sums

  const BUFFER := 100
  const MAX_ATTEMPTS := 3

  datatype Event = Event(topic: string, key: string, value: string, timestamp: int)

  datatype Worker =
    | NotStarted                                   // Subscribe has not reached wg.Add and go
    | Ranging                                      // at `range sub.ch`
    | Handling(event: Event, results: seq<bool>)   // in the retry loop; one result per call so far
    | Stopped                                      // range ended, wg.Done called

  /** One pass of Publish's select over a channel that held `buffered` events. */
  datatype Offer = Offer(publish: nat, event: Event, buffered: nat)

  /** An event the goroutine is done with, and how each handler call on it ended. */
  datatype Handled = Handled(event: Event, results: seq<bool>)

  datatype Subscriber = Subscriber(
    topic: string,
    buffer: seq<Event>,
    closed: bool,
    worker: Worker,
    offers: seq<Offer>,      // history: everything Publish tried to send here
    handled: seq<Handled>,   // history: everything the handler is done with
    cancels: nat,            // how many cancel calls have left their critical section
    closing: nat,            // how many of those still have to close the channel
    swept: bool              // a Close has closed the channel
  )

  datatype Publish = Publish(event: Event, targets: seq<nat>, next: nat, active: bool)

  datatype WriteLock = Free | BetweenTopics | InTopic(topic: string, next: nat)

  datatype State = State(
    subs: seq<Subscriber>,          // every subscriber ever made; its index is its identity
    topics: map<string, seq<nat>>,  // b.subscribers
    publishes: seq<Publish>,        // every Publish call; the active ones hold the read lock
    lock: WriteLock,                // held by a Close that is still closing channels
    waiting: nat,                   // Close calls in wg.Wait()
    returned: nat,                  // Close calls that have returned
    panicked: bool
  )

  datatype Step =
    | StartPublish(event: Event)
    | OfferNext(p: nat)
    | EndPublish(p: nat)
    | Subscribe(topic: string)
    | StartWorker(x: nat)
    | CancelRemove(x: nat)
    | CancelClose(x: nat)
    | LockForClose
    | EnterTopic(t: string)
    | CloseNext
    | UnlockAndWait
    | CloseReturns
    | Receive(x: nat)
    | Handle(x: nat, ok: bool)
    | StopWorker(x: nat)

  // ---- what each step does to one subscriber

  ghost function Made(topic: string): Subscriber {
    Subscriber(topic, [], false, NotStarted, [], [], 0, 0, false)
  }

  /** select { case sub.ch <- evt: default: } on an open channel. */
  ghost function Offered(sub: Subscriber, p: nat, e: Event): Subscriber {
    sub.(offers := sub.offers + [Offer(p, e, |sub.buffer|)],
         buffer := if |sub.buffer| < BUFFER then sub.buffer + [e] else sub.buffer)
  }

  ghost function Taken(sub: Subscriber): Subscriber
    requires sub.buffer != []
  {
    sub.(buffer := sub.buffer[1..], worker := Handling(sub.buffer[0], []))
  }

  /** One handler call: stop at the first success, give up after the third failure. */
  ghost function Tried(sub: Subscriber, ok: bool): Subscriber
    requires sub.worker.Handling?
  {
    var e, results := sub.worker.event, sub.worker.results + [ok];
    if ok || |results| == MAX_ATTEMPTS
    then sub.(worker := Ranging, handled := sub.handled + [Handled(e, results)])
    else sub.(worker := Handling(e, results))
  }

  // ---- the steps

  ghost predicate NoReaders(s: State) {
    forall p :: 0 <= p < |s.publishes| ==> !s.publishes[p].active
  }

  ghost function Listed(s: State, topic: string): seq<nat> {
    if topic in s.topics then s.topics[topic] else []
  }

  ghost predicate Enabled(s: State, step: Step)
  {
    && !s.panicked
    && match step
       case StartPublish(_) => s.lock.Free?
       case OfferNext(p) =>
         && p < |s.publishes| && s.publishes[p].active && s.publishes[p].next < |s.publishes[p].targets|
         && s.publishes[p].targets[s.publishes[p].next] < |s.subs|
       case EndPublish(p) =>
         p < |s.publishes| && s.publishes[p].active && s.publishes[p].next == |s.publishes[p].targets|
       case Subscribe(_) => s.lock.Free? && NoReaders(s)
       case StartWorker(x) => x < |s.subs| && s.subs[x].worker.NotStarted?
       case CancelRemove(x) => s.lock.Free? && NoReaders(s) && x < |s.subs| && !s.subs[x].worker.NotStarted?
       case CancelClose(x) => x < |s.subs| && s.subs[x].closing > 0
       case LockForClose => s.lock.Free? && NoReaders(s)
       case EnterTopic(t) => s.lock.BetweenTopics? && t in s.topics
       case CloseNext =>
         && s.lock.InTopic? && s.lock.topic in s.topics
         && (s.lock.next < |s.topics[s.lock.topic]| ==> s.topics[s.lock.topic][s.lock.next] < |s.subs|)
       case UnlockAndWait => s.lock.BetweenTopics? && s.topics == map[]
       case CloseReturns =>
         && s.waiting > 0
         && forall x :: 0 <= x < |s.subs| ==> s.subs[x].worker.NotStarted? || s.subs[x].worker.Stopped?
       case Receive(x) => x < |s.subs| && s.subs[x].worker.Ranging? && s.subs[x].buffer != []
       case Handle(x, _) => x < |s.subs| && s.subs[x].worker.Handling?
       case StopWorker(x) => x < |s.subs| && s.subs[x].worker.Ranging? && s.subs[x].buffer == [] && s.subs[x].closed
  }

  ghost function Updated(s: State, x: nat, sub: Subscriber): State
    requires x < |s.subs|
  {
    s.(subs := s.subs[x := sub])
  }

  ghost function RemoveFirst(list: seq<nat>, x: nat): seq<nat> {
    if list == [] then []
    else if list[0] == x then list[1..]
    else [list[0]] + RemoveFirst(list[1..], x)
  }

  ghost function Next(s: State, step: Step): State
    requires Enabled(s, step)
  {
    match step
    case StartPublish(e) => s.(publishes := s.publishes + [Publish(e, Listed(s, e.topic), 0, true)])
    case OfferNext(p) =>
      var pub := s.publishes[p];
      var x := pub.targets[pub.next];
      var t := s.(publishes := s.publishes[p := pub.(next := pub.next + 1)]);
      if s.subs[x].closed then t.(panicked := true)
      else Updated(t, x, Offered(s.subs[x], p, pub.event))
    case EndPublish(p) => s.(publishes := s.publishes[p := s.publishes[p].(active := false)])
    case Subscribe(topic) =>
      s.(subs := s.subs + [Made(topic)], topics := s.topics[topic := Listed(s, topic) + [|s.subs|]])
    case StartWorker(x) => Updated(s, x, s.subs[x].(worker := Ranging))
    case CancelRemove(x) =>
      var topic := s.subs[x].topic;
      var t := Updated(s, x, s.subs[x].(cancels := s.subs[x].cancels + 1, closing := s.subs[x].closing + 1));
      if x in Listed(s, topic) then t.(topics := s.topics[topic := RemoveFirst(s.topics[topic], x)]) else t
    case CancelClose(x) =>
      Updated(s, x, s.subs[x].(closed := true, closing := s.subs[x].closing - 1)).(panicked := s.subs[x].closed)
    case LockForClose => s.(lock := BetweenTopics)
    case EnterTopic(t) => s.(lock := InTopic(t, 0))
    case CloseNext =>
      var topic, j := s.lock.topic, s.lock.next;
      if j < |s.topics[topic]| then
        var x := s.topics[topic][j];
        Updated(s, x, s.subs[x].(closed := true, swept := true))
          .(lock := InTopic(topic, j + 1), panicked := s.subs[x].closed)
      else s.(lock := BetweenTopics, topics := s.topics - {topic})
    case UnlockAndWait => s.(lock := Free, waiting := s.waiting + 1)
    case CloseReturns => s.(waiting := s.waiting - 1, returned := s.returned + 1)
    case Receive(x) => Updated(s, x, Taken(s.subs[x]))
    case Handle(x, ok) => Updated(s, x, Tried(s.subs[x], ok))
    case StopWorker(x) => Updated(s, x, s.subs[x].(worker := Stopped))
  }

  const START := State([], map[], [], Free, 0, 0, false)

  /**
   What the broker asks of its users: cancel is called at most once per subscription, and takes
   the lock before a Close does.
   */
  ghost predicate Disciplined(s: State, step: Step) {
    step.CancelRemove? && step.x < |s.subs| ==> s.subs[step.x].cancels == 0 && !s.subs[step.x].swept
  }

  /** The state after a run of disciplined steps, if they can all be taken. */
  ghost function Exec(steps: seq<Step>): Option<State> {
    if steps == [] then Some(START)
    else
      match Exec(steps[..|steps| - 1])
      case None => None
      case Some(s) =>
        var step := steps[|steps| - 1];
        if Enabled(s, step) && Disciplined(s, step) then Some(Next(s, step)) else None
  }

  // ---- per-subscriber invariant

  /** The events that found room, in the order they were offered. */
  ghost function Accepted(offers: seq<Offer>): seq<Event> {
    if offers == [] then []
    else
      var last := offers[|offers| - 1];
      Accepted(offers[..|offers| - 1]) + (if last.buffered < 100 then [last.event] else [])
  }

  ghost function Events(handled: seq<Handled>): seq<Event> {
    seq(|handled|, i requires 0 <= i < |handled| => handled[i].event)
  }

  ghost function InHand(w: Worker): seq<Event> {
    if w.Handling? then [w.event] else []
  }

  /** One to three handler calls, all but the last failed, and a failed last one is the third. */
  ghost predicate RetriedProperly(results: seq<bool>) {
    && 1 <= |results| <= 3
    && (forall i :: 0 <= i < |results| - 1 ==> !results[i])
    && (results[|results| - 1] || |results| == 3)
  }

  ghost predicate Failing(results: seq<bool>) {
    |results| < MAX_ATTEMPTS && forall i :: 0 <= i < |results| ==> !results[i]
  }

  ghost predicate SubInv(sub: Subscriber) {
    && |sub.buffer| <= BUFFER
    && Events(sub.handled) + InHand(sub.worker) + sub.buffer == Accepted(sub.offers)
    && (forall h <- sub.handled :: RetriedProperly(h.results))
    && (sub.worker.Handling? ==> Failing(sub.worker.results))
    && (sub.worker.Stopped? ==> sub.closed && sub.buffer == [])
    && (sub.worker.NotStarted? ==> sub.cancels == 0 && sub.handled == [])
    && sub.closing <= sub.cancels <= 1
    && (sub.swept ==> sub.cancels == 0)
    && (sub.closed <==> sub.swept || (sub.cancels == 1 && sub.closing == 0))
  }

  lemma OfferedKeepsInv(sub: Subscriber, p: nat, e: Event)
    requires SubInv(sub) && !sub.closed
    ensures SubInv(Offered(sub, p, e))
  {
  }

  lemma TakenKeepsInv(sub: Subscriber)
    requires SubInv(sub) && sub.worker.Ranging? && sub.buffer != []
    ensures SubInv(Taken(sub))
  {
  }

  lemma TriedKeepsInv(sub: Subscriber, ok: bool)
    requires SubInv(sub) && sub.worker.Handling?
    ensures SubInv(Tried(sub, ok))
  {
  }

  /** The retry loop for one event on its own; `outcome(k)` says whether handler call k succeeds. */
  method CallHandler(outcome: nat -> bool) returns (results: seq<bool>)
    ensures RetriedProperly(results)
    ensures forall i :: 0 <= i < |results| ==> results[i] == outcome(i)
  {
    results := [];
    for attempt := 0 to MAX_ATTEMPTS
      invariant |results| == attempt
      invariant forall i :: 0 <= i < attempt ==> !results[i] && !outcome(i)
    {
      results := results + [outcome(attempt)];
      if outcome(attempt) {
        break;
      }
    }
  }

  /** The step-by-step retries of the protocol make the calls that the loop makes. */
  lemma {:induction false} TriedAsLoop(sub: Subscriber, outcome: nat -> bool, results: seq<bool>, done: nat)
    requires RetriedProperly(results) && forall i :: 0 <= i < |results| ==> results[i] == outcome(i)
    requires done < |results| && sub.worker.Handling? && sub.worker.results == results[..done]
    ensures var last := TriedUntilDone(sub, outcome);
      last.worker.Ranging? && last.handled == sub.handled + [Handled(sub.worker.event, results)]
    decreases |results| - done
  {
    assert results[..done + 1] == results[..done] + [results[done]];
    if done + 1 < |results| {
      assert !results[done];
      TriedAsLoop(Tried(sub, outcome(done)), outcome, results, done + 1);
    } else {
      assert results[..done + 1] == results;
    }
  }

  /** Handler calls on the event in hand until the goroutine is done with it. */
  ghost function TriedUntilDone(sub: Subscriber, outcome: nat -> bool): Subscriber
    decreases if sub.worker.Handling? then MAX_ATTEMPTS - |sub.worker.results| else -1
  {
    if sub.worker.Handling? && |sub.worker.results| < MAX_ATTEMPTS
    then TriedUntilDone(Tried(sub, outcome(|sub.worker.results|)), outcome)
    else sub
  }

  ghost predicate SubsInv(s: State) {
    forall x :: 0 <= x < |s.subs| ==> SubInv(s.subs[x])
  }

  // ---- the topic map

  /** The channels of this topic that a running Close has already closed. */
  ghost function Swept(s: State, topic: string): nat {
    if s.lock.InTopic? && s.lock.topic == topic then s.lock.next else 0
  }

  ghost predicate TopicInv(s: State, t: string)
    requires t in s.topics
  {
    var list := s.topics[t];
    && Distinct(list)
    && Swept(s, t) <= |list|
    && forall i :: 0 <= i < |list| ==>
         && list[i] < |s.subs| && s.subs[list[i]].topic == t && s.subs[list[i]].cancels == 0
         && (s.subs[list[i]].swept <==> i < Swept(s, t))
  }

  /** A subscription is in the map until it is cancelled or swept. */
  ghost predicate ListedInv(s: State, x: nat)
    requires x < |s.subs|
  {
    s.subs[x].cancels == 0 && !s.subs[x].swept ==> x in Listed(s, s.subs[x].topic)
  }

  ghost predicate MapInv(s: State) {
    && (forall t <- s.topics :: TopicInv(s, t))
    && (forall x :: 0 <= x < |s.subs| ==> ListedInv(s, x))
    && (s.lock.InTopic? ==> s.lock.topic in s.topics)
  }

  // ---- publishing

  /** How many of these offers publish p made. */
  ghost function OffersOf(offers: seq<Offer>, p: nat): nat {
    if offers == [] then 0
    else OffersOf(offers[..|offers| - 1], p) + (if offers[|offers| - 1].publish == p then 1 else 0)
  }

  /** The offers that publish p made carry its event. */
  ghost predicate CarriesOnly(offers: seq<Offer>, p: nat, e: Event) {
    forall i :: 0 <= i < |offers| && offers[i].publish == p ==> offers[i].event == e
  }

  /** While it runs, a publish goes through the list that the map holds for its topic. */
  ghost predicate TargetsInv(s: State, p: nat)
    requires p < |s.publishes|
  {
    var pub := s.publishes[p];
    && pub.next <= |pub.targets|
    && Distinct(pub.targets)
    && (forall i :: 0 <= i < |pub.targets| ==> pub.targets[i] < |s.subs|)
    && (pub.active ==> s.lock.Free? && pub.targets == Listed(s, pub.event.topic))
    && (!pub.active ==> pub.next == |pub.targets|)
  }

  ghost predicate PublishInv(s: State, p: nat)
    requires p < |s.publishes|
  {
    TargetsInv(s, p) && forall x :: 0 <= x < |s.subs| ==> OfferedOnce(s, p, x)
  }

  /** Publish p has offered its event to x once if x is among the targets it has passed, else never. */
  ghost predicate OfferedOnce(s: State, p: nat, x: nat)
    requires p < |s.publishes| && x < |s.subs| && s.publishes[p].next <= |s.publishes[p].targets|
  {
    var pub := s.publishes[p];
    && OffersOf(s.subs[x].offers, p) == (if x in pub.targets[..pub.next] then 1 else 0)
    && CarriesOnly(s.subs[x].offers, p, pub.event)
  }

  /** Offers are made only by publishes that have started. */
  ghost predicate OfferedByStarted(s: State, x: nat)
    requires x < |s.subs|
  {
    forall i :: 0 <= i < |s.subs[x].offers| ==> s.subs[x].offers[i].publish < |s.publishes|
  }

  ghost predicate PublishesInv(s: State) {
    && (forall p :: 0 <= p < |s.publishes| ==> PublishInv(s, p))
    && forall x :: 0 <= x < |s.subs| ==> OfferedByStarted(s, x)
  }

  ghost predicate Inv(s: State) {
    !s.panicked && SubsInv(s) && MapInv(s) && PublishesInv(s)
  }

  // ---- no step panics

  lemma NoPanic(s: State, step: Step)
    requires Inv(s) && Enabled(s, step) && Disciplined(s, step)
    ensures !Next(s, step).panicked
  {
    match step
    case OfferNext(p) =>
      var pub := s.publishes[p];
      var x := pub.targets[pub.next];
      assert PublishInv(s, p);
      assert TopicInv(s, pub.event.topic);
      assert SubInv(s.subs[x]);
    case CancelClose(x) => assert SubInv(s.subs[x]);
    case CloseNext =>
      assert TopicInv(s, s.lock.topic);
      if s.lock.next < |s.topics[s.lock.topic]| {
        assert SubInv(s.subs[s.topics[s.lock.topic][s.lock.next]]);
      }
    case _ =>
  }

  lemma StepKeepsSub(s: State, step: Step, x: nat)
    requires Enabled(s, step) && Disciplined(s, step) && !Next(s, step).panicked
    requires x < |s.subs| && SubInv(s.subs[x])
    requires step.CloseNext? && s.lock.next < |s.topics[s.lock.topic]| && x == s.topics[s.lock.topic][s.lock.next] ==>
      s.subs[x].cancels == 0
    ensures SubInv(Next(s, step).subs[x])
  {
    match step
    case OfferNext(p) =>
      if x == s.publishes[p].targets[s.publishes[p].next] {
        OfferedKeepsInv(s.subs[x], p, s.publishes[p].event);
      }
    case Receive(y) => if x == y { TakenKeepsInv(s.subs[x]); }
    case Handle(y, ok) => if x == y { TriedKeepsInv(s.subs[x], ok); }
    case _ =>
  }

  lemma StepKeepsSubs(s: State, step: Step)
    requires Inv(s) && Enabled(s, step) && Disciplined(s, step)
    ensures SubsInv(Next(s, step))
  {
    NoPanic(s, step);
    var t := Next(s, step);
    if step.CloseNext? && s.lock.next < |s.topics[s.lock.topic]| {
      assert TopicInv(s, s.lock.topic);
    }
    forall x | 0 <= x < |t.subs| ensures SubInv(t.subs[x]) {
      if x < |s.subs| {
        StepKeepsSub(s, step, x);
      }
    }
  }

  lemma {:induction false} RemoveFirstMembers(list: seq<nat>, x: nat)
    requires Distinct(list)
    ensures Distinct(RemoveFirst(list, x))
    ensures forall y :: y in RemoveFirst(list, x) <==> y in list && y != x
  {
    if list != [] {
      DistinctCons(list);
      assert list == [list[0]] + list[1..];
      RemoveFirstMembers(list[1..], x);
      if list[0] != x {
        DistinctCons(RemoveFirst(list, x));
      }
    }
  }

  lemma {:induction false} RemoveFirstAt(list: seq<nat>, x: nat, i: nat)
    requires i <= |list| && x !in list[..i] && (i < |list| ==> list[i] == x)
    ensures RemoveFirst(list, x) == if i < |list| then list[..i] + list[i + 1..] else list
  {
    if i > 0 {
      assert list[0] in list[..i];
      assert list[1..][..i - 1] == list[..i][1..];
      RemoveFirstAt(list[1..], x, i - 1);
      assert list == [list[0]] + list[1..];
      assert i < |list| ==> list[..i] + list[i + 1..] == [list[0]] + (list[1..][..i - 1] + list[1..][i..]);
    }
  }

  /** The search loop of cancel, inside its critical section. */
  method RemoveSubscriber(subs: seq<nat>, x: nat) returns (rest: seq<nat>)
    ensures rest == RemoveFirst(subs, x)
    ensures Distinct(subs) ==> Distinct(rest) && forall y :: y in rest <==> y in subs && y != x
  {
    rest := subs;
    ghost var found := |subs|;
    for i := 0 to |subs|
      invariant x !in subs[..i] && rest == subs && found == |subs|
    {
      if subs[i] == x {
        rest := subs[..i] + subs[i + 1..];
        found := i;
        break;
      }
      assert subs[..i + 1] == subs[..i] + [subs[i]];
    }
    assert subs[..|subs|] == subs;
    RemoveFirstAt(subs, x, found);
    if Distinct(subs) {
      RemoveFirstMembers(subs, x);
    }
  }

  lemma CancelKeepsTopic(s: State, x: nat, topic: string)
    requires var step := CancelRemove(x); Inv(s) && Enabled(s, step) && Disciplined(s, step)
    requires topic in s.topics
    ensures TopicInv(Next(s, CancelRemove(x)), topic)
  {
    assert TopicInv(s, topic);
    assert ListedInv(s, x);
    var list, rest := s.topics[topic], Next(s, CancelRemove(x)).topics[topic];
    if topic == s.subs[x].topic {
      RemoveFirstMembers(list, x);
      forall i | 0 <= i < |rest| ensures rest[i] in list && rest[i] != x {
        assert rest[i] in rest;
      }
    }
  }

  lemma SweepKeepsTopic(s: State, topic: string)
    requires Inv(s) && Enabled(s, CloseNext)
    requires topic in Next(s, CloseNext).topics
    ensures TopicInv(Next(s, CloseNext), topic)
  {
  }

  /** TopicInv depends on a topic's list, the sweep, and three fields of each subscriber. */
  lemma SameTopic(s: State, t: State, topic: string)
    requires topic in s.topics && TopicInv(s, topic)
    requires topic in t.topics && t.topics[topic] == s.topics[topic] && Swept(t, topic) == Swept(s, topic)
    requires |s.subs| <= |t.subs|
    requires forall x :: 0 <= x < |s.subs| ==>
      t.subs[x].topic == s.subs[x].topic && t.subs[x].cancels == s.subs[x].cancels && t.subs[x].swept == s.subs[x].swept
    ensures TopicInv(t, topic)
  {
  }

  lemma SubscribeKeepsTopic(s: State, topic: string, other: string)
    requires Inv(s) && Enabled(s, Subscribe(topic)) && other in Next(s, Subscribe(topic)).topics
    ensures TopicInv(Next(s, Subscribe(topic)), other)
  {
  }

  ghost predicate TouchesMap(step: Step) {
    step.CancelRemove? || step.CloseNext? || step.Subscribe?
  }

  lemma MapUntouched(s: State, step: Step)
    requires Enabled(s, step) && !TouchesMap(step)
    ensures var t := Next(s, step);
      && t.topics == s.topics && |t.subs| == |s.subs|
      && forall x :: 0 <= x < |s.subs| ==>
           t.subs[x].topic == s.subs[x].topic && t.subs[x].cancels == s.subs[x].cancels && t.subs[x].swept == s.subs[x].swept
  {
  }

  lemma StepKeepsTopic(s: State, step: Step, topic: string)
    requires Inv(s) && Enabled(s, step) && Disciplined(s, step)
    requires topic in Next(s, step).topics
    ensures TopicInv(Next(s, step), topic)
  {
    if step.CancelRemove? {
      CancelKeepsTopic(s, step.x, topic);
    } else if step.CloseNext? {
      SweepKeepsTopic(s, topic);
    } else if step.Subscribe? {
      SubscribeKeepsTopic(s, step.topic, topic);
    } else {
      MapUntouched(s, step);
      SameTopic(s, Next(s, step), topic);
    }
  }

  /** ListedInv depends on one topic's list and three fields of one subscriber. */
  lemma SameListed(s: State, t: State, x: nat)
    requires x < |s.subs| && x < |t.subs| && ListedInv(s, x)
    requires t.subs[x].topic == s.subs[x].topic && t.subs[x].cancels == s.subs[x].cancels
    requires t.subs[x].swept == s.subs[x].swept
    requires forall y <- Listed(s, s.subs[x].topic) :: y in Listed(t, s.subs[x].topic)
    ensures ListedInv(t, x)
  {
  }

  lemma CancelKeepsListed(s: State, y: nat, x: nat)
    requires var step := CancelRemove(y); Inv(s) && Enabled(s, step) && Disciplined(s, step)
    requires x < |s.subs|
    ensures ListedInv(Next(s, CancelRemove(y)), x)
  {
    assert ListedInv(s, x);
    assert ListedInv(s, y);
    assert TopicInv(s, s.subs[y].topic);
    RemoveFirstMembers(s.topics[s.subs[y].topic], y);
    if x != y {
      var topic := s.subs[x].topic;
      forall z <- Listed(s, topic) | z != y ensures z in Listed(Next(s, CancelRemove(y)), topic) {
      }
    }
  }

  lemma SweepKeepsListed(s: State, x: nat)
    requires Inv(s) && Enabled(s, CloseNext) && x < |s.subs|
    ensures ListedInv(Next(s, CloseNext), x)
  {
    var list := s.topics[s.lock.topic];
    assert ListedInv(s, x);
    assert TopicInv(s, s.lock.topic);
    if s.subs[x].topic == s.lock.topic && x in list {
      var i :| 0 <= i < |list| && list[i] == x;
      assert s.subs[x].swept <==> i < s.lock.next;
    }
  }

  lemma SubscribeKeepsListed(s: State, topic: string, x: nat)
    requires Enabled(s, Subscribe(topic)) && x < |s.subs| && ListedInv(s, x)
    ensures ListedInv(Next(s, Subscribe(topic)), x)
  {
  }

  lemma StepKeepsListed(s: State, step: Step, x: nat)
    requires Inv(s) && Enabled(s, step) && Disciplined(s, step)
    requires x < |Next(s, step).subs|
    ensures ListedInv(Next(s, step), x)
  {
    if x < |s.subs| {
      assert ListedInv(s, x);
      if step.CancelRemove? {
        CancelKeepsListed(s, step.x, x);
      } else if step.CloseNext? {
        SweepKeepsListed(s, x);
      } else if step.Subscribe? {
        SubscribeKeepsListed(s, step.topic, x);
      } else {
        MapUntouched(s, step);
        SameListed(s, Next(s, step), x);
      }
    }
  }

  lemma StepKeepsMap(s: State, step: Step)
    requires Inv(s) && Enabled(s, step) && Disciplined(s, step)
    ensures MapInv(Next(s, step))
  {
    var t := Next(s, step);
    forall topic | topic in t.topics ensures TopicInv(t, topic) {
      StepKeepsTopic(s, step, topic);
    }
    forall x | 0 <= x < |t.subs| ensures ListedInv(t, x) {
      StepKeepsListed(s, step, x);
    }
  }

  lemma {:induction false} NoOffersOf(offers: seq<Offer>, p: nat)
    requires forall i :: 0 <= i < |offers| ==> offers[i].publish != p
    ensures OffersOf(offers, p) == 0
  {
    if offers != [] {
      NoOffersOf(offers[..|offers| - 1], p);
    }
  }

  lemma NextInPrefix(list: seq<nat>, k: nat, x: nat)
    requires Distinct(list) && k < |list|
    ensures x in list[..k + 1] <==> x in list[..k] || x == list[k]
    ensures list[k] !in list[..k]
  {
  }

  lemma CarriesAppended(offers: seq<Offer>, o: Offer, p: nat, e: Event)
    requires CarriesOnly(offers, p, e) && (o.publish == p ==> o.event == e)
    ensures CarriesOnly(offers + [o], p, e)
  {
  }

  lemma OfferKeepsOfferedOnce(s: State, q: nat, p: nat, x: nat)
    requires Enabled(s, OfferNext(q)) && !Next(s, OfferNext(q)).panicked
    requires p < |s.publishes| && x < |s.subs|
    requires Distinct(s.publishes[q].targets)
    requires s.publishes[p].next <= |s.publishes[p].targets| && OfferedOnce(s, p, x)
    ensures var t := Next(s, OfferNext(q));
      t.publishes[p].next <= |t.publishes[p].targets| && OfferedOnce(t, p, x)
  {
    var pub := s.publishes[q];
    var y := pub.targets[pub.next];
    var offers, o := s.subs[x].offers, Offer(q, pub.event, |s.subs[x].buffer|);
    if x == y {
      CarriesAppended(offers, o, p, s.publishes[p].event);
    }
    if p == q {
      NextInPrefix(pub.targets, pub.next, x);
    }
  }

  lemma OtherStepKeepsOffers(s: State, step: Step, p: nat, x: nat)
    requires Enabled(s, step) && !step.OfferNext? && p < |s.publishes| && x < |s.subs|
    ensures var t := Next(s, step);
      && t.subs[x].offers == s.subs[x].offers
      && t.publishes[p].(active := s.publishes[p].active) == s.publishes[p]
  {
  }

  lemma StepKeepsOfferedOnce(s: State, step: Step, p: nat, x: nat)
    requires Inv(s) && Enabled(s, step) && Disciplined(s, step)
    requires p < |Next(s, step).publishes| && x < |Next(s, step).subs|
    requires TargetsInv(Next(s, step), p)
    ensures OfferedOnce(Next(s, step), p, x)
  {
    if p == |s.publishes| {
      assert OfferedByStarted(s, x);
      NoOffersOf(s.subs[x].offers, p);
    } else if x == |s.subs| {
      assert PublishInv(s, p);
    } else {
      assert PublishInv(s, p);
      assert OfferedOnce(s, p, x);
      if step.OfferNext? {
        NoPanic(s, step);
        assert PublishInv(s, step.p);
        OfferKeepsOfferedOnce(s, step.p, p, x);
      } else {
        OtherStepKeepsOffers(s, step, p, x);
      }
    }
  }

  lemma NewPublishTargets(s: State, e: Event)
    requires MapInv(s) && Enabled(s, StartPublish(e))
    ensures TargetsInv(Next(s, StartPublish(e)), |s.publishes|)
  {
  }

  lemma StepKeepsTargets(s: State, step: Step, p: nat)
    requires Enabled(s, step) && p < |s.publishes| && TargetsInv(s, p)
    ensures TargetsInv(Next(s, step), p)
  {
  }

  lemma StepKeepsPublish(s: State, step: Step, p: nat)
    requires Inv(s) && Enabled(s, step) && Disciplined(s, step) && p < |Next(s, step).publishes|
    ensures PublishInv(Next(s, step), p)
  {
    var t := Next(s, step);
    if p < |s.publishes| {
      assert PublishInv(s, p);
      StepKeepsTargets(s, step, p);
    } else {
      NewPublishTargets(s, step.event);
    }
    forall x | 0 <= x < |t.subs| ensures OfferedOnce(t, p, x) {
      StepKeepsOfferedOnce(s, step, p, x);
    }
  }

  lemma StepKeepsStarted(s: State, step: Step, x: nat)
    requires Enabled(s, step) && x < |Next(s, step).subs| && (x < |s.subs| ==> OfferedByStarted(s, x))
    ensures OfferedByStarted(Next(s, step), x)
  {
  }

  lemma StepKeepsPublishes(s: State, step: Step)
    requires Inv(s) && Enabled(s, step) && Disciplined(s, step)
    ensures PublishesInv(Next(s, step))
  {
    var t := Next(s, step);
    forall p | 0 <= p < |t.publishes| ensures PublishInv(t, p) {
      StepKeepsPublish(s, step, p);
    }
    forall x | 0 <= x < |t.subs| ensures OfferedByStarted(t, x) {
      StepKeepsStarted(s, step, x);
    }
  }

  lemma {:induction false} Invariant(steps: seq<Step>)
    ensures Exec(steps).Some? ==> Inv(Exec(steps).value)
  {
    if steps != [] {
      var before, step := steps[..|steps| - 1], steps[|steps| - 1];
      Invariant(before);
      if Exec(steps).Some? {
        var s := Exec(before).value;
        NoPanic(s, step);
        StepKeepsSubs(s, step);
        StepKeepsMap(s, step);
        StepKeepsPublishes(s, step);
      }
    }
  }

  // ---- main results

  /**
   Close safety: in every run the users keep to, nothing is sent on or closed twice, and whatever
   the map still lists, outside a running Close, has an open channel.
   */
  lemma CloseSafety(steps: seq<Step>, s: State)
    requires Exec(steps) == Some(s)
    ensures !s.panicked
    ensures forall step :: Enabled(s, step) && Disciplined(s, step) ==> !Next(s, step).panicked
    ensures s.lock.Free? ==> forall t <- s.topics :: forall x <- s.topics[t] ::
      x < |s.subs| && !s.subs[x].closed && s.subs[x].topic == t
  {
    Invariant(steps);
    forall step | Enabled(s, step) && Disciplined(s, step) ensures !Next(s, step).panicked {
      NoPanic(s, step);
    }
    if s.lock.Free? {
      forall t, x | t in s.topics && x in s.topics[t]
        ensures x < |s.subs| && !s.subs[x].closed && s.subs[x].topic == t
      {
        assert TopicInv(s, t);
        assert SubInv(s.subs[x]);
      }
    }
  }

  /** Exactly the undisciplined cancels are fatal: the closes they leave behind lead to a panic. */
  lemma UndisciplinedCancelPanics(steps: seq<Step>, s: State, x: nat)
    requires Exec(steps) == Some(s) && Enabled(s, CancelRemove(x))
    ensures var t := Next(s, CancelRemove(x));
      && Enabled(t, CancelClose(x))
      && var u := Next(t, CancelClose(x));
         Disciplined(s, CancelRemove(x)) <==>
         !(u.panicked || (Enabled(u, CancelClose(x)) && Next(u, CancelClose(x)).panicked))
  {
    Invariant(steps);
    assert SubInv(s.subs[x]);
  }

  /**
   Delivery: per subscriber, what was handled, what is in hand and what is buffered are, in order,
   the events offered to it minus exactly those that found 100 buffered; each handled event had
   one to three handler calls, ending at the first success.
   */
  lemma Delivery(steps: seq<Step>, s: State, x: nat)
    requires Exec(steps) == Some(s) && x < |s.subs|
    ensures var sub := s.subs[x];
      && Events(sub.handled) + InHand(sub.worker) + sub.buffer == Accepted(sub.offers)
      && |sub.buffer| <= 100
      && (forall h <- sub.handled :: RetriedProperly(h.results))
  {
    Invariant(steps);
    assert SubInv(s.subs[x]);
  }

  /** A finished Publish has offered its own event once to each subscriber it found, to no other. */
  lemma PublishReachesEachOnce(steps: seq<Step>, s: State, p: nat, x: nat)
    requires Exec(steps) == Some(s) && p < |s.publishes| && !s.publishes[p].active && x < |s.subs|
    ensures OffersOf(s.subs[x].offers, p) == (if x in s.publishes[p].targets then 1 else 0)
    ensures CarriesOnly(s.subs[x].offers, p, s.publishes[p].event)
  {
    Invariant(steps);
    var pub := s.publishes[p];
    assert PublishInv(s, p);
    assert OfferedOnce(s, p, x);
    assert pub.targets[..pub.next] == pub.targets;
  }

  /** What a Publish finds is everything subscribed to its topic that is neither cancelled nor swept. */
  lemma PublishFindsAll(steps: seq<Step>, s: State, e: Event, x: nat)
    requires Exec(steps) == Some(s) && Enabled(s, StartPublish(e)) && x < |s.subs|
    ensures var t := Next(s, StartPublish(e));
      x in t.publishes[|s.publishes|].targets <==>
      s.subs[x].topic == e.topic && s.subs[x].cancels == 0 && !s.subs[x].swept
  {
    Invariant(steps);
    assert ListedInv(s, x);
    if e.topic in s.topics {
      assert TopicInv(s, e.topic);
    }
  }

  /**
   When a Close returns, a subscriber has had all its accepted events handled exactly if its
   Subscribe had got as far as starting the goroutine, or nothing was accepted.
   */
  lemma CloseDrains(steps: seq<Step>, s: State, x: nat)
    requires Exec(steps) == Some(s) && Enabled(s, CloseReturns) && x < |s.subs|
    ensures var sub := s.subs[x];
      && (Events(sub.handled) == Accepted(sub.offers) <==> !sub.worker.NotStarted? || Accepted(sub.offers) == [])
      && (!sub.worker.NotStarted? ==> sub.worker.Stopped? && sub.closed && sub.buffer == [])
  {
    Invariant(steps);
    assert SubInv(s.subs[x]);
  }

  /** What a step makes of a subscriber with a closed channel. */
  ghost predicate ClosedNext(sub: Subscriber, step: Step, x: nat, after: Subscriber) {
    if step == Receive(x) then sub.worker.Ranging? && sub.buffer != [] && after == Taken(sub)
    else if step.Handle? && step.x == x then sub.worker.Handling? && after == Tried(sub, step.ok)
    else if step == StopWorker(x) then sub.worker.Ranging? && sub.buffer == [] && after == sub.(worker := Stopped)
    else after.buffer == sub.buffer && after.worker == sub.worker
  }

  lemma ClosedSubscriberSteps(s: State, step: Step, x: nat)
    requires Enabled(s, step) && !Next(s, step).panicked && x < |s.subs| && s.subs[x].closed
    requires !s.subs[x].worker.NotStarted?
    ensures x < |Next(s, step).subs| && Next(s, step).subs[x].closed
    ensures ClosedNext(s.subs[x], step, x, Next(s, step).subs[x])
  {
  }

  lemma StoppedStays(s: State, step: Step, x: nat)
    requires Enabled(s, step) && !Next(s, step).panicked && x < |s.subs|
    requires s.subs[x].closed && s.subs[x].worker.Stopped?
    ensures var t := Next(s, step);
      x < |t.subs| && t.subs[x].worker.Stopped? && t.subs[x].handled == s.subs[x].handled && t.subs[x].offers == s.subs[x].offers
  {
  }

  /** A drained subscriber stays as it is: no later step offers it anything or wakes it up. */
  lemma DrainedForGood(steps: seq<Step>, s: State, step: Step, x: nat)
    requires Exec(steps) == Some(s) && Enabled(s, step) && Disciplined(s, step)
    requires x < |s.subs| && s.subs[x].worker.Stopped?
    ensures var t := Next(s, step);
      x < |t.subs| && t.subs[x].worker.Stopped? && t.subs[x].handled == s.subs[x].handled && t.subs[x].offers == s.subs[x].offers
  {
    Invariant(steps);
    NoPanic(s, step);
    assert SubInv(s.subs[x]);
    StoppedStays(s, step, x);
  }

  /** Publish never blocks: whatever the buffers, its next offer or its end is possible at once. */
  lemma PublishNeverBlocks(steps: seq<Step>, s: State, p: nat)
    requires Exec(steps) == Some(s) && p < |s.publishes| && s.publishes[p].active
    ensures Enabled(s, OfferNext(p)) || Enabled(s, EndPublish(p))
  {
    Invariant(steps);
    assert PublishInv(s, p);
  }

  /** Steps a subscriber's goroutine still has to take once nothing more can be sent to it. */
  ghost function WorkLeft(sub: Subscriber): nat {
    (MAX_ATTEMPTS + 2) * |sub.buffer| +
    (match sub.worker
     case NotStarted => 2
     case Ranging => 1
     case Handling(_, results) => if |results| <= MAX_ATTEMPTS then MAX_ATTEMPTS + 2 - |results| else 0
     case Stopped => 0)
  }

  lemma ClosedLeavesLess(sub: Subscriber, step: Step, x: nat, after: Subscriber)
    requires SubInv(sub) && ClosedNext(sub, step, x, after)
    ensures WorkLeft(after) <= WorkLeft(sub)
    ensures step == Receive(x) || step == StopWorker(x) || (step.Handle? && step.x == x) ==>
      WorkLeft(after) < WorkLeft(sub)
  {
  }

  lemma ClosedWorkerHasStep(s: State, x: nat)
    requires !s.panicked && x < |s.subs| && s.subs[x].closed
    requires !s.subs[x].worker.NotStarted? && !s.subs[x].worker.Stopped?
    ensures Enabled(s, Receive(x)) || Enabled(s, Handle(x, true)) || Enabled(s, StopWorker(x))
  {
  }

  /**
   Once its channel is closed a running subscriber always has a step of its own, each of these
   leaves it less to do, and nobody else adds to it.
   */
  lemma ClosedWorkerStops(steps: seq<Step>, s: State, x: nat, step: Step)
    requires Exec(steps) == Some(s) && x < |s.subs|
    requires s.subs[x].closed && !s.subs[x].worker.NotStarted? && !s.subs[x].worker.Stopped?
    requires Enabled(s, step) && Disciplined(s, step)
    ensures Enabled(s, Receive(x)) || Enabled(s, Handle(x, true)) || Enabled(s, StopWorker(x))
    ensures var t := Next(s, step);
      && x < |t.subs|
      && WorkLeft(t.subs[x]) <= WorkLeft(s.subs[x])
      && (step == Receive(x) || step == StopWorker(x) || (step.Handle? && step.x == x) ==>
            WorkLeft(t.subs[x]) < WorkLeft(s.subs[x]))
  {
    Invariant(steps);
    assert SubInv(s.subs[x]);
    NoPanic(s, step);
    ClosedWorkerHasStep(s, x);
    ClosedSubscriberSteps(s, step, x);
    ClosedLeavesLess(s.subs[x], step, x, Next(s, step).subs[x]);
  }

  // ---- the wait of Close

  ghost predicate Started(sub: Subscriber) {
    !sub.worker.NotStarted?
  }

  ghost predicate StartedClosed(s: State) {
    forall x :: 0 <= x < |s.subs| && Started(s.subs[x]) ==> s.subs[x].closed
  }

  /** What the goroutines that a Close waits for still have to do. */
  ghost function Due(sub: Subscriber): nat {
    if Started(sub) then WorkLeft(sub) else 0
  }

  ghost function AllDue(subs: seq<Subscriber>): (due: seq<nat>)
    ensures |due| == |subs| && forall x :: 0 <= x < |subs| ==> due[x] == Due(subs[x])
  {
    seq(|subs|, x requires 0 <= x < |subs| => Due(subs[x]))
  }

  ghost function TotalDue(s: State): nat {
    Sum(AllDue(s.subs))
  }

  ghost predicate WorkerStep(step: Step) {
    step.Receive? || step.Handle? || step.StopWorker?
  }

  ghost function WorkerSteps(steps: seq<Step>): nat {
    if steps == [] then 0
    else WorkerSteps(steps[..|steps| - 1]) + (if WorkerStep(steps[|steps| - 1]) then 1 else 0)
  }

  ghost predicate NoneStarts(steps: seq<Step>) {
    forall i :: 0 <= i < |steps| ==> !steps[i].StartWorker?
  }

  lemma {:induction false} TotalZero(due: seq<nat>)
    ensures Sum(due) == 0 <==> forall x :: 0 <= x < |due| ==> due[x] == 0
  {
    if due != [] {
      var before := due[..|due| - 1];
      TotalZero(before);
      if forall x :: 0 <= x < |before| ==> before[x] == 0 {
        assert forall x :: 0 <= x < |before| ==> due[x] == before[x];
      } else {
        var x :| 0 <= x < |before| && before[x] != 0;
        assert due[x] != 0;
      }
    }
  }

  /** Pointwise no more, and less at y if y is one of them. */
  lemma LessInTotal(a: seq<nat>, b: seq<nat>, y: nat)
    requires Below(b, a) && (y < |a| ==> b[y] < a[y])
    ensures Sum(b) + (if y < |a| then 1 else 0) <= Sum(a)
  {
  }

  /** Who a worker step belongs to; no subscriber for any other step. */
  ghost function Owner(s: State, step: Step): nat {
    if WorkerStep(step) then step.x else |s.subs|
  }

  lemma DueStep(s: State, step: Step, x: nat)
    requires StartedClosed(s) && Enabled(s, step) && !Next(s, step).panicked && !step.StartWorker?
    requires x < |Next(s, step).subs| && (x < |s.subs| ==> SubInv(s.subs[x]))
    ensures x < |s.subs| ==> Due(Next(s, step).subs[x]) <= Due(s.subs[x])
    ensures x < |s.subs| && x == Owner(s, step) ==> Due(Next(s, step).subs[x]) < Due(s.subs[x])
    ensures x >= |s.subs| ==> Due(Next(s, step).subs[x]) == 0
    ensures Started(Next(s, step).subs[x]) ==> Next(s, step).subs[x].closed
  {
  }

  lemma SubsKept(s: State, step: Step)
    requires Enabled(s, step)
    ensures |s.subs| <= |Next(s, step).subs| <= |s.subs| + 1
    ensures WorkerStep(step) ==> step.x < |s.subs| && |Next(s, step).subs| == |s.subs|
  {
  }

  lemma TotalDueStep(s: State, step: Step)
    requires Inv(s) && StartedClosed(s) && Enabled(s, step) && Disciplined(s, step) && !step.StartWorker?
    ensures StartedClosed(Next(s, step))
    ensures TotalDue(Next(s, step)) + (if WorkerStep(step) then 1 else 0) <= TotalDue(s)
  {
    var t := Next(s, step);
    SubsKept(s, step);
    NoPanic(s, step);
    forall x | 0 <= x < |t.subs|
      ensures x < |s.subs| ==> Due(t.subs[x]) <= Due(s.subs[x])
      ensures x < |s.subs| && x == Owner(s, step) ==> Due(t.subs[x]) < Due(s.subs[x])
      ensures x >= |s.subs| ==> Due(t.subs[x]) == 0
      ensures Started(t.subs[x]) ==> t.subs[x].closed
    {
      DueStep(s, step, x);
    }
    LessDue(s.subs, t.subs, Owner(s, step));
  }

  lemma LessDue(before: seq<Subscriber>, after: seq<Subscriber>, owner: nat)
    requires |before| <= |after| <= |before| + 1 && owner <= |before|
    requires forall x :: 0 <= x < |before| ==> Due(after[x]) <= Due(before[x])
    requires owner < |before| ==> Due(after[owner]) < Due(before[owner])
    requires |before| < |after| ==> Due(after[|before|]) == 0
    ensures Sum(AllDue(after)) + (if owner < |before| then 1 else 0) <= Sum(AllDue(before))
  {
    var a, b := AllDue(before), AllDue(after);
    LessInTotal(a, b[..|a|], owner);
    if |a| < |b| {
      assert b[..|b| - 1] == b[..|a|];
    } else {
      assert b[..|a|] == b;
    }
  }

  /** Close can return exactly when nothing is due from the goroutines that have started. */
  lemma NothingDue(s: State)
    requires !s.panicked && SubsInv(s)
    ensures Enabled(s, CloseReturns) <==> s.waiting > 0 && TotalDue(s) == 0
  {
    TotalZero(AllDue(s.subs));
    forall x | 0 <= x < |s.subs|
      ensures AllDue(s.subs)[x] == 0 <==> s.subs[x].worker.NotStarted? || s.subs[x].worker.Stopped?
    {
      DueFromRunning(s.subs[x]);
    }
  }

  lemma DueFromRunning(sub: Subscriber)
    requires SubInv(sub)
    ensures Due(sub) == 0 <==> sub.worker.NotStarted? || sub.worker.Stopped?
  {
  }

  lemma SomethingDue(s: State)
    requires !s.panicked && SubsInv(s) && StartedClosed(s) && TotalDue(s) > 0
    ensures exists step :: WorkerStep(step) && Enabled(s, step)
  {
    TotalZero(AllDue(s.subs));
    var x :| 0 <= x < |s.subs| && AllDue(s.subs)[x] != 0;
    DueFromRunning(s.subs[x]);
    ClosedWorkerHasStep(s, x);
    assert WorkerStep(Receive(x)) && WorkerStep(Handle(x, true)) && WorkerStep(StopWorker(x));
  }

  /**
   The wait of Close ends: from a state in which every started subscriber's channel is closed, and as
   long as no further goroutine starts, at most TotalDue worker steps are taken; while some is due
   one can be taken, and when none is due every waiting Close can return.
   */
  lemma {:induction false} WaitEnds(steps: seq<Step>, s: State, more: seq<Step>, t: State)
    requires Exec(steps) == Some(s) && Exec(steps + more) == Some(t)
    requires StartedClosed(s) && NoneStarts(more)
    ensures StartedClosed(t) && WorkerSteps(more) + TotalDue(t) <= TotalDue(s)
    ensures Enabled(t, CloseReturns) <==> t.waiting > 0 && TotalDue(t) == 0
    ensures TotalDue(t) > 0 ==> exists step :: WorkerStep(step) && Enabled(t, step)
  {
    var all := steps + more;
    if more == [] {
      assert all == steps;
    } else {
      var before, step := more[..|more| - 1], more[|more| - 1];
      assert all[..|all| - 1] == steps + before && all[|all| - 1] == step;
      var u := Exec(steps + before).value;
      WaitEnds(steps, s, before, u);
      Invariant(steps + before);
      TotalDueStep(u, step);
    }
    Invariant(all);
    NothingDue(t);
    if TotalDue(t) > 0 {
      SomethingDue(t);
    }
  }

  /** When a Close begins to wait, an open channel is one that a cancel is about to close. */
  lemma OnlyCancelsPending(steps: seq<Step>, s: State, x: nat)
    requires Exec(steps) == Some(s) && Enabled(s, UnlockAndWait) && x < |s.subs|
    ensures !s.subs[x].closed ==> s.subs[x].cancels == 1 && Enabled(s, CancelClose(x))
  {
    Invariant(steps);
    assert SubInv(s.subs[x]);
    assert ListedInv(s, x);
  }

  /** A started subscriber with an open channel keeps every Close waiting. */
  lemma OpenSubscriberBlocksClose(steps: seq<Step>, s: State, x: nat)
    requires Exec(steps) == Some(s) && x < |s.subs| && Started(s.subs[x]) && !s.subs[x].closed
    ensures !Enabled(s, CloseReturns)
  {
    Invariant(steps);
    assert SubInv(s.subs[x]);
  }

  const LATE_SUBSCRIBE := [LockForClose, UnlockAndWait, Subscribe("t"), StartWorker(0)]

  /**
   A Subscribe that comes after the sweep of a Close can do that: the subscription is in the map and
   open, its goroutine waits for events, and Close waits for the goroutine.
   */
  lemma LateSubscribeBlocksClose()
    ensures Exec(LATE_SUBSCRIBE) == Some(Blocked())
    ensures Started(Blocked().subs[0]) && !Blocked().subs[0].closed && Blocked().waiting == 1
    ensures forall step :: WorkerStep(step) || step == CloseReturns ==> !Enabled(Blocked(), step)
  {
    LateSubscribeRuns();
  }

  ghost function Blocked(): State {
    State([Made("t").(worker := Ranging)], map["t" := [0]], [], Free, 1, 0, false)
  }

  lemma LateSubscribeRuns()
    ensures Exec(LATE_SUBSCRIBE) == Some(Blocked())
  {
    assert LATE_SUBSCRIBE[..3] == [LockForClose, UnlockAndWait, Subscribe("t")];
    assert LATE_SUBSCRIBE[..3][..2] == [LockForClose, UnlockAndWait];
    assert LATE_SUBSCRIBE[..3][..2][..1] == [LockForClose];
    assert LATE_SUBSCRIBE[..3][..2][..1][..0] == [];
    assert Exec(LATE_SUBSCRIBE[..3][..2][..1]) == Some(Next(START, LockForClose));
    var s := Exec(LATE_SUBSCRIBE[..3][..2]).value;
    assert s == START.(waiting := 1);
    var subscribed := State([Made("t")], map["t" := [0]], [], Free, 1, 0, false);
    assert Next(s, Subscribe("t")).topics["t"] == [0];
    assert Next(s, Subscribe("t")) == subscribed;
    assert Next(subscribed, StartWorker(0)) == Blocked();
  }
}
