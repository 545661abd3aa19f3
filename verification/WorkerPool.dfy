/**
 The generic worker pool as a step relation. Submit makes a one-slot result channel and then
 blocks on the task queue, which has room for 2 * workers; workers take a task, call the handler
 and send its result; Close closes the queue and waits for the workers. The handler may answer
 anything, so its answer is a parameter of the step that calls it.
 */
module WorkerPool {
  import opened Prelude

  datatype Result<R, E> = Result(value: R, err: E)

  datatype Worker<R, E> =
    | Ranging                                     // at `range p.tasks`
    | Running(task: nat)                          // inside p.handler(t.input)
    | Sending(task: nat, result: Result<R, E>)    // at t.result <- ...
    | Stopped                                     // wg.Done called

  /** A Submit call, with the channel it made: `sent` is its whole traffic, `read` what was received. */
  datatype Task<T, R, E> = Task(input: T, queued: bool, sent: seq<Result<R, E>>, read: nat)

  datatype Call<T, R, E> = Call(task: nat, input: T, result: Result<R, E>)

  datatype Closer = NotCalled | Waiting | Returned

  datatype State<T, R, E> = State(
    workers: seq<Worker<R, E>>,
    tasks: seq<Task<T, R, E>>,      // every Submit so far; its index is its identity
    queue: seq<nat>,                // the buffer of p.tasks
    closed: bool,
    closer: Closer,
    calls: seq<Call<T, R, E>>,      // history: every handler call that has returned
    submitted: seq<nat>,            // history: the tasks in the order they entered the queue
    started: seq<nat>,              // history: the tasks in the order workers took them
    panicked: bool
  )

  datatype Step<T, R, E> =
    | MakeChannel(input: T)
    | Enqueue(t: nat)
    | CloseTasks
    | CloseReturns
    | Take(w: nat)
    | RunHandler(w: nat, result: Result<R, E>)
    | SendResult(w: nat)
    | Stop(w: nat)
    | ReadResult(t: nat)

  ghost function Init<T, R, E>(workers: nat): State<T, R, E> {
    State(seq(workers, _ => Ranging), [], [], false, NotCalled, [], [], [], false)
  }

  ghost predicate Enabled<T(!new), R(!new), E(!new)>(s: State<T, R, E>, step: Step<T, R, E>)
  {
    && !s.panicked
    && match step
       case MakeChannel(_) => true
       case Enqueue(t) => t < |s.tasks| && !s.tasks[t].queued && (s.closed || |s.queue| < 2 * |s.workers|)
       case CloseTasks => true
       case CloseReturns => s.closer.Waiting? && forall w :: 0 <= w < |s.workers| ==> s.workers[w].Stopped?
       case Take(w) => w < |s.workers| && s.workers[w].Ranging? && s.queue != []
       case RunHandler(w, _) => w < |s.workers| && s.workers[w].Running? && s.workers[w].task < |s.tasks|
       case SendResult(w) =>
         && w < |s.workers| && s.workers[w].Sending? && s.workers[w].task < |s.tasks|
         && |s.tasks[s.workers[w].task].sent| - s.tasks[s.workers[w].task].read < 1
       case Stop(w) => w < |s.workers| && s.workers[w].Ranging? && s.queue == [] && s.closed
       case ReadResult(t) => t < |s.tasks| && s.tasks[t].read < |s.tasks[t].sent|
  }

  ghost function Next<T(!new), R(!new), E(!new)>(s: State<T, R, E>, step: Step<T, R, E>): State<T, R, E>
    requires Enabled(s, step)
  {
    match step
    case MakeChannel(input) => s.(tasks := s.tasks + [Task(input, false, [], 0)])
    case Enqueue(t) =>
      if s.closed then s.(panicked := true)
      else
        s.(tasks := s.tasks[t := s.tasks[t].(queued := true)], queue := s.queue + [t],
           submitted := s.submitted + [t])
    case CloseTasks =>
      if s.closed then s.(panicked := true) else s.(closed := true, closer := Waiting)
    case CloseReturns => s.(closer := Returned)
    case Take(w) =>
      s.(workers := s.workers[w := Running(s.queue[0])], queue := s.queue[1..],
         started := s.started + [s.queue[0]])
    case RunHandler(w, r) =>
      var t := s.workers[w].task;
      s.(workers := s.workers[w := Sending(t, r)], calls := s.calls + [Call(t, s.tasks[t].input, r)])
    case SendResult(w) =>
      var t := s.workers[w].task;
      s.(workers := s.workers[w := Ranging],
         tasks := s.tasks[t := s.tasks[t].(sent := s.tasks[t].sent + [s.workers[w].result])])
    case Stop(w) => s.(workers := s.workers[w := Stopped])
    case ReadResult(t) => s.(tasks := s.tasks[t := s.tasks[t].(read := s.tasks[t].read + 1)])
  }

  ghost function Exec<T(!new), R(!new), E(!new)>(workers: nat, steps: seq<Step<T, R, E>>): Option<State<T, R, E>> {
    if steps == [] then Some(Init(workers))
    else
      match Exec(workers, steps[..|steps| - 1])
      case None => None
      case Some(s) =>
        var step := steps[|steps| - 1];
        if Enabled(s, step) then Some(Next(s, step)) else None
  }

  // ---- where a task is

  ghost predicate Holds<R, E>(w: Worker<R, E>, t: nat) {
    (w.Running? || w.Sending?) && w.task == t
  }

  /** How many workers hold task t. */
  ghost function Holders<R, E>(ws: seq<Worker<R, E>>, t: nat): nat {
    if ws == [] then 0 else (if Holds(ws[0], t) then 1 else 0) + Holders(ws[1..], t)
  }

  /** The results the handler returned for task t, in order. */
  ghost function Answers<T, R, E>(calls: seq<Call<T, R, E>>, t: nat): seq<Result<R, E>> {
    if calls == [] then []
    else
      var last := calls[|calls| - 1];
      Answers(calls[..|calls| - 1], t) + (if last.task == t then [last.result] else [])
  }

  /** The result of task t that some worker is about to send. */
  ghost function Unsent<R, E>(ws: seq<Worker<R, E>>, t: nat): seq<Result<R, E>> {
    if ws == [] then []
    else (if ws[0].Sending? && ws[0].task == t then [ws[0].result] else []) + Unsent(ws[1..], t)
  }

  ghost predicate TaskInv<T, R, E>(s: State<T, R, E>, t: nat)
    requires t < |s.tasks|
  {
    var task := s.tasks[t];
    && Count(s.queue, t) + Holders(s.workers, t) + |task.sent| == (if task.queued then 1 else 0)
    && task.read <= |task.sent|
    && Answers(s.calls, t) == task.sent + Unsent(s.workers, t)
    && forall c <- s.calls :: c.task == t ==> c.input == task.input
  }

  ghost predicate Shape<T, R, E>(workers: nat, s: State<T, R, E>) {
    && |s.workers| == workers
    && |s.queue| <= 2 * workers
    && s.started + s.queue == s.submitted
    && (forall i :: 0 <= i < |s.queue| ==> s.queue[i] < |s.tasks|)
    && (forall w :: 0 <= w < workers && (s.workers[w].Running? || s.workers[w].Sending?) ==> s.workers[w].task < |s.tasks|)
    && (forall c <- s.calls :: c.task < |s.tasks|)
    && (forall w :: 0 <= w < workers && s.workers[w].Stopped? ==> s.closed && s.queue == [])
    && (s.closer.NotCalled? <==> !s.closed)
    && (s.closer.Returned? ==> forall w :: 0 <= w < workers ==> s.workers[w].Stopped?)
  }

  ghost predicate Inv<T, R, E>(workers: nat, s: State<T, R, E>) {
    Shape(workers, s) && forall t :: 0 <= t < |s.tasks| ==> TaskInv(s, t)
  }

  lemma {:induction false} HoldersUpdate<R, E>(ws: seq<Worker<R, E>>, w: nat, updated: Worker<R, E>, t: nat)
    requires w < |ws|
    ensures Holders(ws[w := updated], t) + (if Holds(ws[w], t) then 1 else 0) ==
            Holders(ws, t) + (if Holds(updated, t) then 1 else 0)
  {
    if w == 0 {
      assert ws[w := updated][1..] == ws[1..];
    } else {
      assert ws[w := updated][1..] == ws[1..][w - 1 := updated];
      HoldersUpdate(ws[1..], w - 1, updated, t);
    }
  }

  lemma {:induction false} UnsentOf<R, E>(ws: seq<Worker<R, E>>, w: nat, t: nat)
    requires w < |ws| && Holds(ws[w], t) && Holders(ws, t) == 1
    ensures Unsent(ws, t) == (if ws[w].Sending? then [ws[w].result] else [])
  {
    if w == 0 {
      NoHolders(ws[1..], t);
    } else {
      HoldersAtLeast(ws[1..], w - 1, t);
      UnsentOf(ws[1..], w - 1, t);
    }
  }

  lemma {:induction false} HoldersAtLeast<R, E>(ws: seq<Worker<R, E>>, w: nat, t: nat)
    requires w < |ws| && Holds(ws[w], t)
    ensures Holders(ws, t) >= 1
  {
    if w > 0 {
      HoldersAtLeast(ws[1..], w - 1, t);
    }
  }

  lemma {:induction false} NoHolders<R, E>(ws: seq<Worker<R, E>>, t: nat)
    requires Holders(ws, t) == 0
    ensures Unsent(ws, t) == [] && forall w :: 0 <= w < |ws| ==> !Holds(ws[w], t)
  {
    if ws != [] {
      NoHolders(ws[1..], t);
    }
  }

  lemma {:induction false} UnsentUpdateOther<R, E>(ws: seq<Worker<R, E>>, w: nat, updated: Worker<R, E>, t: nat)
    requires w < |ws| && !Holds(ws[w], t) && !(updated.Sending? && updated.task == t)
    ensures Unsent(ws[w := updated], t) == Unsent(ws, t)
  {
    if w == 0 {
      assert ws[w := updated][1..] == ws[1..];
    } else {
      assert ws[w := updated][1..] == ws[1..][w - 1 := updated];
      UnsentUpdateOther(ws[1..], w - 1, updated, t);
    }
  }

  lemma {:induction false} CountHead(queue: seq<nat>, t: nat)
    requires queue != []
    ensures Count(queue, t) == (if queue[0] == t then 1 else 0) + Count(queue[1..], t)
  {
    if |queue| > 1 {
      assert queue[..|queue| - 1][1..] == queue[1..][..|queue| - 2];
      CountHead(queue[..|queue| - 1], t);
    }
  }

  lemma CountPositive(queue: seq<nat>, t: nat)
    ensures Count(queue, t) > 0 <==> t in queue
  {
  }

  lemma AnswersAppended<T, R, E>(calls: seq<Call<T, R, E>>, c: Call<T, R, E>, t: nat)
    ensures Answers(calls + [c], t) == Answers(calls, t) + (if c.task == t then [c.result] else [])
  {
  }

  lemma {:induction false} NoAnswers<T, R, E>(calls: seq<Call<T, R, E>>, t: nat)
    requires forall c <- calls :: c.task != t
    ensures Answers(calls, t) == []
  {
    if calls != [] {
      NoAnswers(calls[..|calls| - 1], t);
    }
  }

  lemma {:induction false} NotHeld<R, E>(ws: seq<Worker<R, E>>, t: nat)
    requires forall w :: 0 <= w < |ws| ==> !Holds(ws[w], t)
    ensures Holders(ws, t) == 0 && Unsent(ws, t) == []
  {
    if ws != [] {
      NotHeld(ws[1..], t);
    }
  }

  lemma InitInv<T, R, E>(workers: nat)
    ensures Inv<T, R, E>(workers, Init(workers))
  {
  }

  lemma NewTask<T(!new), R(!new), E(!new)>(workers: nat, s: State<T, R, E>, input: T)
    requires Inv(workers, s) && !s.panicked
    ensures TaskInv(Next(s, MakeChannel(input)), |s.tasks|)
  {
    var t := |s.tasks|;
    CountPositive(s.queue, t);
    assert t !in s.queue;
    NotHeld(s.workers, t);
    NoAnswers(s.calls, t);
  }

  lemma TakeKeepsTask<T(!new), R(!new), E(!new)>(workers: nat, s: State<T, R, E>, w: nat, t: nat)
    requires Inv(workers, s) && Enabled(s, Step<T, R, E>.Take(w)) && t < |s.tasks|
    ensures TaskInv(Next(s, Step<T, R, E>.Take(w)), t)
  {
    var u := s.queue[0];
    assert TaskInv(s, t);
    CountHead(s.queue, t);
    HoldersUpdate(s.workers, w, Running(u), t);
    if t == u {
      NoHolders(s.workers, t);
      UnsentOf(s.workers[w := Running(u)], w, t);
    } else {
      UnsentUpdateOther(s.workers, w, Running(u), t);
    }
  }

  lemma RunKeepsTask<T(!new), R(!new), E(!new)>(workers: nat, s: State<T, R, E>, w: nat, r: Result<R, E>, t: nat)
    requires Inv(workers, s) && Enabled(s, Step<T, R, E>.RunHandler(w, r)) && t < |s.tasks|
    ensures TaskInv(Next(s, Step<T, R, E>.RunHandler(w, r)), t)
  {
    var u := s.workers[w].task;
    assert TaskInv(s, t);
    AnswersAppended(s.calls, Call(u, s.tasks[u].input, r), t);
    HoldersUpdate(s.workers, w, Sending(u, r), t);
    if t == u {
      HoldersAtLeast(s.workers, w, t);
      UnsentOf(s.workers, w, t);
      UnsentOf(s.workers[w := Sending(u, r)], w, t);
    } else {
      UnsentUpdateOther(s.workers, w, Sending(u, r), t);
    }
  }

  lemma SendKeepsTask<T(!new), R(!new), E(!new)>(workers: nat, s: State<T, R, E>, w: nat, t: nat)
    requires Inv(workers, s) && Enabled(s, Step<T, R, E>.SendResult(w)) && t < |s.tasks|
    ensures TaskInv(Next(s, Step<T, R, E>.SendResult(w)), t)
  {
    assert TaskInv(s, t);
    HoldersUpdate(s.workers, w, Ranging, t);
    if t == s.workers[w].task {
      HoldersAtLeast(s.workers, w, t);
      UnsentOf(s.workers, w, t);
      NoHolders(s.workers[w := Ranging], t);
    } else {
      UnsentUpdateOther(s.workers, w, Ranging, t);
    }
  }

  lemma StopKeepsTask<T(!new), R(!new), E(!new)>(workers: nat, s: State<T, R, E>, w: nat, t: nat)
    requires Inv(workers, s) && Enabled(s, Step<T, R, E>.Stop(w)) && t < |s.tasks|
    ensures TaskInv(Next(s, Step<T, R, E>.Stop(w)), t)
  {
    assert TaskInv(s, t);
    HoldersUpdate(s.workers, w, Stopped, t);
    UnsentUpdateOther(s.workers, w, Stopped, t);
  }

  lemma OtherStepsKeepTask<T(!new), R(!new), E(!new)>(s: State<T, R, E>, step: Step<T, R, E>, t: nat)
    requires Enabled(s, step) && t < |s.tasks| && TaskInv(s, t)
    requires !step.Take? && !step.RunHandler? && !step.SendResult? && !step.Stop?
    ensures TaskInv(Next(s, step), t)
  {
  }

  lemma StepKeepsTask<T(!new), R(!new), E(!new)>(workers: nat, s: State<T, R, E>, step: Step<T, R, E>, t: nat)
    requires Inv(workers, s) && Enabled(s, step) && t < |Next(s, step).tasks|
    ensures TaskInv(Next(s, step), t)
  {
    if t >= |s.tasks| {
      NewTask(workers, s, step.input);
    } else if step.Take? {
      TakeKeepsTask(workers, s, step.w, t);
    } else if step.RunHandler? {
      RunKeepsTask(workers, s, step.w, step.result, t);
    } else if step.SendResult? {
      SendKeepsTask(workers, s, step.w, t);
    } else if step.Stop? {
      StopKeepsTask(workers, s, step.w, t);
    } else {
      OtherStepsKeepTask(s, step, t);
    }
  }

  lemma StepKeepsInv<T(!new), R(!new), E(!new)>(workers: nat, s: State<T, R, E>, step: Step<T, R, E>)
    requires Inv(workers, s) && Enabled(s, step)
    ensures Inv(workers, Next(s, step))
  {
    forall t | 0 <= t < |Next(s, step).tasks| ensures TaskInv(Next(s, step), t) {
      StepKeepsTask(workers, s, step, t);
    }
  }

  lemma {:induction false} Invariant<T(!new), R(!new), E(!new)>(workers: nat, steps: seq<Step<T, R, E>>)
    ensures var r := Exec(workers, steps); r.Some? ==> Inv(workers, r.value)
  {
    if steps == [] {
      InitInv<T, R, E>(workers);
    } else {
      Invariant(workers, steps[..|steps| - 1]);
      if Exec(workers, steps).Some? {
        StepKeepsInv(workers, Exec(workers, steps[..|steps| - 1]).value, steps[|steps| - 1]);
      }
    }
  }

  // ---- what the steps of a run say by themselves

  /** The inputs of the Submit calls, in the order in which they began. */
  ghost function Inputs<T, R, E>(steps: seq<Step<T, R, E>>): seq<T> {
    if steps == [] then []
    else
      var step := steps[|steps| - 1];
      Inputs(steps[..|steps| - 1]) + (if step.MakeChannel? then [step.input] else [])
  }

  /** What the handler answered, call by call. */
  ghost function Returns<T, R, E>(steps: seq<Step<T, R, E>>): seq<Result<R, E>> {
    if steps == [] then []
    else
      var step := steps[|steps| - 1];
      Returns(steps[..|steps| - 1]) + (if step.RunHandler? then [step.result] else [])
  }

  /** The tasks that got through Submit, in order; after a Close the send panics. */
  ghost function Submitted<T, R, E>(steps: seq<Step<T, R, E>>): seq<nat> {
    if steps == [] then []
    else
      var step := steps[|steps| - 1];
      var before := steps[..|steps| - 1];
      Submitted(before) + (if step.Enqueue? && !HasClose(before) then [step.t] else [])
  }

  /** How often a worker took a task from the queue. */
  ghost function Takes<T, R, E>(steps: seq<Step<T, R, E>>): nat {
    if steps == [] then 0 else Takes(steps[..|steps| - 1]) + (if steps[|steps| - 1].Take? then 1 else 0)
  }

  /** The state keeps what the steps said. */
  ghost predicate Records<T, R, E>(steps: seq<Step<T, R, E>>, s: State<T, R, E>) {
    && |s.tasks| == |Inputs(steps)|
    && (forall t :: 0 <= t < |s.tasks| ==> s.tasks[t].input == Inputs(steps)[t])
    && |s.calls| == |Returns(steps)|
    && (forall c :: 0 <= c < |s.calls| ==> s.calls[c].result == Returns(steps)[c])
    && |s.started| == Takes(steps)
    && s.submitted == Submitted(steps)
    && (forall u <- Submitted(steps) :: u < |s.tasks|)
    && (forall t :: 0 <= t < |s.tasks| ==> (s.tasks[t].queued <==> t in Submitted(steps)))
  }

  lemma RecordsStep<T(!new), R(!new), E(!new)>(before: seq<Step<T, R, E>>, s: State<T, R, E>, step: Step<T, R, E>)
    requires Records(before, s) && Enabled(s, step) && (s.closed <==> HasClose(before))
    ensures Records(before + [step], Next(s, step))
  {
  }

  lemma {:induction false} Recorded<T(!new), R(!new), E(!new)>(
    workers: nat, steps: seq<Step<T, R, E>>, s: State<T, R, E>)
    requires Exec(workers, steps) == Some(s)
    ensures Records(steps, s)
  {
    if steps != [] {
      var before, step := steps[..|steps| - 1], steps[|steps| - 1];
      Recorded(workers, before, Exec(workers, before).value);
      PanicExactlyAfterClose(workers, before, Exec(workers, before).value);
      RecordsStep(before, Exec(workers, before).value, step);
      assert steps == before + [step];
    }
  }

  // ---- main results

  /**
   Exactly once: a task that got through Submit is in exactly one of the queue, a worker's hands
   and its result channel; that channel never gets a second result, and what it gets is what the
   one handler call made for it, on the input of its own Submit, returned.
   */
  lemma ExactlyOnce<T(!new), R(!new), E(!new)>(workers: nat, steps: seq<Step<T, R, E>>, s: State<T, R, E>, t: nat)
    requires Exec(workers, steps) == Some(s) && t < |Inputs(steps)|
    ensures |s.tasks| == |Inputs(steps)|
    ensures t in Submitted(steps) ==>
      Count(s.queue, t) + Holders(s.workers, t) + |s.tasks[t].sent| == 1
    ensures t !in Submitted(steps) ==>
      t !in s.queue && Holders(s.workers, t) == 0 && s.tasks[t].sent == []
    ensures s.tasks[t].sent <= Answers(s.calls, t) && |Answers(s.calls, t)| <= 1
    ensures forall c <- s.calls :: c.task == t ==> c.input == Inputs(steps)[t]
  {
    Invariant(workers, steps);
    Recorded(workers, steps, s);
    assert TaskInv(s, t);
    CountPositive(s.queue, t);
    UnsentAtMost(s.workers, t);
  }

  /** The handler calls of a run, on the inputs of the Submits and with the answers the handler gave. */
  lemma CallsAsMade<T(!new), R(!new), E(!new)>(workers: nat, steps: seq<Step<T, R, E>>, s: State<T, R, E>, c: nat)
    requires Exec(workers, steps) == Some(s) && c < |Returns(steps)|
    ensures |s.calls| == |Returns(steps)| && s.calls[c].result == Returns(steps)[c]
    ensures s.calls[c].task < |Inputs(steps)| && s.calls[c].input == Inputs(steps)[s.calls[c].task]
  {
    Invariant(workers, steps);
    Recorded(workers, steps, s);
    assert s.calls[c] in s.calls;
    assert TaskInv(s, s.calls[c].task);
  }

  /** When every answer is that of one function, each channel delivers it for the input of its own Submit. */
  lemma DeliversHandlerOfInput<T(!new), R(!new), E(!new)>(
    workers: nat, steps: seq<Step<T, R, E>>, s: State<T, R, E>, handler: T -> Result<R, E>, t: nat)
    requires Exec(workers, steps) == Some(s) && t < |Inputs(steps)|
    requires forall c <- s.calls :: c.result == handler(c.input)
    ensures t < |s.tasks| && s.tasks[t].sent <= [handler(Inputs(steps)[t])]
  {
    ExactlyOnce(workers, steps, s, t);
    AnswersOf(s.calls, handler, t, Inputs(steps)[t]);
    var answers := Answers(s.calls, t);
    if answers != [] {
      assert answers[0] in answers;
      assert answers == [handler(Inputs(steps)[t])];
    }
  }

  lemma {:induction false} AnswersOf<T, R, E>(calls: seq<Call<T, R, E>>, handler: T -> Result<R, E>, t: nat, input: T)
    requires forall c <- calls :: c.result == handler(c.input) && (c.task == t ==> c.input == input)
    ensures forall r <- Answers(calls, t) :: r == handler(input)
  {
    if calls != [] {
      assert calls[|calls| - 1] in calls;
      assert forall c <- calls[..|calls| - 1] :: c in calls;
      AnswersOf(calls[..|calls| - 1], handler, t, input);
    }
  }

  /** A Submit gets through exactly while fewer than 2 * workers tasks are waiting (or panics after Close). */
  lemma SubmitBlocksWhenFull<T(!new), R(!new), E(!new)>(
    workers: nat, steps: seq<Step<T, R, E>>, s: State<T, R, E>, t: nat)
    requires Exec(workers, steps) == Some(s) && !s.panicked && t < |Inputs(steps)| && t !in Submitted(steps)
    ensures Enabled(s, Step<T, R, E>.Enqueue(t)) <==>
      HasClose(steps) || |Submitted(steps)| - Takes(steps) < 2 * workers
  {
    Invariant(workers, steps);
    Recorded(workers, steps, s);
    PanicExactlyAfterClose(workers, steps, s);
  }

  lemma {:induction false} UnsentAtMost<R, E>(ws: seq<Worker<R, E>>, t: nat)
    ensures |Unsent(ws, t)| <= Holders(ws, t)
  {
    if ws != [] {
      UnsentAtMost(ws[1..], t);
    }
  }

  /** Workers take tasks in the order in which they got through Submit; at most 2 * workers wait. */
  lemma FirstInFirstOut<T(!new), R(!new), E(!new)>(workers: nat, steps: seq<Step<T, R, E>>, s: State<T, R, E>)
    requires Exec(workers, steps) == Some(s)
    ensures s.started + s.queue == Submitted(steps) && |s.started| == Takes(steps) && |s.queue| <= 2 * workers
  {
    Invariant(workers, steps);
    Recorded(workers, steps, s);
  }

  /** While a submitted task has no result yet, the pool has a step to take, closed or not. */
  lemma NeverIdle<T(!new), R(!new), E(!new)>(
    workers: nat, steps: seq<Step<T, R, E>>, s: State<T, R, E>, t: nat, answer: Result<R, E>)
    requires workers > 0 && Exec(workers, steps) == Some(s) && !s.panicked
    requires t in Submitted(steps) && t < |s.tasks| && s.tasks[t].sent == []
    ensures exists step: Step<T, R, E> :: PoolStep(step) && Enabled(s, step)
  {
    Invariant(workers, steps);
    Recorded(workers, steps, s);
    assert TaskInv(s, t);
    if w :| 0 <= w < workers && (s.workers[w].Running? || s.workers[w].Sending?) {
      if s.workers[w].Running? {
        assert Enabled(s, Step<T, R, E>.RunHandler(w, answer));
      } else {
        ResultSendNeverBlocks(workers, steps, s, w);
      }
    } else {
      NotHeld(s.workers, t);
      CountPositive(s.queue, t);
      assert !s.workers[0].Stopped?;
      assert Enabled(s, Step<T, R, E>.Take(0));
    }
  }

  /** A worker that has a result to send finds the one slot of the channel empty. */
  lemma ResultSendNeverBlocks<T(!new), R(!new), E(!new)>(workers: nat, steps: seq<Step<T, R, E>>, s: State<T, R, E>, w: nat)
    requires Exec(workers, steps) == Some(s) && !s.panicked && w < |s.workers| && s.workers[w].Sending?
    ensures Enabled(s, Step<T, R, E>.SendResult(w))
  {
    Invariant(workers, steps);
    HoldersAtLeast(s.workers, w, s.workers[w].task);
    assert TaskInv(s, s.workers[w].task);
  }

  /** When Close has returned, every submitted task has its result, and it is the handler's for its input. */
  lemma CloseDeliversAll<T(!new), R(!new), E(!new)>(workers: nat, steps: seq<Step<T, R, E>>, s: State<T, R, E>, t: nat)
    requires Exec(workers, steps) == Some(s) && s.closer.Returned? && t in Submitted(steps)
    ensures t < |s.tasks| && |s.tasks[t].sent| == 1 && s.tasks[t].sent == Answers(s.calls, t)
    ensures forall c <- s.calls :: c.task == t ==> t < |Inputs(steps)| && c.input == Inputs(steps)[t]
  {
    Invariant(workers, steps);
    Recorded(workers, steps, s);
    assert TaskInv(s, t);
    NotHeld(s.workers, t);
    if workers == 0 {
      assert s.queue == [];
    } else {
      assert s.workers[0].Stopped?;
    }
    assert Count(s.queue, t) == 0;
  }

  ghost predicate HasClose<T, R, E>(steps: seq<Step<T, R, E>>) {
    exists j :: 0 <= j < |steps| && steps[j].CloseTasks?
  }

  /** Step i is a Close, or the send of a Submit, and a Close comes before it. */
  ghost predicate AfterClose<T, R, E>(steps: seq<Step<T, R, E>>, i: nat)
    requires i < |steps|
  {
    (steps[i].CloseTasks? || steps[i].Enqueue?) && HasClose(steps[..i])
  }

  ghost predicate SomeAfterClose<T, R, E>(steps: seq<Step<T, R, E>>) {
    exists i :: 0 <= i < |steps| && AfterClose(steps, i)
  }

  lemma HasCloseAppended<T, R, E>(steps: seq<Step<T, R, E>>, step: Step<T, R, E>)
    ensures HasClose(steps + [step]) <==> HasClose(steps) || step.CloseTasks?
  {
    if HasClose(steps) {
      var j :| 0 <= j < |steps| && steps[j].CloseTasks?;
      assert (steps + [step])[j].CloseTasks?;
    }
    if step.CloseTasks? {
      assert (steps + [step])[|steps|].CloseTasks?;
    }
  }

  lemma SomeAfterCloseAppended<T, R, E>(steps: seq<Step<T, R, E>>, step: Step<T, R, E>)
    ensures SomeAfterClose(steps + [step]) <==>
      SomeAfterClose(steps) || ((step.CloseTasks? || step.Enqueue?) && HasClose(steps))
  {
    var all := steps + [step];
    assert all[..|steps|] == steps;
    forall i | 0 <= i < |steps| ensures AfterClose(all, i) <==> AfterClose(steps, i) {
      assert all[..i] == steps[..i];
    }
    if (step.CloseTasks? || step.Enqueue?) && HasClose(steps) {
      assert AfterClose(all, |steps|);
    }
    if SomeAfterClose(steps) {
      var i :| 0 <= i < |steps| && AfterClose(steps, i);
      assert AfterClose(all, i);
    }
  }

  /** A run panics exactly when it has a Close, or a Submit that is still sending, after a Close. */
  lemma {:induction false} PanicExactlyAfterClose<T(!new), R(!new), E(!new)>(
    workers: nat, steps: seq<Step<T, R, E>>, s: State<T, R, E>)
    requires Exec(workers, steps) == Some(s)
    ensures s.closed <==> HasClose(steps)
    ensures s.panicked <==> SomeAfterClose(steps)
  {
    if steps != [] {
      var before, step := steps[..|steps| - 1], steps[|steps| - 1];
      PanicExactlyAfterClose(workers, before, Exec(workers, before).value);
      assert steps == before + [step];
      HasCloseAppended(before, step);
      SomeAfterCloseAppended(before, step);
    }
  }

  // ---- Close terminates

  ghost function Work<R, E>(ws: seq<Worker<R, E>>): nat {
    if ws == [] then 0
    else (match ws[0] case Stopped => 0 case Ranging => 1 case Sending(_, _) => 2 case Running(_) => 3) + Work(ws[1..])
  }

  lemma {:induction false} WorkUpdate<R, E>(ws: seq<Worker<R, E>>, w: nat, updated: Worker<R, E>)
    requires w < |ws|
    ensures Work(ws[w := updated]) + Work([ws[w]]) == Work(ws) + Work([updated])
  {
    if w == 0 {
      assert ws[w := updated][1..] == ws[1..];
    } else {
      assert ws[w := updated][1..] == ws[1..][w - 1 := updated];
      WorkUpdate(ws[1..], w - 1, updated);
    }
  }

  ghost function Remaining<T, R, E>(s: State<T, R, E>): nat {
    3 * |s.queue| + Work(s.workers) + (if s.closer.Returned? then 0 else 1)
  }

  ghost predicate PoolStep<T, R, E>(step: Step<T, R, E>) {
    step.Take? || step.RunHandler? || step.SendResult? || step.Stop? || step.CloseReturns?
  }

  lemma PoolStepLeavesLess<T(!new), R(!new), E(!new)>(s: State<T, R, E>, step: Step<T, R, E>)
    requires Enabled(s, step) && PoolStep(step)
    ensures Remaining(Next(s, step)) < Remaining(s)
  {
    if step.Take? {
      WorkUpdate(s.workers, step.w, Running(s.queue[0]));
    } else if step.RunHandler? {
      WorkUpdate(s.workers, step.w, Sending(s.workers[step.w].task, step.result));
    } else if step.SendResult? {
      WorkUpdate(s.workers, step.w, Ranging);
    } else if step.Stop? {
      WorkUpdate(s.workers, step.w, Stopped);
    }
  }

  lemma WaitingPoolMoves<T(!new), R(!new), E(!new)>(
    workers: nat, steps: seq<Step<T, R, E>>, s: State<T, R, E>, answer: Result<R, E>)
    requires Exec(workers, steps) == Some(s) && !s.panicked && s.closer.Waiting?
    ensures exists step: Step<T, R, E> :: PoolStep(step) && Enabled(s, step)
  {
    Invariant(workers, steps);
    if w :| 0 <= w < workers && !s.workers[w].Stopped? {
      match s.workers[w]
      case Ranging =>
        assert Enabled(s, Step<T, R, E>.Take(w)) || Enabled(s, Step<T, R, E>.Stop(w));
      case Running(_) => assert Enabled(s, Step<T, R, E>.RunHandler(w, answer));
      case Sending(_, _) => ResultSendNeverBlocks(workers, steps, s, w);
    } else {
      assert Enabled(s, Step<T, R, E>.CloseReturns);
    }
  }

  /**
   Once Close has been called, the pool always has a step of its own until Close returns, and each
   of those leaves less to do, whatever the handler answers.
   */
  lemma CloseProgress<T(!new), R(!new), E(!new)>(
    workers: nat, steps: seq<Step<T, R, E>>, s: State<T, R, E>, answer: Result<R, E>)
    requires Exec(workers, steps) == Some(s) && !s.panicked && s.closer.Waiting?
    ensures exists step: Step<T, R, E> :: PoolStep(step) && Enabled(s, step)
    ensures forall step: Step<T, R, E> :: PoolStep(step) && Enabled(s, step) ==>
      Remaining(Next(s, step)) < Remaining(s)
  {
    WaitingPoolMoves(workers, steps, s, answer);
    forall step: Step<T, R, E> | PoolStep(step) && Enabled(s, step)
      ensures Remaining(Next(s, step)) < Remaining(s)
    {
      PoolStepLeavesLess(s, step);
    }
  }

  /** Once the queue is closed nothing but the pool's own steps changes what it has left to do. */
  lemma OthersLeaveWork<T(!new), R(!new), E(!new)>(s: State<T, R, E>, step: Step<T, R, E>)
    requires Enabled(s, step) && !PoolStep(step) && s.closed && !Next(s, step).panicked
    ensures Remaining(Next(s, step)) == Remaining(s) && Next(s, step).closer == s.closer
  {
  }

  ghost function PoolSteps<T, R, E>(steps: seq<Step<T, R, E>>): nat {
    if steps == [] then 0
    else PoolSteps(steps[..|steps| - 1]) + (if PoolStep(steps[|steps| - 1]) then 1 else 0)
  }

  lemma ClosedStep<T(!new), R(!new), E(!new)>(s: State<T, R, E>, step: Step<T, R, E>)
    requires Enabled(s, step) && s.closed && !Next(s, step).panicked
    ensures Next(s, step).closed
    ensures Remaining(Next(s, step)) + (if PoolStep(step) then 1 else 0) <= Remaining(s)
  {
    if PoolStep(step) {
      PoolStepLeavesLess(s, step);
    } else {
      OthersLeaveWork(s, step);
    }
  }

  /**
   Close returns: of the steps that follow a Close no more than Remaining are the pool's own, whatever
   else goes on, and until Close has returned the pool has one to take.
   */
  lemma {:induction false} CloseReturnsInTime<T(!new), R(!new), E(!new)>(
    workers: nat, steps: seq<Step<T, R, E>>, s: State<T, R, E>, more: seq<Step<T, R, E>>, t: State<T, R, E>,
    answer: Result<R, E>)
    requires Exec(workers, steps) == Some(s) && s.closed
    requires Exec(workers, steps + more) == Some(t) && !t.panicked
    ensures t.closed && PoolSteps(more) + Remaining(t) <= Remaining(s)
    ensures !t.closer.Returned? ==> exists step: Step<T, R, E> :: PoolStep(step) && Enabled(t, step)
  {
    var all := steps + more;
    if more == [] {
      assert all == steps;
    } else {
      var before := more[..|more| - 1];
      assert all[..|all| - 1] == steps + before;
      var u := Exec(workers, steps + before).value;
      CloseReturnsInTime(workers, steps, s, before, u, answer);
      ClosedStep(u, all[|all| - 1]);
    }
    Invariant(workers, all);
    if !t.closer.Returned? {
      WaitingPoolMoves(workers, all, t, answer);
    }
  }
}
