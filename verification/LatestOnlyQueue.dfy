// A queue that runs one operation at a time and keeps only the newest request
// waiting (src/national-radar/LatestOnlyAsyncQueue.ts). A step is what happens
// between two suspensions: a call from outside, a settled execution, or the
// callback that follows the end of a drain. `execute` enqueues nothing before it first suspends.
module LatestOnlyQueue {
  import opened Common

  // Requests are numbered in the order they arrive.
  type Request = nat

  datatype Drain =
    | Idle
    | Executing(request: Request)
    | Ended                           // the drain has returned, its callback has not run

  datatype Resolution = Answered(request: Request) | Nulled(request: Request)

  // `enqueued`, `cancelled` and `log` are history; the rest are the queue's own fields.
  datatype State = State(pending: Option<Request>, drain: Drain, started: nat, completed: nat, failed: nat,
                         replaced: nat, concurrent: nat, maxConcurrent: nat, enqueued: nat, cancelled: nat,
                         log: seq<Resolution>)

  datatype Event =
    | Enqueue(throws: bool)            // whether the operation it may start throws at once
    | CancelPending
    | Settle(ok: bool, throws: bool)   // the execution settles; its successor may throw at once
    | DrainCallback(throws: bool)

  const EMPTY := State(None, Idle, 0, 0, 0, 0, 0, 0, 0, 0, [])

  predicate Enabled(s: State, e: Event) {
    (e.Settle? ==> s.drain.Executing? && s.concurrent > 0) && (e.DrainCallback? ==> s.drain.Ended?)
  }

  // An execution ends, well or not.
  function Complete(s: State, request: Request, ok: bool): State
    requires s.concurrent > 0
  {
    s.(concurrent := s.concurrent - 1, completed := s.completed + 1, failed := if ok then s.failed else s.failed + 1,
       log := s.log + [if ok then Answered(request) else Nulled(request)])
  }

  // The drain's loop: take what is pending and execute it.
  function Continue(s: State, throws: bool): State {
    if s.pending.None? then s.(drain := Ended)
    else
      var request, concurrent := s.pending.value, s.concurrent + 1;
      var started := s.(pending := None, started := s.started + 1, concurrent := concurrent,
                        maxConcurrent := if concurrent > s.maxConcurrent then concurrent else s.maxConcurrent);
      if throws then Complete(started, request, false).(drain := Ended) else started.(drain := Executing(request))
  }

  function Drained(s: State, throws: bool): State {
    if !s.drain.Idle? || s.pending.None? then s else Continue(s, throws)
  }

  function Step(s: State, e: Event): State
    requires Enabled(s, e)
  {
    match e
    case Enqueue(throws) =>
      var replaced := if s.pending.None? then s else s.(replaced := s.replaced + 1,
                                                        log := s.log + [Nulled(s.pending.value)]);
      Drained(replaced.(pending := Some(s.enqueued), enqueued := s.enqueued + 1), throws)
    case CancelPending =>
      if s.pending.None? then s
      else s.(pending := None, cancelled := s.cancelled + 1, log := s.log + [Nulled(s.pending.value)])
    case Settle(ok, throws) => Continue(Complete(s, s.drain.request, ok), throws)
    case DrainCallback(throws) => Drained(s.(drain := Idle), throws)
  }

  // ----- What every state keeps -----

  predicate Waiting(s: State, r: Request) {
    s.pending == Some(r) || s.drain == Executing(r)
  }

  ghost predicate InLog(log: seq<Resolution>, r: Request) {
    exists i :: 0 <= i < |log| && log[i].request == r
  }

  // Each request is resolved once, unless it is still pending or executing.
  ghost predicate LogHolds(s: State) {
    && (forall i, j :: 0 <= i < j < |s.log| ==> s.log[i].request != s.log[j].request)
    && (forall i :: 0 <= i < |s.log| ==> s.log[i].request < s.enqueued && !Waiting(s, s.log[i].request))
    && (forall r: nat :: r < s.enqueued && !Waiting(s, r) ==> InLog(s.log, r))
  }

  function Count(waiting: bool): nat { if waiting then 1 else 0 }

  ghost predicate CountsHold(s: State) {
    && s.enqueued == s.started + s.replaced + s.cancelled + Count(s.pending.Some?)
    && s.concurrent == Count(s.drain.Executing?) && s.started == s.completed + s.concurrent && s.failed <= s.completed
    && s.maxConcurrent == Count(s.started > 0)
  }

  ghost predicate Inv(s: State) {
    && CountsHold(s) && LogHolds(s)
    && (s.pending.Some? ==> s.pending.value + 1 == s.enqueued && !s.drain.Idle?)
    && (s.drain.Executing? ==> s.drain.request < s.enqueued && s.pending != Some(s.drain.request))
  }

  // The log gains the resolution of one request that was waiting.
  lemma LogGrows(s: State, t: State, entry: Resolution)
    requires LogHolds(s) && t.log == s.log + [entry] && t.enqueued == s.enqueued
    requires Waiting(s, entry.request) && entry.request < s.enqueued && !Waiting(t, entry.request)
    requires forall r: nat :: r < s.enqueued && r != entry.request ==> (Waiting(s, r) <==> Waiting(t, r))
    ensures LogHolds(t)
  {
    forall r: nat | r < t.enqueued && !Waiting(t, r) ensures InLog(t.log, r) {
      if r == entry.request {
        assert t.log[|s.log|].request == r;
      } else {
        var i :| 0 <= i < |s.log| && s.log[i].request == r;
        assert t.log[i].request == r;
      }
    }
  }

  // Nothing is resolved, and nothing stops waiting.
  lemma LogStays(s: State, t: State)
    requires LogHolds(s) && t.log == s.log && s.enqueued <= t.enqueued
    requires forall r: nat :: r < s.enqueued ==> (Waiting(s, r) <==> Waiting(t, r))
    requires forall r: nat :: s.enqueued <= r < t.enqueued ==> Waiting(t, r)
    ensures LogHolds(t)
  {
  }

  // Resuming the loop where nothing executes keeps everything.
  lemma ContinueHolds(s: State, throws: bool)
    requires CountsHold(s) && LogHolds(s) && !s.drain.Executing?
    requires s.pending.Some? ==> s.pending.value + 1 == s.enqueued
    ensures Inv(Continue(s, throws)) && !Continue(s, throws).drain.Idle?
  {
    var t := Continue(s, throws);
    if s.pending.Some? && throws { LogGrows(s, t, Nulled(s.pending.value)); } else { LogStays(s, t); }
  }

  lemma EnqueueHolds(s: State, throws: bool)
    requires Inv(s)
    ensures Inv(Step(s, Enqueue(throws)))
  {
    var replaced := Replaced(s);
    if s.pending.Some? { LogGrows(s, replaced, Nulled(s.pending.value)); }
    QueueHolds(replaced);
    var queued := Queued(replaced);
    assert Step(s, Enqueue(throws)) == Drained(queued, throws);
    if s.drain.Idle? { ContinueHolds(queued, throws); }
  }

  // Enqueueing in two moves: what is pending goes, and the newest request takes its place.
  function Replaced(s: State): State {
    if s.pending.None? then s
    else s.(pending := None, replaced := s.replaced + 1, log := s.log + [Nulled(s.pending.value)])
  }

  function Queued(s: State): State {
    s.(pending := Some(s.enqueued), enqueued := s.enqueued + 1)
  }

  lemma QueueHolds(s: State)
    requires CountsHold(s) && LogHolds(s) && s.pending.None?
    requires s.drain.Executing? ==> s.drain.request < s.enqueued
    ensures CountsHold(Queued(s)) && LogHolds(Queued(s))
  {
    LogStays(s, Queued(s));
  }

  lemma StepHolds(s: State, e: Event)
    requires Inv(s) && Enabled(s, e)
    ensures Inv(Step(s, e))
  {
    match e
    case Enqueue(throws) => EnqueueHolds(s, throws);
    case CancelPending =>
      if s.pending.Some? { LogGrows(s, Step(s, e), Nulled(s.pending.value)); }
    case Settle(ok, throws) =>
      var request := s.drain.request;
      var done := Complete(s, request, ok).(drain := Ended);
      LogGrows(s, done, if ok then Answered(request) else Nulled(request));
      ContinueHolds(done, throws);
      assert Step(s, e) == Continue(done, throws);
    case DrainCallback(throws) =>
      var idle := s.(drain := Idle);
      LogStays(s, idle);
      if s.pending.Some? { ContinueHolds(idle, throws); }
  }

  // ----- Runs -----

  // A run: the states between its events, from the empty queue.
  ghost predicate Runs(states: seq<State>, events: seq<Event>) {
    && |states| == |events| + 1 && states[0] == EMPTY
    && forall i :: 0 <= i < |events| ==> Follows(states[i], events[i], states[i + 1])
  }

  ghost predicate Follows(before: State, e: Event, s: State) {
    Enabled(before, e) && s == Step(before, e)
  }

  lemma FollowsHolds(before: State, e: Event, s: State)
    requires Inv(before) && Follows(before, e, s)
    ensures Inv(s)
  {
    StepHolds(before, e);
  }

  lemma NothingLogged(s: State)
    requires s.log == [] && s.enqueued == 0
    ensures LogHolds(s)
  {
  }

  lemma NothingYet(s: State)
    requires s.log == [] && s.enqueued == 0 && s.pending.None? && s.drain.Idle? && CountsHold(s)
    ensures Inv(s)
  {
    NothingLogged(s);
  }

  lemma {:induction false} RunHolds(states: seq<State>, events: seq<Event>, n: nat)
    requires Runs(states, events) && n < |states|
    ensures Inv(states[n])
  {
    if n == 0 {
      NothingYet(states[0]);
    } else {
      RunHolds(states, events, n - 1);
      FollowsHolds(states[n - 1], events[n - 1], states[n]);
    }
  }

  // Nothing waits in a queue at rest, so its log has every request.
  lemma RestResolvesAll(s: State)
    requires Inv(s) && s.drain.Idle?
    ensures forall r: nat :: r < s.enqueued ==> InLog(s.log, r)
  {
    forall r: nat | r < s.enqueued ensures InLog(s.log, r) { assert !Waiting(s, r); }
  }

  // At most one operation runs, every request is resolved at most once, every
  // one enqueued is started, replaced, cancelled or pending, and a queue at
  // rest has nothing pending and has resolved them all.
  ghost predicate Safe(s: State) {
    && s.concurrent <= s.maxConcurrent <= 1
    && s.enqueued == s.started + s.replaced + s.cancelled + Count(s.pending.Some?)
    && (forall i, j :: 0 <= i < j < |s.log| ==> s.log[i].request != s.log[j].request)
    && (s.pending.Some? ==> s.pending.value + 1 == s.enqueued)
    && (s.drain.Idle? ==> s.pending.None? && s.started == s.completed)
    && (s.drain.Idle? ==> forall r: nat :: r < s.enqueued ==> InLog(s.log, r))
  }

  lemma InvariantIsSafe(s: State)
    requires Inv(s)
    ensures Safe(s)
  {
    if s.drain.Idle? { RestResolvesAll(s); }
  }

  lemma RunsAreSafe(states: seq<State>, events: seq<Event>, s: State)
    requires Runs(states, events) && s in states
    ensures Safe(s)
  {
    var n :| 0 <= n < |states| && states[n] == s;
    RunHolds(states, events, n);
    InvariantIsSafe(s);
  }

  // ----- Who gets an answer -----

  function AnsweredCount(log: seq<Resolution>): nat {
    if log == [] then 0
    else AnsweredCount(log[..|log| - 1]) + if log[|log| - 1].Answered? then 1 else 0
  }

  // Of the requests resolved, the executed ones that did not fail are answered,
  // and the failed, replaced and cancelled ones are not.
  ghost predicate AnswersCount(s: State) {
    AnsweredCount(s.log) + s.failed == s.completed && |s.log| == s.completed + s.replaced + s.cancelled
  }

  lemma AppendCounts(log: seq<Resolution>, entry: Resolution)
    ensures AnsweredCount(log + [entry]) == AnsweredCount(log) + if entry.Answered? then 1 else 0
  {
    assert (log + [entry])[..|log|] == log;
  }

  lemma ContinueCounts(s: State, throws: bool)
    requires AnswersCount(s)
    ensures AnswersCount(Continue(s, throws))
  {
    if s.pending.Some? { AppendCounts(s.log, Nulled(s.pending.value)); }
  }

  lemma EnqueueCounts(s: State, throws: bool)
    requires AnswersCount(s)
    ensures AnswersCount(Step(s, Enqueue(throws)))
  {
    var queued := Queued(Replaced(s));
    if s.pending.Some? { AppendCounts(s.log, Nulled(s.pending.value)); }
    assert AnswersCount(queued);
    ContinueCounts(queued, throws);
    assert Step(s, Enqueue(throws)) == Drained(queued, throws);
  }

  lemma SettleCounts(s: State, ok: bool, throws: bool)
    requires Enabled(s, Settle(ok, throws)) && AnswersCount(s)
    ensures AnswersCount(Step(s, Settle(ok, throws)))
  {
    var done := Complete(s, s.drain.request, ok);
    AppendCounts(s.log, if ok then Answered(s.drain.request) else Nulled(s.drain.request));
    assert AnswersCount(done);
    ContinueCounts(done, throws);
  }

  lemma StepCounts(s: State, e: Event)
    requires Enabled(s, e) && AnswersCount(s)
    ensures AnswersCount(Step(s, e))
  {
    match e
    case Enqueue(throws) => EnqueueCounts(s, throws);
    case CancelPending => if s.pending.Some? { AppendCounts(s.log, Nulled(s.pending.value)); }
    case Settle(ok, throws) => SettleCounts(s, ok, throws);
    case DrainCallback(throws) => ContinueCounts(s.(drain := Idle), throws);
  }

  lemma {:induction false} RunsCount(states: seq<State>, events: seq<Event>, n: nat)
    requires Runs(states, events) && n < |states|
    ensures AnswersCount(states[n])
  {
    if n > 0 {
      RunsCount(states, events, n - 1);
      assert Follows(states[n - 1], events[n - 1], states[n]);
      StepCounts(states[n - 1], events[n - 1]);
    }
  }

  // A settled execution answers its request exactly if it succeeded, and otherwise nulls it and counts a failure.
  lemma SettleAnswers(s: State, ok: bool, throws: bool)
    requires Inv(s) && s.drain.Executing?
    ensures var t, r := Step(s, Settle(ok, throws)), s.drain.request;
            && (Answered(r) in t.log <==> ok) && (Nulled(r) in t.log <==> !ok)
            && t.completed >= s.completed + 1 && (ok && !throws ==> t.failed == s.failed)
            && (!throws && s.pending.Some? ==> t.drain == Executing(s.pending.value))
  {
    var t, r := Step(s, Settle(ok, throws)), s.drain.request;
    assert t.log[|s.log|] == if ok then Answered(r) else Nulled(r);
    StepHolds(s, Settle(ok, throws));
  }

  // Only an enqueue that finds a request waiting replaces it, and only a cancel cancels one; each nulls it.
  lemma WaitingIsNulled(s: State, throws: bool)
    requires Inv(s)
    ensures var t := Step(s, Enqueue(throws));
            && t.replaced == s.replaced + Count(s.pending.Some?) && t.cancelled == s.cancelled
            && (s.pending.Some? ==> Nulled(s.pending.value) in t.log)
            && (!s.drain.Idle? ==> t.pending == Some(s.enqueued) && t.drain == s.drain)
            && (s.drain.Idle? && !throws ==> t.drain == Executing(s.enqueued))
            && (s.drain.Idle? && throws ==> t.drain.Ended? && Nulled(s.enqueued) in t.log)
    ensures var t := Step(s, CancelPending);
            && t.cancelled == s.cancelled + Count(s.pending.Some?) && t.replaced == s.replaced && t.pending.None?
            && (s.pending.Some? ==> Nulled(s.pending.value) in t.log) && t.drain == s.drain
  {
    if s.pending.Some? { assert (s.log + [Nulled(s.pending.value)])[|s.log|] == Nulled(s.pending.value); }
  }

  // ----- Coming to rest -----

  predicate Continues(e: Event) {
    e.Settle? || e.DrainCallback?
  }

  function StepsToRest(s: State): nat {
    (if s.pending.Some? then 2 else 0) + match s.drain case Idle => 0 case Executing(_) => 2 case Ended => 1
  }

  // Whatever is pending, one of the queue's own steps comes next, and each brings it closer to rest.
  lemma ComesToRest(s: State)
    requires Inv(s)
    ensures StepsToRest(s) == 0 <==> s.drain.Idle?
    ensures !s.drain.Idle? ==> exists e :: Continues(e) && Enabled(s, e)
    ensures forall e :: Continues(e) && Enabled(s, e) ==> StepsToRest(Step(s, e)) < StepsToRest(s)
  {
    if s.drain.Executing? { assert Continues(Settle(true, false)) && Enabled(s, Settle(true, false)); }
    if s.drain.Ended? { assert Continues(DrainCallback(false)) && Enabled(s, DrainCallback(false)); }
  }

  // A request that arrives between a drain's end and its callback is started by that callback.
  lemma LateRequestStarts(s: State, throws: bool)
    requires Inv(s) && s.drain.Ended?
    ensures var late := Step(s, Enqueue(false));
            && late.drain.Ended? && late.pending == Some(s.enqueued)
            && Step(late, DrainCallback(throws)).started == s.started + 1
            && Step(late, DrainCallback(throws)).pending.None?
            && (!throws ==> Step(late, DrainCallback(throws)).drain == Executing(s.enqueued))
  {
  }

  // ----- The queue -----

  class LatestOnlyAsyncQueue {
    var pending: Option<Request>
    var drain: Drain
    var startedCount: nat
    var completedCount: nat
    var failedCount: nat
    var replacedPendingCount: nat
    var concurrentCount: nat
    var maxConcurrentCount: nat
    ghost var enqueued: nat
    ghost var cancelled: nat
    ghost var log: seq<Resolution>

    ghost function Value(): State
      reads this
    {
      State(pending, drain, startedCount, completedCount, failedCount, replacedPendingCount, concurrentCount,
            maxConcurrentCount, enqueued, cancelled, log)
    }

    constructor ()
      ensures Value() == EMPTY
    {
      pending, drain := None, Idle;
      startedCount, completedCount, failedCount, replacedPendingCount := 0, 0, 0, 0;
      concurrentCount, maxConcurrentCount := 0, 0;
      enqueued, cancelled, log := 0, 0, [];
    }

    method Enqueue(request: Request, throws: bool)
      requires Inv(Value()) && request == enqueued
      modifies this
      ensures Value() == Step(old(Value()), Event.Enqueue(throws)) && Inv(Value())
    {
      StepHolds(Value(), Event.Enqueue(throws));
      if pending.Some? {
        replacedPendingCount := replacedPendingCount + 1;
        log := log + [Nulled(pending.value)];
      }
      pending, enqueued := Some(request), enqueued + 1;
      StartDrain(throws);
    }

    method CancelPending()
      requires Inv(Value())
      modifies this
      ensures Value() == Step(old(Value()), Event.CancelPending) && Inv(Value())
    {
      StepHolds(Value(), Event.CancelPending);
      if pending.Some? { log, cancelled := log + [Nulled(pending.value)], cancelled + 1; }
      pending := None;
    }

    method StartDrain(throws: bool)
      requires concurrentCount == 0 || !drain.Idle?
      modifies this
      ensures Value() == Drained(old(Value()), throws)
    {
      if !drain.Idle? || pending.None? { return; }
      Drain(throws);
    }

    // The drain from the head of its loop to where it suspends or returns.
    method Drain(throws: bool)
      requires concurrentCount == 0
      modifies this
      ensures Value() == Continue(old(Value()), throws)
    {
      if pending.None? {
        drain := Ended;
        return;
      }
      var request := pending.value;
      pending := None;
      startedCount := startedCount + 1;
      concurrentCount := concurrentCount + 1;
      if concurrentCount > maxConcurrentCount { maxConcurrentCount := concurrentCount; }
      if throws {
        log := log + [Nulled(request)];
        failedCount := failedCount + 1;
        concurrentCount := concurrentCount - 1;
        completedCount := completedCount + 1;
        drain := Ended;
      } else {
        drain := Executing(request);
      }
    }

    // The drain resumes when its execution settles.
    method Settle(ok: bool, throws: bool)
      requires Inv(Value()) && drain.Executing?
      modifies this
      ensures Value() == Step(old(Value()), Event.Settle(ok, throws)) && Inv(Value())
    {
      StepHolds(Value(), Event.Settle(ok, throws));
      if ok {
        log := log + [Answered(drain.request)];
      } else {
        log := log + [Nulled(drain.request)];
        failedCount := failedCount + 1;
      }
      concurrentCount := concurrentCount - 1;
      completedCount := completedCount + 1;
      Drain(throws);
    }

    method DrainCallback(throws: bool)
      requires Inv(Value()) && drain.Ended?
      modifies this
      ensures Value() == Step(old(Value()), Event.DrainCallback(throws)) && Inv(Value())
    {
      StepHolds(Value(), Event.DrainCallback(throws));
      drain := Idle;
      StartDrain(throws);
    }
  }
}
