// The two-credit transfer pipeline (src/packed-grid/transferPipeline.ts).
// Requests, consumption and releases settle in any order and may fail; one
// event is one settlement or one continuation of the pipeline.
module LeasePipeline {
  import opened Common

  datatype Item =
    | Unrequested
    | InFlight
    | Refused               // the request failed
    | Held                  // a lease nobody has called release on
    | Releasing             // release called, not settled
    | Released(ok: bool)

  datatype Phase =
    | Awaiting(item: nat)             // the next outcome in order
    | Consuming(item: nat)
    | Returning(item: nat, consumed: bool)
    | Draining(failed: bool)          // what is still pending
    | Finished(ok: bool)

  // `pending` holds the requests nobody awaits yet; `consumed` and `releases` log the calls made.
  datatype State = State(items: seq<Item>, next: nat, pending: seq<nat>, phase: Phase,
                         consumed: seq<nat>, releases: seq<nat>, acquired: set<nat>, faulted: bool)

  datatype Event =
    | Settle(item: nat, ok: bool)          // a request settles
    | Take                                 // the awaited outcome is read
    | Consumed(ok: bool)
    | Acknowledged(ok: bool)               // the release after consumption settles
    | DrainRelease(item: nat)
    | DrainAcknowledged(item: nat, ok: bool)
    | Finish

  function Enqueue(s: State): State
    requires |s.items| >= s.next
  {
    if s.next >= |s.items| then s
    else s.(items := s.items[s.next := InFlight], pending := s.pending + [s.next], next := s.next + 1)
  }

  // The head of the loop.
  function Loop(s: State): State {
    if s.pending == [] then s.(phase := Draining(false))
    else s.(phase := Awaiting(s.pending[0]), pending := s.pending[1..])
  }

  function Start(n: nat): State {
    var idle := State(seq(n, _ => Unrequested), 0, [], Draining(false), [], [], {}, false);
    Loop(Enqueue(Enqueue(idle)))
  }

  predicate Enabled(s: State, e: Event) {
    match e
    case Settle(i, _) => i < |s.items| && s.items[i].InFlight?
    case Take =>
      && s.phase.Awaiting? && s.phase.item < |s.items|
      && (s.items[s.phase.item].Held? || s.items[s.phase.item].Refused?)
    case Consumed(_) => s.phase.Consuming? && s.phase.item < |s.items|
    case Acknowledged(_) => s.phase.Returning? && s.phase.item < |s.items| && s.next <= |s.items|
    case DrainRelease(i) => s.phase.Draining? && i in s.pending && i < |s.items| && s.items[i].Held?
    case DrainAcknowledged(i, _) => s.phase.Draining? && i in s.pending && i < |s.items| && s.items[i].Releasing?
    case Finish =>
      && s.phase.Draining?
      && forall i :: i in s.pending ==> i < |s.items| && (s.items[i].Refused? || s.items[i].Released?)
  }

  function CallRelease(s: State, i: nat): State
    requires i < |s.items|
  {
    s.(items := s.items[i := Releasing], releases := s.releases + [i])
  }

  function Step(s: State, e: Event): (t: State)
    requires Enabled(s, e)
  {
    match e
    case Settle(i, ok) =>
      s.(items := s.items[i := if ok then Held else Refused],
         acquired := if ok then s.acquired + {i} else s.acquired, faulted := s.faulted || !ok)
    case Take =>
      if s.items[s.phase.item].Refused? then s.(phase := Draining(true))
      else s.(phase := Consuming(s.phase.item), consumed := s.consumed + [s.phase.item])
    case Consumed(ok) =>
      CallRelease(s, s.phase.item).(phase := Returning(s.phase.item, ok), faulted := s.faulted || !ok)
    case Acknowledged(ok) =>
      var returned := s.(items := s.items[s.phase.item := Released(ok)], faulted := s.faulted || !ok);
      if s.phase.consumed && ok then Loop(Enqueue(returned)) else returned.(phase := Draining(true))
    case DrainRelease(i) => CallRelease(s, i)
    case DrainAcknowledged(i, ok) => s.(items := s.items[i := Released(ok)], faulted := s.faulted || !ok)
    case Finish =>
      s.(phase := Finished(!s.phase.failed
                           && forall i :: i in s.pending ==> i < |s.items| && s.items[i] != Released(false)))
  }

  // ----- What every state keeps -----

  function Least(a: nat, b: nat): nat { if a < b then a else b }

  // A run of consecutive items.
  ghost predicate Consecutive(s: seq<nat>, from: nat) {
    forall k: nat :: k < |s| ==> s[k] == from + k
  }

  predicate Settled(i: Item) {
    i.Refused? || i.Released?
  }

  // Requested, and not consumed yet.
  predicate Ahead(i: Item) {
    i.InFlight? || i.Held? || i.Refused?
  }

  // Items before `done` are over with, those from `ahead` on are pending.
  ghost predicate InPlace(s: State, done: nat, ahead: nat) {
    && done <= ahead <= s.next <= |s.items| && |s.pending| == s.next - ahead && Consecutive(s.pending, ahead)
    && (forall i: nat :: i < done ==> s.items[i] == Released(true))
    && (forall i: nat :: ahead <= i < s.next ==> Ahead(s.items[i]))
  }

  // After a failure only a pending request can be unsettled.
  ghost predicate Drained(s: State) {
    && s.faulted && |s.pending| <= 1 && |s.pending| <= s.next <= |s.items|
    && Consecutive(s.pending, s.next - |s.pending|)
    && forall j: nat :: j < s.next - |s.pending| ==> Settled(s.items[j])
  }

  ghost predicate AllDone(s: State) {
    |s.consumed| == s.next == |s.items| && InPlace(s, s.next, s.next)
  }

  ghost predicate PhaseHolds(s: State) {
    var c := |s.consumed|;
    match s.phase
    case Awaiting(i) => i == c && InPlace(s, c, c + 1) && s.next == Least(|s.items|, c + 2) && Ahead(s.items[c])
    case Consuming(i) =>
      && c > 0 && i == c - 1 && InPlace(s, c - 1, c)
      && s.next == Least(|s.items|, c + 1) && s.items[i].Held?
    case Returning(i, _) =>
      && c > 0 && i == c - 1 && InPlace(s, c - 1, c)
      && s.next == Least(|s.items|, c + 1) && s.items[i].Releasing?
    case Draining(failed) => if failed then Drained(s) else AllDone(s)
    case Finished(ok) =>
      if ok then AllDone(s)
      else s.faulted && s.next <= |s.items| && forall j: nat :: j < s.next ==> Settled(s.items[j])
  }

  // Each lease acquired is released once, by a call logged once.
  ghost predicate LogsHold(s: State) {
    && Distinct(s.releases)
    && (forall i: nat :: i in s.releases <==> i < |s.items| && (s.items[i].Releasing? || s.items[i].Released?))
    && (forall i: nat :: i in s.acquired <==>
          i < |s.items| && (s.items[i].Held? || s.items[i].Releasing? || s.items[i].Released?))
  }

  ghost predicate Inv(s: State) {
    && s.next <= |s.items| && (forall i: nat :: i < |s.items| ==> (s.items[i].Unrequested? <==> s.next <= i))
    && |s.consumed| <= s.next && Consecutive(s.consumed, 0)
    && LogsHold(s) && PhaseHolds(s) && (s.faulted ==> Faulty(s))
    && (forall i: nat :: i < |s.items| && s.items[i].Refused? ==> s.faulted)
    && (s.phase.Returning? && !s.phase.consumed ==> s.faulted)
  }

  // A failure leaves a trace until the pipeline ends.
  ghost predicate Faulty(s: State) {
    || (s.phase.Returning? && !s.phase.consumed) || (s.phase.Draining? && s.phase.failed)
    || (s.phase.Finished? && !s.phase.ok)
    || exists i: nat :: i < |s.items| && s.items[i].Refused?
  }

  lemma StartHolds(n: nat)
    ensures Inv(Start(n)) && |Start(n).items| == n
  {
  }

  lemma SettleKeepsPhase(s: State, i: nat, ok: bool)
    requires Inv(s) && Enabled(s, Settle(i, ok))
    ensures PhaseHolds(Step(s, Settle(i, ok)))
  {
  }

  lemma SettleKeepsLogs(s: State, i: nat, ok: bool)
    requires Inv(s) && Enabled(s, Settle(i, ok))
    ensures LogsHold(Step(s, Settle(i, ok)))
  {
  }

  lemma SettleHolds(s: State, i: nat, ok: bool)
    requires Inv(s) && Enabled(s, Settle(i, ok))
    ensures Inv(Step(s, Settle(i, ok)))
  {
    var t := Step(s, Settle(i, ok));
    SettleKeepsPhase(s, i, ok);
    SettleKeepsLogs(s, i, ok);
    if !ok { assert t.items[i].Refused?; }
    if s.faulted && exists j: nat :: j < |s.items| && s.items[j].Refused? {
      var j: nat :| j < |s.items| && s.items[j].Refused?;
      assert t.items[j].Refused?;
    }
  }

  lemma TakeHolds(s: State)
    requires Inv(s) && Enabled(s, Take)
    ensures Inv(Step(s, Take))
  {
  }

  lemma ConsumedHolds(s: State, ok: bool)
    requires Inv(s) && Enabled(s, Consumed(ok))
    ensures Inv(Step(s, Consumed(ok)))
  {
    var t := Step(s, Consumed(ok));
    if s.faulted {
      var j: nat :| j < |s.items| && s.items[j].Refused?;
      assert t.items[j].Refused?;
    }
  }

  // Going round the loop from a good position with one credit returned.
  lemma LoopHolds(s: State)
    requires |s.consumed| > 0 && InPlace(s, |s.consumed|, |s.consumed|) && s.next == Least(|s.items|, |s.consumed| + 1)
    requires Consecutive(s.consumed, 0) && LogsHold(s)
    requires forall i: nat :: i < |s.items| ==> (s.items[i].Unrequested? <==> s.next <= i)
    requires s.faulted <==> exists i: nat :: i < |s.items| && s.items[i].Refused?
    ensures Inv(Loop(Enqueue(s)))
  {
    var t := Loop(Enqueue(s));
    if s.faulted {
      var j: nat :| j < |s.items| && s.items[j].Refused?;
      assert t.items[j].Refused?;
    }
  }

  lemma AcknowledgedHolds(s: State, ok: bool)
    requires Inv(s) && Enabled(s, Acknowledged(ok))
    ensures Inv(Step(s, Acknowledged(ok)))
  {
    if s.phase.consumed && ok {
      var returned := s.(items := s.items[s.phase.item := Released(ok)]);
      if s.faulted {
        var j: nat :| j < |s.items| && s.items[j].Refused?;
        assert returned.items[j].Refused?;
      }
      LoopHolds(returned);
      assert Step(s, Acknowledged(ok)) == Loop(Enqueue(returned));
    }
  }

  lemma DrainHolds(s: State, e: Event)
    requires Inv(s) && Enabled(s, e) && (e.DrainRelease? || e.DrainAcknowledged?)
    ensures Inv(Step(s, e))
  {
  }

  lemma FinishHolds(s: State)
    requires Inv(s) && Enabled(s, Finish)
    ensures Inv(Step(s, Finish))
  {
    if s.phase.failed {
      forall j: nat | j < s.next ensures Settled(s.items[j]) {
        var base := s.next - |s.pending|;
        if j >= base { assert s.pending[j - base] == j; }
      }
    }
  }

  lemma StepHolds(s: State, e: Event)
    requires Inv(s) && Enabled(s, e)
    ensures Inv(Step(s, e))
  {
    match e
    case Settle(i, ok) => SettleHolds(s, i, ok);
    case Take => TakeHolds(s);
    case Consumed(ok) => ConsumedHolds(s, ok);
    case Acknowledged(ok) => AcknowledgedHolds(s, ok);
    case Finish => FinishHolds(s);
    case _ => DrainHolds(s, e);
  }

  // ----- Runs -----

  predicate Fails(e: Event) {
    match e
    case Settle(_, ok) => !ok
    case Consumed(ok) => !ok
    case Acknowledged(ok) => !ok
    case DrainAcknowledged(_, ok) => !ok
    case _ => false
  }

  // The states of a run of events from the start.
  ghost predicate Runs(n: nat, events: seq<Event>, s: State)
  {
    if events == [] then s == Start(n)
    else
      var last := |events| - 1;
      exists before: State :: Runs(n, events[..last], before) && Enabled(before, events[last])
                                && s == Step(before, events[last])
  }

  ghost predicate NoneFails(events: seq<Event>) {
    forall i :: 0 <= i < |events| ==> !Fails(events[i])
  }

  lemma {:induction false} RunHolds(n: nat, events: seq<Event>, s: State)
    requires Runs(n, events, s)
    ensures Inv(s) && |s.items| == n && (s.faulted <==> !NoneFails(events))
  {
    if events == [] {
      StartHolds(n);
    } else {
      var last := |events| - 1;
      var before: State :| Runs(n, events[..last], before) && Enabled(before, events[last])
                           && s == Step(before, events[last]);
      RunHolds(n, events[..last], before);
      StepHolds(before, events[last]);
      StepFaults(before, events[last]);
      NoneFailsBefore(events);
    }
  }

  lemma NoneFailsBefore(events: seq<Event>)
    requires events != []
    ensures var last := |events| - 1; NoneFails(events) <==> NoneFails(events[..last]) && !Fails(events[last])
  {
    var last := |events| - 1;
    assert forall i :: 0 <= i < last ==> events[..last][i] == events[i];
  }

  lemma StepFaults(s: State, e: Event)
    requires Enabled(s, e)
    ensures |Step(s, e).items| == |s.items| && (Step(s, e).faulted <==> s.faulted || Fails(e))
  {
  }

  // Leases requested and not given back.
  predicate Outstanding(i: Item) {
    i.InFlight? || i.Held? || i.Releasing?
  }

  function OutstandingItems(s: State): set<nat> {
    set i: nat | i < |s.items| && Outstanding(s.items[i])
  }

  lemma SmallSet(s: set<nat>, a: int)
    requires forall i :: i in s ==> i == a || i == a + 1
    ensures |s| <= 2
  {
    if a in s && a + 1 in s {
      assert s == {a, a + 1};
    } else if a in s {
      assert s == {a};
    } else if a + 1 in s {
      assert s == {a + 1};
    } else {
      assert s == {};
    }
  }

  // At any time at most two leases are requested and unreleased.
  lemma TwoCredits(s: State)
    requires Inv(s)
    ensures |OutstandingItems(s)| <= 2
  {
    SmallSet(OutstandingItems(s), s.next - 2);
  }

  // Items are consumed in order, each once; when the pipeline ends every
  // request has settled and every lease acquired was released by exactly one
  // call. It succeeds exactly when nothing failed, and then all items were consumed.
  lemma FinishedRun(n: nat, events: seq<Event>, s: State)
    requires Runs(n, events, s)
    ensures forall k :: 0 <= k < |s.consumed| ==> s.consumed[k] == k < n
    ensures |s.items| == n && Distinct(s.releases)
    ensures s.phase.Finished? ==> s.acquired == set i | i in s.releases
    ensures s.phase.Finished? ==>
              forall i: nat :: i < n ==> s.items[i].Unrequested? || s.items[i].Refused? || s.items[i].Released?
    ensures s.phase.Finished? ==> (s.phase.ok <==> NoneFails(events))
    ensures s.phase.Finished? && s.phase.ok ==> |s.consumed| == n
  {
    RunHolds(n, events, s);
  }

  // A failure while draining is never the error reported: with no failure before it there is nothing to drain.
  lemma NothingToDrain(s: State)
    requires Inv(s) && s.phase == Draining(false)
    ensures s.pending == [] && Step(s, Finish).phase == Finished(true)
  {
  }

  // ----- Progress -----

  // Something can happen until the pipeline ends.
  lemma NeverStuck(s: State) returns (e: Event)
    requires Inv(s) && !s.phase.Finished?
    ensures Enabled(s, e)
  {
    match s.phase
    case Awaiting(i) => e := if s.items[i].InFlight? then Settle(i, true) else Take;
    case Consuming(i) => e := Consumed(true);
    case Returning(i, _) => e := Acknowledged(true);
    case Draining(failed) =>
      e := Finish;
      if s.pending != [] {
        var j := s.pending[0];
        assert j in s.pending && forall k :: k in s.pending ==> k == j;
        if s.items[j].InFlight? { e := Settle(j, true); }
        else if s.items[j].Held? { e := DrainRelease(j); }
        else if s.items[j].Releasing? { e := DrainAcknowledged(j, true); }
      }
  }

  function Left(i: Item): nat {
    match i
    case Unrequested => 6
    case InFlight => 5
    case Held => 4
    case Releasing => 3
    case _ => 0
  }

  function ItemsLeft(items: seq<Item>): nat {
    if items == [] then 0 else ItemsLeft(items[..|items| - 1]) + Left(items[|items| - 1])
  }

  lemma {:induction false} ItemChanges(items: seq<Item>, i: nat, item: Item)
    requires i < |items|
    ensures ItemsLeft(items[i := item]) == ItemsLeft(items) - Left(items[i]) + Left(item)
  {
    var last := |items| - 1;
    if i < last {
      ItemChanges(items[..last], i, item);
      assert items[i := item][..last] == items[..last][i := item];
    } else {
      assert items[i := item][..last] == items[..last];
    }
  }

  function StepsLeft(s: State): nat {
    ItemsLeft(s.items) + match s.phase case Awaiting(_) => 2 case Finished(_) => 0 case _ => 1
  }

  lemma EnqueueSpends(s: State)
    requires s.next < |s.items| ==> s.items[s.next].Unrequested?
    requires |s.items| >= s.next
    ensures ItemsLeft(Enqueue(s).items) <= ItemsLeft(s.items)
  {
    if s.next < |s.items| { ItemChanges(s.items, s.next, InFlight); }
  }

  // What the measure needs of a state: the next item is unrequested, and the current one not given back.
  ghost predicate Spends(s: State) {
    && s.next <= |s.items| && (s.next < |s.items| ==> s.items[s.next].Unrequested?)
    && (s.phase.Consuming? ==> s.phase.item < |s.items| && s.items[s.phase.item].Held?)
    && (s.phase.Returning? ==> s.phase.item < s.next && s.items[s.phase.item].Releasing?)
  }

  lemma InvariantSpends(s: State)
    requires Inv(s)
    ensures Spends(s)
  {
  }

  lemma AcknowledgedSpends(s: State, ok: bool)
    requires Spends(s) && Enabled(s, Acknowledged(ok))
    ensures StepsLeft(Step(s, Acknowledged(ok))) < StepsLeft(s)
  {
    var returned := s.(items := s.items[s.phase.item := Released(ok)], faulted := s.faulted || !ok);
    ItemChanges(s.items, s.phase.item, Released(ok));
    EnqueueSpends(returned);
    assert ItemsLeft(Step(s, Acknowledged(ok)).items) <= ItemsLeft(returned.items);
  }

  lemma EventSpends(s: State, e: Event)
    requires Spends(s) && Enabled(s, e)
    ensures StepsLeft(Step(s, e)) < StepsLeft(s)
  {
    match e
    case Settle(i, ok) => ItemChanges(s.items, i, if ok then Held else Refused);
    case Take =>
    case Consumed(ok) => ItemChanges(s.items, s.phase.item, Releasing);
    case Acknowledged(ok) => AcknowledgedSpends(s, ok);
    case DrainRelease(i) => ItemChanges(s.items, i, Releasing);
    case DrainAcknowledged(i, ok) => ItemChanges(s.items, i, Released(ok));
    case Finish =>
  }

  // Every event uses up a step, so every run ends.
  lemma StepSpends(s: State, e: Event)
    requires Inv(s) && Enabled(s, e)
    ensures StepsLeft(Step(s, e)) < StepsLeft(s)
  {
    InvariantSpends(s);
    EventSpends(s, e);
  }

  lemma {:induction false} RunIsBounded(n: nat, events: seq<Event>, s: State)
    requires Runs(n, events, s)
    ensures |events| + StepsLeft(s) <= StepsLeft(Start(n))
  {
    if events != [] {
      var last := |events| - 1;
      var before: State :| Runs(n, events[..last], before) && Enabled(before, events[last])
                           && s == Step(before, events[last]);
      RunIsBounded(n, events[..last], before);
      RunHolds(n, events[..last], before);
      StepSpends(before, events[last]);
    }
  }
}
