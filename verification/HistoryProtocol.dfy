// The frontend's transaction over the national history store
// (src/App.tsx, src/national-radar/NationalFinalizeLoop.ts and NationalRollbackLoop.ts).
//
// The channel is a script: each call takes the next exchange, which says what
// else reached the store first and whether the call ran and its reply arrived.
// The end of the script is the application's teardown.
module HistoryProtocol {
  import opened Common
  import opened NationalHistory

  datatype Delivery = NotExecuted | ReplyLost | ReplySeen

  datatype Exchange = Exchange(before: seq<Command>, delivery: Delivery)

  datatype Reply = NoReply | Replied(error: Option<HistoryError>)

  // Between this transaction's calls only presentations and newer generations reach the store.
  ghost predicate Foreign(command: Command, generation: nat) {
    match command
    case Reset(newer, _) => newer > generation
    case Present(_, _, _) => true
    case _ => false
  }

  ghost predicate ForeignOnly(script: seq<Exchange>, generation: nat) {
    forall k, c :: 0 <= k < |script| && c in script[k].before ==> Foreign(c, generation)
  }

  // ----- Where the backend stands, relative to the store `s0` that staged `id` -----

  datatype Phase = StillStaged | Reversible | Sealed | Undone | Superseded

  ghost predicate StandsAt(s0: Store, id: Identity, s: Store, phase: Phase)
    requires s0.staged.Some?
  {
    s.limit == s0.limit && match phase
    case Superseded => s.generation.Some? && s.generation.value > id.generation
    case StillStaged => && s.generation == s0.generation && s.staged == s0.staged && s.journal.None?
                        && s.retained == s0.retained && s.backfill == s0.backfill
    case Undone => && s.generation == s0.generation && s.staged.None? && s.journal.None?
                   && s.retained == s0.retained && s.backfill == s0.backfill
    case Reversible => && s.generation == s0.generation && s.staged.None? && CommitError(s0, id).None?
                       && s.journal.Some? && s.journal.value.observation == ObservationOf(s0.staged.value.frame)
                       && s.journal.value.retained == s0.retained && s.journal.value.backfill == s0.backfill
                       && s.retained == Committed(s0).retained && s.backfill == Committed(s0).backfill
    case Sealed => && s.generation == s0.generation && s.staged.None? && CommitError(s0, id).None? && s.journal.None?
                   && s.sealed == Some(ObservationOf(s0.staged.value.frame))
                   && s.retained == Committed(s0).retained && s.backfill == Committed(s0).backfill
  }

  // A mutation is staged and the history holds no trace of it yet.
  ghost predicate Starts(s0: Store, id: Identity) {
    && s0.generation == Some(id.generation) && s0.journal.None?
    && s0.staged.Some? && IdentityOf(s0.staged.value.frame) == id
    && forall f :: f in s0.retained ==> IdentityOf(f) != id
  }

  lemma {:induction false} ForeignKeepsPhase(s0: Store, id: Identity, s: Store, commands: seq<Command>, phase: Phase)
    returns (after: Phase)
    requires Starts(s0, id) && StandsAt(s0, id, s, phase)
    requires forall c :: c in commands ==> Foreign(c, id.generation)
    ensures after == phase || after.Superseded?
    ensures StandsAt(s0, id, Run(s, commands), after)
    decreases |commands|
  {
    after := phase;
    if commands != [] {
      assert commands[0] in commands;
      if commands[0].Reset? { after := Superseded; }
      var step := Step(s, commands[0]).store;
      assert StandsAt(s0, id, step, after);
      after := ForeignKeepsPhase(s0, id, step, commands[1..], after);
    }
  }

  // ----- Calls -----

  function Exchanged(s: Store, command: Command, x: Exchange): (Store, Reply) {
    var reached := Run(s, x.before);
    if x.delivery.NotExecuted? then (reached, NoReply)
    else
      var outcome := Step(reached, command);
      (outcome.store, if x.delivery.ReplyLost? then NoReply else Replied(outcome.error))
  }

  // A call that does not execute changes nothing; one that does has its effect
  // whether or not its reply is seen.
  lemma DeliveryMeans(s: Store, command: Command, x: Exchange)
    ensures var (after, reply) := Exchanged(s, command, x);
            var outcome := Step(Run(s, x.before), command);
            && (reply == Replied(outcome.error) <==> x.delivery.ReplySeen?)
            && (reply == NoReply <==> !x.delivery.ReplySeen?)
            && after == (match x.delivery
                         case NotExecuted => Run(s, x.before)
                         case ReplyLost => outcome.store
                         case ReplySeen => outcome.store)
  {
  }

  method Perform(store: NationalHistoryStore, command: Command) returns (error: Option<HistoryError>)
    modifies store
    ensures Outcome(store.State(), error) == Step(old(store.State()), command)
  {
    match command {
      case Reset(generation, backfill) => store.Reset(generation, backfill); error := None;
      case Stage(kind, frame) => error := store.StageFrame(kind, frame);
      case Commit(id) => var evicted; error, evicted := store.CommitStaged(id);
      case Finalize(id) => error := store.FinalizeCommit(id);
      case Rollback(id) => error := store.RollbackMutation(id);
      case Present(id, captured, grid) => error := store.ShowDetail(id, captured, grid);
    }
  }

  method Interfere(store: NationalHistoryStore, commands: seq<Command>)
    modifies store
    ensures store.State() == Run(old(store.State()), commands)
  {
    for i := 0 to |commands|
      invariant Run(store.State(), commands[i..]) == Run(old(store.State()), commands)
    {
      var error := Perform(store, commands[i]);
      assert commands[i..][1..] == commands[i + 1..];
    }
  }

  method Call(store: NationalHistoryStore, command: Command, x: Exchange) returns (reply: Reply)
    modifies store
    ensures (store.State(), reply) == Exchanged(old(store.State()), command, x)
  {
    Interfere(store, x.before);
    if x.delivery.NotExecuted? { return NoReply; }
    var error := Perform(store, command);
    reply := if x.delivery.ReplyLost? then NoReply else Replied(error);
  }

  // The snapshot call; it never changes the store itself.
  method Snapshot(store: NationalHistoryStore, x: Exchange) returns (snapshot: Option<Store>)
    modifies store
    ensures store.State() == Run(old(store.State()), x.before)
    ensures snapshot == if x.delivery.ReplySeen? then Some(store.State()) else None
  {
    Interfere(store, x.before);
    snapshot := if x.delivery.ReplySeen? then Some(store.State()) else None;
  }

  predicate Shows(s: Store, observation: Observation) {
    exists f :: f in s.retained && ObservationOf(f) == observation
  }

  predicate ContainsFinalized(s: Store, observation: Observation) {
    && s.generation == Some(observation.identity.generation)
    && s.staged.None? && s.journal.None? && JournalBytes(s) == 0
    && Shows(s, observation)
  }

  predicate ProvesRollback(s: Store, observation: Observation) {
    && s.generation == Some(observation.identity.generation)
    && s.staged.None? && StagedBytes(s) == 0 && s.journal.None? && JournalBytes(s) == 0
    && !Shows(s, observation)
  }

  // What this transaction's calls do to the phase.
  lemma CallMovesPhase(s0: Store, id: Identity, s: Store, command: Command, x: Exchange, phase: Phase)
    returns (after: Phase)
    requires Starts(s0, id) && StandsAt(s0, id, s, phase)
    requires forall c :: c in x.before ==> Foreign(c, id.generation)
    requires match command
             case Commit(other) => other == id && phase.StillStaged?
             case Finalize(other) => other == id && (phase.Reversible? || phase.Sealed? || phase.Superseded?)
             case Rollback(other) => other == id && !phase.Sealed?
             case _ => false
    ensures var (s', reply) := Exchanged(s, command, x);
            && StandsAt(s0, id, s', after) && (phase.Superseded? ==> after.Superseded?)
            && (after.Superseded? && reply.Replied? ==> reply.error == Some(GenerationStale))
            && (reply == Replied(Some(GenerationStale)) ==> after.Superseded?)
            && (command.Commit? ==> after.StillStaged? || after.Reversible? || after.Superseded?)
            && (command.Commit? && reply == Replied(None) ==> after.Reversible?)
            && (command.Finalize? ==> after.Reversible? || after.Sealed? || after.Superseded?)
            && (command.Finalize? && !x.delivery.NotExecuted? ==> after.Sealed? || after.Superseded?)
            && (command.Finalize? && after.Sealed? && x.delivery.ReplySeen? ==> reply == Replied(None))
            && (command.Rollback? ==> !after.Sealed?)
            && (command.Rollback? && !x.delivery.NotExecuted? ==> after.Undone? || after.Superseded?)
            && ((command.Finalize? && phase.Sealed?) || (command.Rollback? && phase.Undone?) ==>
                 after == phase || after.Superseded?)
  {
    var reached := Run(s, x.before);
    after := ForeignKeepsPhase(s0, id, s, x.before, phase);
    if !x.delivery.NotExecuted? && !after.Superseded? {
      match command
      case Commit(_) => if CommitError(reached, id).None? { after := Reversible; }
      case Finalize(_) => after := Sealed;
      case Rollback(_) => after := Undone;
    }
  }

  method Transact(store: NationalHistoryStore, ghost s0: Store, command: Command, id: Identity, x: Exchange,
                  ghost phase: Phase)
    returns (reply: Reply, ghost after: Phase)
    requires Starts(s0, id) && StandsAt(s0, id, store.State(), phase)
    requires forall c :: c in x.before ==> Foreign(c, id.generation)
    requires || (command == Commit(id) && phase.StillStaged?)
             || (command == Finalize(id) && (phase.Reversible? || phase.Sealed? || phase.Superseded?))
             || (command == Rollback(id) && !phase.Sealed?)
    modifies store
    ensures reply == Exchanged(old(store.State()), command, x).1
    ensures StandsAt(s0, id, store.State(), after) && (phase.Superseded? ==> after.Superseded?)
    ensures reply == Replied(Some(GenerationStale)) ==> after.Superseded?
    ensures command.Commit? ==> (after.StillStaged? || after.Reversible? || after.Superseded?)
                                && (reply == Replied(None) ==> after.Reversible?)
    ensures command.Finalize? ==> (after.Reversible? || after.Sealed? || after.Superseded?)
                                  && (!x.delivery.NotExecuted? ==> after.Sealed? || after.Superseded?)
                                  && (x.delivery.ReplySeen? ==>
                                        reply == Replied(if after.Sealed? then None else Some(GenerationStale)))
    ensures command.Rollback? ==> !after.Sealed? && (!x.delivery.NotExecuted? ==> after.Undone? || after.Superseded?)
    ensures (command.Finalize? && phase.Sealed?) || (command.Rollback? && phase.Undone?) ==>
              after == phase || after.Superseded?
    ensures reply == Replied(None) ==> !x.delivery.NotExecuted? && !after.Superseded?
  {
    after := CallMovesPhase(s0, id, store.State(), command, x, phase);
    reply := Call(store, command, x);
  }

  // Whatever arrives is what the store held when the snapshot ran.
  method Recover(store: NationalHistoryStore, ghost s0: Store, id: Identity, x: Exchange, ghost phase: Phase)
    returns (snapshot: Option<Store>, ghost after: Phase)
    requires Starts(s0, id) && StandsAt(s0, id, store.State(), phase)
    requires forall c :: c in x.before ==> Foreign(c, id.generation)
    modifies store
    ensures StandsAt(s0, id, store.State(), after) && (after == phase || after.Superseded?)
    ensures snapshot == if x.delivery.ReplySeen? then Some(store.State()) else None
  {
    after := ForeignKeepsPhase(s0, id, store.State(), x.before, phase);
    snapshot := Snapshot(store, x);
  }

  // What the two proofs of a snapshot amount to in each phase.
  lemma SnapshotProofs(s0: Store, id: Identity, s: Store, phase: Phase)
    requires Starts(s0, id) && StandsAt(s0, id, s, phase)
    ensures var observation := ObservationOf(s0.staged.value.frame);
            && (ContainsFinalized(s, observation) ==> phase.Sealed?)
            && (phase.Sealed? && Shows(Committed(s0), observation) ==> ContainsFinalized(s, observation))
            && (ProvesRollback(s, observation) ==> phase.Undone? || phase.Sealed?)
            && (phase.Undone? ==> ProvesRollback(s, observation))
  {
    assert forall f :: f in s0.retained ==> ObservationOf(f) != ObservationOf(s0.staged.value.frame);
  }

  // ----- The retry loops -----

  datatype Settlement = Settled | GenerationLost | TornDown

  const MAXIMUM_RETRY_DELAY_LEVEL: nat := 6

  function Level(retries: nat): nat {
    if retries < MAXIMUM_RETRY_DELAY_LEVEL then retries else MAXIMUM_RETRY_DELAY_LEVEL
  }

  // Each wait is one level longer than the last, up to the cap; retries are not capped.
  ghost predicate Backoff(waits: seq<nat>) {
    forall i :: 0 <= i < |waits| ==> waits[i] == Level(i + 1)
  }

  // So the waits go 1, 2, 3, 4, 5, 6, 6, 6 and on.
  lemma WaitsAre(waits: seq<nat>)
    ensures Backoff(waits) <==> forall i :: 0 <= i < |waits| ==> waits[i] == if i < 6 then i + 1 else 6
  {
  }

  function NextLevel(level: nat): nat {
    if level + 1 < MAXIMUM_RETRY_DELAY_LEVEL then level + 1 else MAXIMUM_RETRY_DELAY_LEVEL
  }

  // The call at `k` ran and the snapshot after it arrived.
  predicate GotThrough(script: seq<Exchange>, k: nat) {
    k + 1 < |script| && !script[k].delivery.NotExecuted? && script[k + 1].delivery.ReplySeen?
  }

  ghost predicate NeverGotThrough(script: seq<Exchange>, from: nat, to: nat) {
    forall k: nat :: from <= k < to && (k - from) % 2 == 0 ==> !GotThrough(script, k)
  }

  ghost predicate NeverAnswered(script: seq<Exchange>, from: nat, to: nat) {
    forall k: nat :: from <= k < to && k < |script| && (k - from) % 2 == 0 ==> !script[k].delivery.ReplySeen?
  }

  // Not one of the calls ran.
  ghost predicate NeverRan(script: seq<Exchange>, from: nat, to: nat) {
    forall k: nat :: from <= k < to && k < |script| && (k - from) % 2 == 0 ==> script[k].delivery.NotExecuted?
  }

  // One more pass without success.
  lemma NeverNext(script: seq<Exchange>, from: nat, to: nat)
    requires from <= to < |script| && (to - from) % 2 == 0
    ensures NeverGotThrough(script, from, to) && !GotThrough(script, to) ==> NeverGotThrough(script, from, to + 2)
    ensures NeverAnswered(script, from, to) && !script[to].delivery.ReplySeen? ==> NeverAnswered(script, from, to + 2)
    ensures NeverRan(script, from, to) && script[to].delivery.NotExecuted? ==> NeverRan(script, from, to + 2)
  {
    assert (to + 1 - from) % 2 == 1;
  }

  // The wait before the next pass.
  method Wait(level: nat, waits: seq<nat>) returns (nextLevel: nat, nextWaits: seq<nat>)
    requires Backoff(waits) && level == Level(|waits|)
    ensures Backoff(nextWaits) && nextLevel == Level(|nextWaits|)
  {
    nextLevel := NextLevel(level);
    nextWaits := waits + [nextLevel];
  }

  // One pass of the finalize loop: seal, and if no success arrives ask for a snapshot.
  method TryFinalize(store: NationalHistoryStore, ghost s0: Store, observation: Observation,
                     script: seq<Exchange>, at: nat, ghost phase: Phase)
    returns (settlement: Option<Settlement>, ghost after: Phase)
    requires Starts(s0, observation.identity) && observation == ObservationOf(s0.staged.value.frame)
    requires ForeignOnly(script, observation.identity.generation) && at < |script|
    requires StandsAt(s0, observation.identity, store.State(), phase)
    requires phase.Reversible? || phase.Sealed? || phase.Superseded?
    modifies store
    ensures StandsAt(s0, observation.identity, store.State(), after)
    ensures after.Reversible? || after.Sealed? || after.Superseded?
    ensures phase.Superseded? ==> after.Superseded?
    ensures settlement == Some(Settled) ==> after.Sealed? || after.Superseded?
    ensures settlement == Some(GenerationLost) ==> after.Superseded?
    ensures settlement != Some(TornDown)
    ensures phase.Sealed? || !script[at].delivery.NotExecuted? ==> after.Sealed? || after.Superseded?
    ensures settlement.None? ==> !script[at].delivery.ReplySeen?
    ensures settlement.None? && !after.Superseded? && Shows(Committed(s0), observation) ==> !GotThrough(script, at)
  {
    var id := observation.identity;
    var reply, snapshot;
    reply, after := Transact(store, s0, Finalize(id), id, script[at], phase);
    if reply == Replied(None) {
      return Some(Settled), after;
    }
    if at + 1 < |script| {
      snapshot, after := Recover(store, s0, id, script[at + 1], after);
      SnapshotProofs(s0, id, store.State(), after);
      if snapshot.Some? && ContainsFinalized(snapshot.value, observation) {
        return Some(Settled), after;
      }
    }
    settlement := if reply == Replied(Some(GenerationStale)) then Some(GenerationLost) else None;
  }

  method FinalizeUntilSettled(store: NationalHistoryStore, ghost s0: Store, observation: Observation,
                              script: seq<Exchange>, at: nat, ghost phase: Phase)
    returns (settlement: Settlement, waits: seq<nat>, ghost after: Phase)
    requires Starts(s0, observation.identity) && observation == ObservationOf(s0.staged.value.frame)
    requires ForeignOnly(script, observation.identity.generation) && at <= |script|
    requires StandsAt(s0, observation.identity, store.State(), phase) && (phase.Reversible? || phase.Superseded?)
    modifies store
    ensures StandsAt(s0, observation.identity, store.State(), after)
    ensures settlement.Settled? ==> after.Sealed? || after.Superseded?
    ensures settlement.GenerationLost? ==> after.Superseded?
    ensures after.Reversible? || after.Sealed? || after.Superseded?
    // One executed finalize seals, whatever becomes of its reply.
    ensures after.Reversible? ==> NeverRan(script, at, |script|)
    // A finalize reply that arrives always ends the loop.
    ensures settlement.TornDown? ==> NeverAnswered(script, at, |script|)
    // While the frame is retained, so does one executed finalize and a snapshot that arrives.
    ensures settlement.TornDown? && !after.Superseded? && Shows(Committed(s0), observation) ==>
              NeverGotThrough(script, at, |script|)
    ensures Backoff(waits)
  {
    waits, after := [], phase;
    var next, level := at, 0;
    while next < |script|
      invariant at <= next && (next - at) % 2 == 0
      invariant StandsAt(s0, observation.identity, store.State(), after)
      invariant after.Reversible? || after.Sealed? || after.Superseded?
      invariant NeverAnswered(script, at, next) && (after.Reversible? ==> NeverRan(script, at, next))
      invariant Shows(Committed(s0), observation) && !after.Superseded? ==> NeverGotThrough(script, at, next)
      invariant Backoff(waits) && level == Level(|waits|)
    {
      var tried;
      tried, after := TryFinalize(store, s0, observation, script, next, after);
      if tried.Some? {
        return tried.value, waits, after;
      }
      NeverNext(script, at, next);
      next := next + 2;
      if next < |script| { level, waits := Wait(level, waits); }
    }
    settlement := TornDown;
  }

  // One pass of the rollback loop.
  method TryRollback(store: NationalHistoryStore, ghost s0: Store, observation: Observation,
                     script: seq<Exchange>, at: nat, ghost phase: Phase)
    returns (settlement: Option<Settlement>, ghost after: Phase)
    requires Starts(s0, observation.identity) && observation == ObservationOf(s0.staged.value.frame)
    requires ForeignOnly(script, observation.identity.generation) && at < |script|
    requires StandsAt(s0, observation.identity, store.State(), phase) && !phase.Sealed?
    modifies store
    ensures StandsAt(s0, observation.identity, store.State(), after) && !after.Sealed?
    ensures phase.Superseded? ==> after.Superseded?
    ensures settlement == Some(Settled) ==> after.Undone? || after.Superseded?
    ensures settlement == Some(GenerationLost) ==> after.Superseded?
    ensures settlement != Some(TornDown)
    ensures phase.Undone? || !script[at].delivery.NotExecuted? ==> after.Undone? || after.Superseded?
    ensures settlement.None? && !after.Superseded? ==> !GotThrough(script, at)
  {
    var id := observation.identity;
    var reply, snapshot;
    reply, after := Transact(store, s0, Rollback(id), id, script[at], phase);
    if reply == Replied(None) {
      return Some(Settled), after;
    }
    if at + 1 < |script| {
      snapshot, after := Recover(store, s0, id, script[at + 1], after);
      SnapshotProofs(s0, id, store.State(), after);
      if snapshot.Some? && ProvesRollback(snapshot.value, observation) {
        return Some(Settled), after;
      }
    }
    settlement := if reply == Replied(Some(GenerationStale)) then Some(GenerationLost) else None;
  }

  method RollbackUntilSettled(store: NationalHistoryStore, ghost s0: Store, observation: Observation,
                              script: seq<Exchange>, at: nat, ghost phase: Phase)
    returns (settlement: Settlement, waits: seq<nat>, ghost after: Phase)
    requires Starts(s0, observation.identity) && observation == ObservationOf(s0.staged.value.frame)
    requires ForeignOnly(script, observation.identity.generation) && at <= |script|
    requires StandsAt(s0, observation.identity, store.State(), phase) && !phase.Sealed?
    modifies store
    ensures StandsAt(s0, observation.identity, store.State(), after) && !after.Sealed?
    ensures settlement.Settled? ==> after.Undone? || after.Superseded?
    ensures settlement.GenerationLost? ==> after.Superseded?
    // One executed rollback undoes, whatever becomes of its reply.
    ensures !after.Undone? && !after.Superseded? ==> NeverRan(script, at, |script|)
    // One executed rollback and a snapshot that arrives always end the loop.
    ensures settlement.TornDown? && !after.Superseded? ==> NeverGotThrough(script, at, |script|)
    ensures Backoff(waits)
  {
    waits, after := [], phase;
    var next, level := at, 0;
    while next < |script|
      invariant at <= next && (next - at) % 2 == 0
      invariant StandsAt(s0, observation.identity, store.State(), after) && !after.Sealed?
      invariant !after.Superseded? ==> NeverGotThrough(script, at, next)
      invariant !after.Undone? && !after.Superseded? ==> NeverRan(script, at, next)
      invariant Backoff(waits) && level == Level(|waits|)
    {
      var tried;
      tried, after := TryRollback(store, s0, observation, script, next, after);
      if tried.Some? {
        return tried.value, waits, after;
      }
      NeverNext(script, at, next);
      next := next + 2;
      if next < |script| { level, waits := Wait(level, waits); }
    }
    settlement := TornDown;
  }

  // ----- The transaction -----

  datatype Renderer = Untouched | Provisional | Final | RolledBack

  // What the renderer and the ownership checks do, in the order the transaction asks.
  datatype Frontend = Frontend(stages: bool, ownsBefore: bool, ownsAfter: bool, finalizes: bool, paints: bool)

  // The commit goes out: the frontend stages, still owns the history, and a call can be made.
  predicate Commits(frontend: Frontend, script: seq<Exchange>) {
    frontend.stages && frontend.ownsBefore && |script| > 0
  }

  // The renderer becomes final: the commit is answered with success, and the frontend goes through with it.
  predicate TurnsFinal(s0: Store, id: Identity, frontend: Frontend, script: seq<Exchange>) {
    && Commits(frontend, script) && frontend.ownsAfter && frontend.finalizes
    && Exchanged(s0, Commit(id), script[0]).1 == Replied(None)
  }

  // That is: nothing on the frontend's side stops it, the commit ran on a store that accepts it, and its reply came.
  lemma FinalMeans(s0: Store, id: Identity, frontend: Frontend, script: seq<Exchange>)
    ensures TurnsFinal(s0, id, frontend, script) <==>
            && frontend.stages && frontend.ownsBefore && frontend.ownsAfter && frontend.finalizes
            && script != [] && script[0].delivery.ReplySeen? && CommitError(Run(s0, script[0].before), id).None?
    ensures Commits(frontend, script) <==> frontend.stages && frontend.ownsBefore && script != []
  {
  }

  // Both sides agree: sealed and final, or no trace of the mutation on either side.
  ghost predicate Agree(s0: Store, id: Identity, renderer: Renderer, s: Store)
    requires s0.staged.Some?
  {
    || (renderer.Final? && StandsAt(s0, id, s, Sealed))
    || ((renderer.Untouched? || renderer.RolledBack?) && StandsAt(s0, id, s, Undone))
  }

  // A newer generation owns the store.
  ghost predicate Overtaken(s: Store, id: Identity) {
    s.generation.Some? && s.generation.value > id.generation
  }

  // What is known when the application is torn down inside a retry loop, from
  // the call at `from` on: no call of the loop got through, and the backend is
  // where one executed call takes it unless not one of them ran.
  ghost predicate Unfinished(s0: Store, observation: Observation, frontend: Frontend, script: seq<Exchange>,
                             renderer: Renderer, s: Store)
    requires s0.staged.Some?
  {
    var id, from := observation.identity, if Commits(frontend, script) then 1 else 0;
    if renderer.Final? then
      && NeverAnswered(script, from, |script|)
      && (Overtaken(s, id) || StandsAt(s0, id, s, Sealed) || NeverRan(script, from, |script|))
      && (Overtaken(s, id) || !Shows(Committed(s0), observation) || NeverGotThrough(script, from, |script|))
    else
      || Overtaken(s, id)
      || ((StandsAt(s0, id, s, Undone) || NeverRan(script, from, |script|)) && NeverGotThrough(script, from, |script|))
  }

  method Attempt(store: NationalHistoryStore, ghost s0: Store, observation: Observation, frontend: Frontend,
                 script: seq<Exchange>)
    returns (published: bool, renderer: Renderer, next: nat, settled: bool, ghost after: Phase)
    requires Starts(s0, observation.identity) && observation == ObservationOf(s0.staged.value.frame)
    requires ForeignOnly(script, observation.identity.generation) && store.State() == s0
    modifies store
    ensures StandsAt(s0, observation.identity, store.State(), after)
    ensures next == if Commits(frontend, script) then 1 else 0
    ensures renderer == if TurnsFinal(s0, observation.identity, frontend, script) then Final
                        else if frontend.stages then Provisional else Untouched
    ensures if renderer.Final? then after.Reversible? || after.Sealed? || after.Superseded?
            else !after.Sealed? && settled
    ensures renderer.Final? && settled ==> after.Sealed? || after.Superseded?
    ensures renderer.Final? && !settled ==> Unfinished(s0, observation, frontend, script, renderer, store.State())
    ensures published ==> renderer.Final? && settled && frontend.paints
    ensures renderer.Final? && settled && frontend.paints && !after.Superseded? ==> published
  {
    var id := observation.identity;
    published, renderer, next, settled, after := false, Untouched, 0, true, StillStaged;
    if !frontend.stages { return; }
    renderer := Provisional;
    if !frontend.ownsBefore || |script| == 0 { return; }
    var reply;
    reply, after := Transact(store, s0, Commit(id), id, script[0], after);
    next := 1;
    if reply != Replied(None) || !frontend.ownsAfter || !frontend.finalizes { return; }
    renderer := Final;
    var settlement, waits;
    settlement, waits, after := FinalizeUntilSettled(store, s0, observation, script, next, after);
    settled := !settlement.TornDown?;
    published := settlement.Settled? && frontend.paints;
  }

  // `settled` is false only if the application was torn down inside a retry
  // loop, and then no call of that loop got through.
  method CommitNationalHistoryMutation(store: NationalHistoryStore, observation: Observation, frontend: Frontend,
                                       script: seq<Exchange>)
    returns (published: bool, renderer: Renderer, settled: bool)
    requires Starts(store.State(), observation.identity)
    requires observation == ObservationOf(store.State().staged.value.frame)
    requires ForeignOnly(script, observation.identity.generation)
    modifies store
    ensures settled ==> || StandsAt(old(store.State()), observation.identity, store.State(), Superseded)
                        || Agree(old(store.State()), observation.identity, renderer, store.State())
    ensures !settled ==> Unfinished(old(store.State()), observation, frontend, script, renderer, store.State())
    // The renderer is final exactly when the commit succeeds and is seen to.
    ensures renderer == if TurnsFinal(old(store.State()), observation.identity, frontend, script) then Final
                        else if frontend.stages then RolledBack else Untouched
    // A sealed mutation is published if its paint arrives, and nothing else is.
    ensures published ==> renderer.Final? && settled && frontend.paints
    ensures renderer.Final? && settled && frontend.paints ==>
              published || Overtaken(store.State(), observation.identity)
    // Even when torn down, a final renderer's commit is never undone and a withdrawn one's never sealed.
    ensures exists phase :: && StandsAt(old(store.State()), observation.identity, store.State(), phase)
                            && if renderer.Final? then phase.Reversible? || phase.Sealed? || phase.Superseded?
                               else !phase.Sealed?
  {
    ghost var s0 := store.State();
    ghost var phase;
    var next;
    published, renderer, next, settled, phase := Attempt(store, s0, observation, frontend, script);
    if !renderer.Final? {
      // A rollback the renderer refuses means it has already rolled back a superseded paint.
      renderer := if renderer.Provisional? then RolledBack else renderer;
      var settlement, waits;
      settlement, waits, phase := RollbackUntilSettled(store, s0, observation, script, next, phase);
      settled := !settlement.TornDown?;
    }
  }

  // Undone leaves no stage, no journal and no retained frame of the observation;
  // only a detail shown for it while it was staged may stay (`StagedDetailSurvives`).
  lemma UndoneHasNoTrace(s0: Store, id: Identity, s: Store)
    requires Starts(s0, id) && StandsAt(s0, id, s, Undone)
    ensures s.staged.None? && s.journal.None?
    ensures TotalBytes(s) == FramesBytes(s.retained, s.released) + DetailBytes(s.detail)
    ensures forall f :: f in s.retained ==> IdentityOf(f) != id
    ensures ProvesRollback(s, ObservationOf(s0.staged.value.frame))
  {
  }

  // Sealed really holds the observation, with no open journal.
  lemma SealedHoldsObservation(s0: Store, id: Identity, s: Store)
    requires Starts(s0, id) && StandsAt(s0, id, s, Sealed)
    ensures s.sealed == Some(ObservationOf(s0.staged.value.frame)) && s.journal.None? && s.staged.None?
    // The snapshot shows it unless it was a predecessor that evicted itself from a full history.
    ensures ContainsFinalized(s, s.sealed.value) <==> !(Evicts(s0) && Grown(s0)[0] == s0.staged.value.frame)
  {
    var frame, grown := s0.staged.value.frame, Grown(s0);
    assert forall f :: f in s0.retained ==> ObservationOf(f) != ObservationOf(frame);
    if Evicts(s0) && grown[0] == frame {
      assert forall f :: f in grown[1..] ==> f in s0.retained;
    } else {
      var i := if s0.staged.value.kind.Predecessor? then 0 else |grown| - 1;
      assert grown[i] == frame;
      assert frame in s.retained by {
        if Evicts(s0) { assert grown[1..][i - 1] == frame; }
      }
    }
  }
}
