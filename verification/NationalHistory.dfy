// The bounded national history store and its staged, reversible commits
// (src-tauri/src/national_history.rs, `NationalHistoryStore`).
//
// A frame or grid carries the identity of its allocation in `id`, so equality
// is the source's pointer identity. A frame's exact pyramid sits in a shared
// cell that is only ever emptied; `released` holds the frames whose cell is
// empty.
module NationalHistory {
  import opened Common

  const BACKEND_TARGET_BYTES: nat := 4096 * 1024 * 1024

  datatype Kind = Current | Predecessor | Newer

  datatype Frame = Frame(id: nat, generation: nat, key: string, time: int, hash: string, bytes: nat, pyramid: nat)

  datatype Grid = Grid(id: nat, bytes: nat)

  // What a command names an observation by.
  datatype Identity = Identity(generation: nat, time: int, hash: string)

  datatype Observation = Observation(identity: Identity, key: string)

  datatype Staged = Staged(kind: Kind, frame: Frame)

  datatype Detail = Detail(identity: Identity, grid: Grid)

  datatype Candidate = Candidate(key: string, time: int)

  datatype Journal = Journal(observation: Observation, retained: seq<Frame>, backfill: seq<Candidate>,
                             detail: Option<Detail>)

  datatype Store = Store(
    limit: nat,
    generation: Option<nat>,
    retained: seq<Frame>,
    staged: Option<Staged>,
    backfill: seq<Candidate>,
    detail: Option<Detail>,
    journal: Option<Journal>,
    sealed: Option<Observation>,
    released: set<nat>)

  datatype HistoryError =
    | GenerationStale | StageBusy | CommitUnfinalized | BackendBudget | StageMissing | CommitStale | Duplicate
    | CurrentConflict | NotOlder | NotNewer | CommitMissing | RollbackStale | RollbackMissing | IdentityStale

  function IdentityOf(frame: Frame): Identity {
    Identity(frame.generation, frame.time, frame.hash)
  }

  function ObservationOf(frame: Frame): Observation {
    Observation(IdentityOf(frame), frame.key)
  }

  // Frames are told apart by generation, time and hash, and observations by their key as well.
  lemma IdentityNames(f: Frame, g: Frame)
    ensures IdentityOf(f) == IdentityOf(g) <==> f.generation == g.generation && f.time == g.time && f.hash == g.hash
    ensures ObservationOf(f) == ObservationOf(g) <==> IdentityOf(f) == IdentityOf(g) && f.key == g.key
  {
  }

  function Initial(limit: nat): Store {
    Store(limit, None, [], None, [], None, None, None, {})
  }

  // ----- Byte accounting -----

  function FrameBytes(frame: Frame, released: set<nat>): nat {
    frame.bytes + if frame.id in released then 0 else frame.pyramid
  }

  function FramesBytes(frames: seq<Frame>, released: set<nat>): nat {
    if frames == [] then 0 else FrameBytes(frames[0], released) + FramesBytes(frames[1..], released)
  }

  // The frames of `prior` that `current` does not share.
  function Unshared(prior: seq<Frame>, current: seq<Frame>): (frames: seq<Frame>)
    ensures forall f :: f in frames ==> f in prior && f !in current
  {
    if prior == [] then []
    else (if prior[0] in current then [] else [prior[0]]) + Unshared(prior[1..], current)
  }

  function StagedBytes(s: Store): nat {
    if s.staged.None? then 0 else FrameBytes(s.staged.value.frame, s.released)
  }

  function DetailBytes(detail: Option<Detail>): nat {
    if detail.None? then 0 else detail.value.grid.bytes
  }

  function SharesDetail(prior: Detail, current: Option<Detail>): bool {
    current.Some? && current.value.grid == prior.grid
  }

  function JournalBytes(s: Store): nat {
    match s.journal
    case None => 0
    case Some(j) =>
      FramesBytes(Unshared(j.retained, s.retained), s.released)
      + if j.detail.None? || SharesDetail(j.detail.value, s.detail) then 0 else j.detail.value.grid.bytes
  }

  function TotalBytes(s: Store): nat {
    FramesBytes(s.retained, s.released) + StagedBytes(s) + DetailBytes(s.detail) + JournalBytes(s)
  }

  // ----- Commands -----

  datatype Outcome = Outcome(store: Store, error: Option<HistoryError>)

  function Refused(s: Store, error: HistoryError): Outcome { Outcome(s, Some(error)) }

  // A new generation owns an empty store.
  function AfterReset(s: Store, generation: nat, backfill: seq<Candidate>): Store {
    Initial(s.limit).(generation := Some(generation), backfill := backfill, released := s.released)
  }

  function Staging(s: Store, kind: Kind, frame: Frame): Outcome {
    if s.generation != Some(frame.generation) then Refused(s, GenerationStale)
    else if s.staged.Some? then Refused(s, StageBusy)
    else if s.journal.Some? then Refused(s, CommitUnfinalized)
    else if TotalBytes(s) + FrameBytes(frame, s.released) > BACKEND_TARGET_BYTES then Refused(s, BackendBudget)
    else Outcome(s.(staged := Some(Staged(kind, frame))), None)
  }

  // Why a commit of `id` is refused, in the order the source checks.
  function CommitError(s: Store, id: Identity): Option<HistoryError> {
    if s.generation != Some(id.generation) then Some(GenerationStale)
    else if s.journal.Some? then Some(CommitUnfinalized)
    else if s.staged.None? then Some(StageMissing)
    else
      var frame := s.staged.value.frame;
      if IdentityOf(frame) != id then Some(CommitStale)
      else if exists f :: f in s.retained && (f.key == frame.key || f.hash == frame.hash) then Some(Duplicate)
      else match s.staged.value.kind
        case Current => if s.retained != [] then Some(CurrentConflict) else None
        case Predecessor => if s.retained != [] && frame.time >= s.retained[0].time then Some(NotOlder) else None
        case Newer => if s.retained != [] && frame.time <= s.retained[|s.retained| - 1].time
          then Some(NotNewer) else None
  }

  // The retained frames with the staged one in place, before any eviction.
  function Grown(s: Store): seq<Frame>
    requires s.staged.Some?
  {
    if s.staged.value.kind.Predecessor? then [s.staged.value.frame] + s.retained
    else s.retained + [s.staged.value.frame]
  }

  function Evicts(s: Store): bool
    requires s.staged.Some?
  {
    |s.retained| + 1 > s.limit
  }

  function Committed(s: Store): Store
    requires s.staged.Some?
  {
    var frame := s.staged.value.frame;
    s.(retained := if Evicts(s) then Grown(s)[1..] else Grown(s),
       backfill := if s.staged.value.kind.Predecessor? && s.backfill != [] && s.backfill[0].key == frame.key
                   then s.backfill[1..] else s.backfill,
       staged := None,
       journal := Some(Journal(ObservationOf(frame), s.retained, s.backfill, s.detail)),
       sealed := None)
  }

  function Committing(s: Store, id: Identity): Outcome {
    var error := CommitError(s, id);
    if error.Some? then Outcome(s, error) else Outcome(Committed(s), None)
  }

  function Ids(frames: seq<Frame>): set<nat> {
    set f | f in frames :: f.id
  }

  function Finalized(s: Store): Store
    requires s.journal.Some?
  {
    var observation := s.journal.value.observation;
    var appendedNewest := |s.retained| > 1 && IdentityOf(s.retained[|s.retained| - 1]) == observation.identity;
    s.(journal := None, sealed := Some(observation),
       released := if appendedNewest then s.released + Ids(s.retained) else s.released)
  }

  function Finalizing(s: Store, id: Identity): Outcome {
    if s.generation != Some(id.generation) then Refused(s, GenerationStale)
    else if s.journal.Some? then
      if s.journal.value.observation.identity != id then Refused(s, CommitStale) else Outcome(Finalized(s), None)
    else if s.sealed.Some? && s.sealed.value.identity == id then Outcome(s, None)
    else Refused(s, CommitMissing)
  }

  function RollingBack(s: Store, id: Identity): Outcome {
    if s.generation != Some(id.generation) then Refused(s, GenerationStale)
    else if s.staged.Some? then
      if IdentityOf(s.staged.value.frame) != id then Refused(s, RollbackStale) else Outcome(s.(staged := None), None)
    else if s.journal.None? then Refused(s, RollbackMissing)
    else if s.journal.value.observation.identity != id then Refused(s, RollbackStale)
    else
      var j := s.journal.value;
      Outcome(s.(retained := j.retained, backfill := j.backfill, detail := j.detail, journal := None), None)
  }

  function Finds(s: Store, id: Identity): bool {
    (s.staged.Some? && IdentityOf(s.staged.value.frame) == id) || exists f :: f in s.retained && IdentityOf(f) == id
  }

  // A finished fine presentation of `id` replaces the detail; `captured` is the
  // frame it was prepared from. One over the budget leaves no detail at all.
  function Presenting(s: Store, id: Identity, captured: Frame, grid: Grid): Outcome {
    if s.generation != Some(id.generation) then Refused(s, GenerationStale)
    else if !Finds(s, id) then Refused(s, IdentityStale)
    else
      var shown := s.(detail := Some(Detail(id, grid)), released := s.released + {captured.id});
      if TotalBytes(shown) > BACKEND_TARGET_BYTES then Outcome(shown.(detail := None), Some(BackendBudget))
      else Outcome(shown, None)
  }

  datatype Command =
    | Reset(generation: nat, backfill: seq<Candidate>)
    | Stage(kind: Kind, frame: Frame)
    | Commit(id: Identity)
    | Finalize(id: Identity)
    | Rollback(id: Identity)
    | Present(id: Identity, captured: Frame, grid: Grid)

  function Step(s: Store, command: Command): Outcome {
    match command
    case Reset(generation, backfill) => Outcome(AfterReset(s, generation, backfill), None)
    case Stage(kind, frame) => Staging(s, kind, frame)
    case Commit(id) => Committing(s, id)
    case Finalize(id) => Finalizing(s, id)
    case Rollback(id) => RollingBack(s, id)
    case Present(id, captured, grid) => Presenting(s, id, captured, grid)
  }

  function Run(s: Store, commands: seq<Command>): Store
    decreases |commands|
  {
    if commands == [] then s else Run(Step(s, commands[0]).store, commands[1..])
  }

  // ----- What every reachable store keeps -----

  ghost predicate Chronological(frames: seq<Frame>) {
    forall i, j :: 0 <= i < j < |frames| ==> frames[i].time < frames[j].time
  }

  ghost predicate DistinctObjects(frames: seq<Frame>) {
    forall i, j :: 0 <= i < j < |frames| ==> frames[i].key != frames[j].key && frames[i].hash != frames[j].hash
  }

  ghost predicate History(frames: seq<Frame>, generation: Option<nat>, limit: nat) {
    && Chronological(frames) && DistinctObjects(frames) && |frames| <= limit
    && forall f :: f in frames ==> generation == Some(f.generation)
  }

  ghost predicate Valid(s: Store) {
    && History(s.retained, s.generation, s.limit)
    && !(s.staged.Some? && s.journal.Some?)
    && (s.staged.Some? ==> s.generation == Some(s.staged.value.frame.generation))
    && (s.journal.Some? ==> History(s.journal.value.retained, s.generation, s.limit) && s.sealed.None?)
    && TotalBytes(s) <= BACKEND_TARGET_BYTES
  }

  lemma {:induction false} ReleaseLowersBytes(frames: seq<Frame>, released: set<nat>, more: set<nat>)
    requires released <= more
    ensures FramesBytes(frames, more) <= FramesBytes(frames, released)
  {
    if frames != [] {
      ReleaseLowersBytes(frames[1..], released, more);
    }
  }

  lemma {:induction false} BytesOfAppend(frames: seq<Frame>, more: seq<Frame>, released: set<nat>)
    ensures FramesBytes(frames + more, released) == FramesBytes(frames, released) + FramesBytes(more, released)
  {
    if frames == [] {
      assert frames + more == more;
    } else {
      assert (frames + more)[1..] == frames[1..] + more;
      BytesOfAppend(frames[1..], more, released);
    }
  }

  lemma {:induction false} NothingUnshared(prior: seq<Frame>, current: seq<Frame>)
    requires forall f :: f in prior ==> f in current
    ensures Unshared(prior, current) == []
  {
    if prior != [] {
      NothingUnshared(prior[1..], current);
    }
  }

  lemma BytesOfOne(frame: Frame, released: set<nat>)
    ensures FramesBytes([frame], released) == FrameBytes(frame, released)
  {
    assert [frame][1..] == [];
  }

  lemma BytesAround(before: seq<Frame>, frame: Frame, after: seq<Frame>, released: set<nat>)
    ensures FramesBytes(before + [frame] + after, released)
            == FrameBytes(frame, released) + FramesBytes(before + after, released)
  {
    BytesOfOne(frame, released);
    BytesOfAppend(before + [frame], after, released);
    BytesOfAppend(before, [frame], released);
    BytesOfAppend(before, after, released);
  }

  // Frames held by distinct allocations cost no more than what shares them and what does not.
  lemma {:induction false} SplitByShare(prior: seq<Frame>, current: seq<Frame>, released: set<nat>)
    requires Distinct(prior)
    ensures FramesBytes(prior, released)
            <= FramesBytes(current, released) + FramesBytes(Unshared(prior, current), released)
  {
    if prior != [] {
      var f, rest := prior[0], prior[1..];
      if f in current {
        var i :| 0 <= i < |current| && current[i] == f;
        assert current == current[..i] + [f] + current[i + 1..];
        BytesAround(current[..i], f, current[i + 1..], released);
        SplitByShare(rest, current[..i] + current[i + 1..], released);
        UnsharedWithout(rest, current, i);
        assert Unshared(prior, current) == Unshared(rest, current);
      } else {
        SplitByShare(rest, current, released);
        assert Unshared(prior, current) == [f] + Unshared(rest, current);
        BytesOfOne(f, released);
        BytesOfAppend([f], Unshared(rest, current), released);
      }
    }
  }

  lemma {:induction false} UnsharedWithout(prior: seq<Frame>, current: seq<Frame>, i: nat)
    requires i < |current| && current[i] !in prior
    ensures Unshared(prior, current[..i] + current[i + 1..]) == Unshared(prior, current)
  {
    if prior != [] {
      assert prior[0] in current <==> prior[0] in current[..i] + current[i + 1..] by {
        assert current == current[..i] + [current[i]] + current[i + 1..];
      }
      UnsharedWithout(prior[1..], current, i);
    }
  }

  // ----- Each allocation is counted once -----

  // A frame costs its retained bytes and, until its pyramid is released, that too.
  lemma ReleaseFreesPyramid(frames: seq<Frame>, released: set<nat>, frame: Frame)
    requires frame in frames && frame.id !in released
    requires forall i, j :: 0 <= i < j < |frames| ==> frames[i].id != frames[j].id
    ensures FramesBytes(frames, released + {frame.id}) == FramesBytes(frames, released) - frame.pyramid
  {
    var i :| 0 <= i < |frames| && frames[i] == frame;
    var more := released + {frame.id};
    assert frames == frames[..i] + [frame] + frames[i + 1..];
    BytesAround(frames[..i], frame, frames[i + 1..], released);
    BytesAround(frames[..i], frame, frames[i + 1..], more);
    SameBytes(frames[..i] + frames[i + 1..], released, more);
  }

  lemma {:induction false} SameBytes(frames: seq<Frame>, released: set<nat>, more: set<nat>)
    requires forall f :: f in frames ==> (f.id in released <==> f.id in more)
    ensures FramesBytes(frames, more) == FramesBytes(frames, released)
  {
    if frames != [] { SameBytes(frames[1..], released, more); }
  }

  // The frames a store holds, for itself or for its journal.
  ghost predicate Holds(s: Store, f: Frame) {
    || f in s.retained || (s.staged.Some? && s.staged.value.frame == f)
    || (s.journal.Some? && f in s.journal.value.retained)
  }

  ghost predicate HoldsGrid(s: Store, g: Grid) {
    || (s.detail.Some? && s.detail.value.grid == g)
    || (s.journal.Some? && s.journal.value.detail.Some? && s.journal.value.detail.value.grid == g)
  }

  function GridsBytes(grids: seq<Grid>): nat {
    if grids == [] then 0 else grids[0].bytes + GridsBytes(grids[1..])
  }

  // The total is the bytes of all frames and all grids held, in any listing that
  // names each exactly once.
  lemma TotalCountsEachOnce(s: Store, frames: seq<Frame>, grids: seq<Grid>)
    requires Valid(s) && (s.staged.Some? ==> s.staged.value.frame !in s.retained)
    requires Distinct(frames) && forall f :: f in frames <==> Holds(s, f)
    requires Distinct(grids) && forall g :: g in grids <==> HoldsGrid(s, g)
    ensures TotalBytes(s) == FramesBytes(frames, s.released) + GridsBytes(grids)
  {
    var listed := HeldFrames(s);
    HeldFramesList(s);
    SameFrames(frames, listed, s.released);
    GridsCountOnce(s, grids);
  }

  ghost function HeldFrames(s: Store): seq<Frame> {
    s.retained + (if s.staged.Some? then [s.staged.value.frame] else [])
    + if s.journal.Some? then Unshared(s.journal.value.retained, s.retained) else []
  }

  lemma HeldFramesList(s: Store)
    requires Valid(s) && (s.staged.Some? ==> s.staged.value.frame !in s.retained)
    ensures Distinct(HeldFrames(s)) && (forall f :: f in HeldFrames(s) <==> Holds(s, f))
    ensures FramesBytes(HeldFrames(s), s.released) + DetailBytes(s.detail)
            == TotalBytes(s) - JournalBytes(s)
               + if s.journal.Some? then FramesBytes(Unshared(s.journal.value.retained, s.retained), s.released) else 0
  {
    if s.staged.Some? {
      BytesOfAppend(s.retained, [s.staged.value.frame], s.released);
      BytesOfOne(s.staged.value.frame, s.released);
      assert HeldFrames(s) == s.retained + [s.staged.value.frame];
    } else if s.journal.Some? {
      var more := Unshared(s.journal.value.retained, s.retained);
      UnsharedLists(s.journal.value.retained, s.retained);
      DistinctTogether(s.retained, more);
      BytesOfAppend(s.retained, more, s.released);
      assert HeldFrames(s) == s.retained + more;
    } else {
      assert HeldFrames(s) == s.retained;
    }
  }

  lemma {:induction false} UnsharedLists(prior: seq<Frame>, current: seq<Frame>)
    requires Distinct(prior)
    ensures Distinct(Unshared(prior, current))
    ensures forall f :: f in prior && f !in current ==> f in Unshared(prior, current)
  {
    if prior != [] { UnsharedLists(prior[1..], current); }
  }

  lemma DistinctTogether(a: seq<Frame>, b: seq<Frame>)
    requires Distinct(a) && Distinct(b) && forall f :: f in b ==> f !in a
    ensures Distinct(a + b)
  {
    forall i, j | 0 <= i < j < |a + b| ensures (a + b)[i] != (a + b)[j] {
      assert i < |a| ==> (a + b)[i] in a;
      assert j >= |a| ==> (a + b)[j] in b;
    }
  }

  lemma SameFrames(a: seq<Frame>, b: seq<Frame>, released: set<nat>)
    requires Distinct(a) && Distinct(b) && forall f :: f in a <==> f in b
    ensures FramesBytes(a, released) == FramesBytes(b, released)
  {
    SplitByShare(a, b, released);
    SplitByShare(b, a, released);
    NothingUnshared(a, b);
    NothingUnshared(b, a);
  }

  lemma GridsCountOnce(s: Store, grids: seq<Grid>)
    requires Distinct(grids) && forall g :: g in grids <==> HoldsGrid(s, g)
    ensures GridsBytes(grids) == DetailBytes(s.detail) + JournalBytes(s)
            - if s.journal.Some? then FramesBytes(Unshared(s.journal.value.retained, s.retained), s.released) else 0
  {
    BytesOfFew(grids);
    if |grids| > 2 { HoldsTwoGrids(s, grids[0], grids[1], grids[2]); }
    forall i | 0 <= i < |grids| ensures HoldsGrid(s, grids[i]) { assert grids[i] in grids; }
    if s.detail.Some? { assert HoldsGrid(s, s.detail.value.grid); }
    if s.journal.Some? && s.journal.value.detail.Some? { assert HoldsGrid(s, s.journal.value.detail.value.grid); }
  }

  lemma HoldsTwoGrids(s: Store, a: Grid, b: Grid, c: Grid)
    requires a != b && b != c && a != c
    ensures !(HoldsGrid(s, a) && HoldsGrid(s, b) && HoldsGrid(s, c))
  {
  }

  lemma BytesOfFew(grids: seq<Grid>)
    ensures |grids| == 1 ==> GridsBytes(grids) == grids[0].bytes
    ensures |grids| == 2 ==> GridsBytes(grids) == grids[0].bytes + grids[1].bytes
  {
    if |grids| == 2 { BytesOfFew(grids[1..]); }
  }

  lemma AppendKeepsHistory(frames: seq<Frame>, frame: Frame, generation: Option<nat>, limit: nat)
    requires History(frames, generation, limit) && generation == Some(frame.generation)
    requires frames == [] || frames[|frames| - 1].time < frame.time
    requires forall f :: f in frames ==> f.key != frame.key && f.hash != frame.hash
    ensures History(frames + [frame], generation, limit + 1)
  {
    forall i | 0 <= i < |frames| ensures frames[i].time < frame.time {
      assert i == |frames| - 1 || frames[i].time < frames[|frames| - 1].time;
    }
  }

  lemma PrependKeepsHistory(frame: Frame, frames: seq<Frame>, generation: Option<nat>, limit: nat)
    requires History(frames, generation, limit) && generation == Some(frame.generation)
    requires frames == [] || frame.time < frames[0].time
    requires forall f :: f in frames ==> f.key != frame.key && f.hash != frame.hash
    ensures History([frame] + frames, generation, limit + 1)
  {
    var grown := [frame] + frames;
    forall i, j | 0 <= i < j < |grown|
      ensures grown[i].time < grown[j].time && grown[i].key != grown[j].key && grown[i].hash != grown[j].hash
    {
      assert grown[j] == frames[j - 1] && grown[j] in frames;
      assert j == 1 || frames[0].time < frames[j - 1].time;
    }
  }

  lemma CommitKeepsHistory(s: Store)
    requires Valid(s) && s.staged.Some? && CommitError(s, IdentityOf(s.staged.value.frame)).None?
    ensures History(Committed(s).retained, s.generation, s.limit)
  {
    GrownIsOrdered(s);
  }

  // A commit that is accepted keeps the staged frame and everything retained, up
  // to the limit; past it, exactly the oldest of them all goes.
  lemma CommitRetains(s: Store)
    requires Valid(s) && s.staged.Some? && CommitError(s, IdentityOf(s.staged.value.frame)).None?
    ensures var all, after := s.retained + [s.staged.value.frame], Committed(s).retained;
            && |after| == (if |all| <= s.limit then |all| else s.limit)
            && multiset(after) <= multiset(all)
            && forall f, g :: f in all && f !in after && g in all && g != f ==> f.time < g.time
    ensures var all, after := s.retained + [s.staged.value.frame], Committed(s).retained;
            && Grown(s)[0] in all && (Evicts(s) <==> Grown(s)[0] !in after)
            && forall f :: f in all ==> f in after || f == Grown(s)[0]
  {
    GrownIsOrdered(s);
    GrownIsAll(s);
    OldestFirst(Grown(s));
  }

  lemma GrownIsAll(s: Store)
    requires s.staged.Some?
    ensures var all := s.retained + [s.staged.value.frame];
            |Grown(s)| == |all| && multiset(Grown(s)) == multiset(all) && forall f :: f in Grown(s) <==> f in all
  {
  }

  lemma OldestFirst(frames: seq<Frame>)
    requires frames != [] && Chronological(frames)
    ensures frames[0] !in frames[1..] && multiset(frames[1..]) <= multiset(frames)
    ensures forall f :: f in frames ==> f == frames[0] || (f in frames[1..] && frames[0].time < f.time)
  {
    assert frames == [frames[0]] + frames[1..];
    forall f | f in frames[1..] ensures frames[0].time < f.time {
      var i :| 0 <= i < |frames| - 1 && frames[1..][i] == f;
      assert frames[i + 1] == f;
    }
  }

  lemma GrownIsOrdered(s: Store)
    requires Valid(s) && s.staged.Some? && CommitError(s, IdentityOf(s.staged.value.frame)).None?
    ensures History(Grown(s), s.generation, s.limit + 1)
  {
    if s.staged.value.kind.Predecessor? {
      PrependKeepsHistory(s.staged.value.frame, s.retained, s.generation, s.limit);
    } else {
      AppendKeepsHistory(s.retained, s.staged.value.frame, s.generation, s.limit);
    }
  }

  // A commit is accepted exactly when it names the frame staged, no earlier one
  // is still reversible, and the frame takes its place by its time among frames
  // with other keys and hashes; the first frame of all is the only current one.
  lemma CommitAccepts(s: Store, id: Identity)
    requires Valid(s)
    ensures CommitError(s, id).None? <==>
            && s.staged.Some? && IdentityOf(s.staged.value.frame) == id && s.generation == Some(id.generation)
            && History(Grown(s), s.generation, s.limit + 1) && (s.staged.value.kind.Current? ==> s.retained == [])
  {
    if s.staged.Some? && IdentityOf(s.staged.value.frame) == id {
      if CommitError(s, id).None? {
        GrownIsOrdered(s);
      } else if History(Grown(s), s.generation, s.limit + 1) && (s.staged.value.kind.Current? ==> s.retained == []) {
        HistoryIsAccepted(s, id);
      }
    }
  }

  lemma HistoryIsAccepted(s: Store, id: Identity)
    requires Valid(s) && s.staged.Some? && IdentityOf(s.staged.value.frame) == id && s.generation == Some(id.generation)
    requires History(Grown(s), s.generation, s.limit + 1) && (s.staged.value.kind.Current? ==> s.retained == [])
    ensures CommitError(s, id).None?
  {
    var frame, n, before := s.staged.value.frame, |s.retained|, s.staged.value.kind.Predecessor?;
    forall f | f in s.retained ensures f.key != frame.key && f.hash != frame.hash {
      var i :| 0 <= i < n && s.retained[i] == f;
      assert Grown(s)[if before then i + 1 else i] == f && Grown(s)[if before then 0 else n] == frame;
    }
    if n > 0 {
      assert before ==> Grown(s)[0] == frame && Grown(s)[1] == s.retained[0];
      assert !before ==> Grown(s)[n - 1] == s.retained[n - 1] && Grown(s)[n] == frame;
    }
  }

  // What each refusal of a commit means.
  lemma RefusalMeans(s: Store, id: Identity)
    requires Valid(s)
    ensures CommitError(s, id) == Some(GenerationStale) <==> s.generation != Some(id.generation)
    ensures match CommitError(s, id)
            case Some(CommitUnfinalized) => s.journal.Some?
            case Some(StageMissing) => s.journal.None? && s.staged.None?
            case Some(CommitStale) => s.staged.Some? && IdentityOf(s.staged.value.frame) != id
            case Some(Duplicate) => s.staged.Some? && !DistinctObjects(Grown(s))
            case Some(CurrentConflict) => s.staged.Some? && s.staged.value.kind.Current? && s.retained != []
            case Some(NotOlder) =>
              && s.staged.Some? && s.staged.value.kind.Predecessor? && DistinctObjects(Grown(s))
              && exists f :: f in s.retained && f.time <= s.staged.value.frame.time
            case Some(NotNewer) =>
              && s.staged.Some? && s.staged.value.kind.Newer? && DistinctObjects(Grown(s))
              && exists f :: f in s.retained && f.time >= s.staged.value.frame.time
            case Some(GenerationStale) => true
            case Some(_) => false
            case None => true
  {
    if s.generation == Some(id.generation) && s.staged.Some? && IdentityOf(s.staged.value.frame) == id {
      DuplicateShares(s);
      if s.retained != [] { assert s.retained[0] in s.retained && s.retained[|s.retained| - 1] in s.retained; }
    }
  }

  lemma DuplicateShares(s: Store)
    requires Valid(s) && s.staged.Some?
    ensures DistinctObjects(Grown(s)) <==>
            forall f :: f in s.retained ==> f.key != s.staged.value.frame.key && f.hash != s.staged.value.frame.hash
  {
    var frame := s.staged.value.frame;
    if s.staged.value.kind.Predecessor? { PrependIsDistinct(frame, s.retained); }
    else { AppendIsDistinct(s.retained, frame); }
  }

  lemma PrependIsDistinct(frame: Frame, frames: seq<Frame>)
    requires DistinctObjects(frames)
    ensures DistinctObjects([frame] + frames) <==>
            forall f :: f in frames ==> f.key != frame.key && f.hash != frame.hash
  {
    var grown := [frame] + frames;
    if forall f :: f in frames ==> f.key != frame.key && f.hash != frame.hash {
      forall i, j | 0 <= i < j < |grown| ensures grown[i].key != grown[j].key && grown[i].hash != grown[j].hash {
        assert grown[j] == frames[j - 1] && grown[j] in frames;
      }
    } else {
      var k :| 0 <= k < |frames| && (frames[k].key == frame.key || frames[k].hash == frame.hash);
      assert grown[0] == frame && grown[k + 1] == frames[k];
    }
  }

  lemma AppendIsDistinct(frames: seq<Frame>, frame: Frame)
    requires DistinctObjects(frames)
    ensures DistinctObjects(frames + [frame]) <==>
            forall f :: f in frames ==> f.key != frame.key && f.hash != frame.hash
  {
    var grown := frames + [frame];
    if forall f :: f in frames ==> f.key != frame.key && f.hash != frame.hash {
      forall i, j | 0 <= i < j < |grown| ensures grown[i].key != grown[j].key && grown[i].hash != grown[j].hash {
        assert grown[i] == frames[i] && grown[i] in frames;
      }
    } else {
      var k :| 0 <= k < |frames| && (frames[k].key == frame.key || frames[k].hash == frame.hash);
      assert grown[|frames|] == frame && grown[k] == frames[k];
    }
  }

  // Only a predecessor takes a backfill candidate, the first and its own.
  lemma CommitTakesCandidate(s: Store)
    requires s.staged.Some?
    ensures var frame, after := s.staged.value.frame, Committed(s).backfill;
            if s.staged.value.kind.Predecessor? && exists rest, c :: s.backfill == [c] + rest && c.key == frame.key
            then exists c :: s.backfill == [c] + after && c.key == frame.key
            else after == s.backfill
  {
    if s.backfill != [] { assert s.backfill == [s.backfill[0]] + s.backfill[1..]; }
  }

  // Appending a frame and evicting the oldest, unless the new one is the only one.
  lemma EvictionMovesBytes(frames: seq<Frame>, frame: Frame, released: set<nat>)
    requires frames != [] && Distinct(frames) && frame !in frames
    ensures var after := frames[1..] + [frame];
            FramesBytes(after, released) + FramesBytes(Unshared(frames, after), released)
            == FramesBytes(frames, released) + FrameBytes(frame, released)
  {
    var oldest, rest := frames[0], frames[1..];
    var after := rest + [frame];
    NothingUnshared(rest, after);
    assert oldest !in after;
    assert Unshared(frames, after) == [oldest];
    BytesOfOne(oldest, released);
    BytesOfOne(frame, released);
    BytesOfAppend(rest, [frame], released);
  }

  // A commit moves bytes between accounts: an evicted frame goes to the
  // journal's account. Only a frame that evicts itself lowers the total.
  lemma CommitKeepsTotal(s: Store)
    requires Valid(s) && s.staged.Some? && CommitError(s, IdentityOf(s.staged.value.frame)).None?
    ensures var selfEvicted := Evicts(s) && Grown(s)[0] == s.staged.value.frame;
            TotalBytes(Committed(s))
            == TotalBytes(s) - if selfEvicted then FrameBytes(s.staged.value.frame, s.released) else 0
  {
    var frame, retained, after := s.staged.value.frame, s.retained, Committed(s).retained;
    assert frame !in retained;
    if Evicts(s) && Grown(s)[0] != frame {
      assert after == retained[1..] + [frame];
      EvictionMovesBytes(retained, frame, s.released);
    } else {
      NothingUnshared(retained, after);
      assert FramesBytes(Unshared(retained, after), s.released) == 0;
      if Evicts(s) {
        assert after == retained;
      } else {
        BytesOfOne(frame, s.released);
        BytesOfAppend([frame], retained, s.released);
        BytesOfAppend(retained, [frame], s.released);
      }
    }
  }

  lemma CommitKeepsValid(s: Store, id: Identity)
    requires Valid(s)
    ensures Valid(Committing(s, id).store)
  {
    if CommitError(s, id).None? {
      CommitKeepsTotal(s);
      CommitKeepsHistory(s);
    }
  }

  lemma FinalizeKeepsValid(s: Store, id: Identity)
    requires Valid(s)
    ensures Valid(Finalizing(s, id).store)
  {
    ReleaseLowersBytes(s.retained, s.released, Finalizing(s, id).store.released);
  }

  lemma RollbackKeepsValid(s: Store, id: Identity)
    requires Valid(s)
    ensures Valid(RollingBack(s, id).store)
  {
    if s.staged.None? && s.journal.Some? { SplitByShare(s.journal.value.retained, s.retained, s.released); }
  }

  lemma PresentKeepsValid(s: Store, id: Identity, captured: Frame, grid: Grid)
    requires Valid(s)
    ensures Valid(Presenting(s, id, captured, grid).store)
  {
    var released := s.released + {captured.id};
    ReleaseLowersBytes(s.retained, s.released, released);
    if s.journal.Some? { ReleaseLowersBytes(Unshared(s.journal.value.retained, s.retained), s.released, released); }
  }

  lemma StepKeepsValid(s: Store, command: Command)
    requires Valid(s)
    ensures Valid(Step(s, command).store)
  {
    match command
    case Reset(_, _) =>
    case Stage(_, _) =>
    case Commit(id) => CommitKeepsValid(s, id);
    case Finalize(id) => FinalizeKeepsValid(s, id);
    case Rollback(id) => RollbackKeepsValid(s, id);
    case Present(id, captured, grid) => PresentKeepsValid(s, id, captured, grid);
  }

  // In every reachable store retained frames are strictly chronological, of the
  // owning generation, distinct by key and hash and within the limit, a stage
  // and a journal never coexist, and the total stays within the target.
  lemma {:induction false} RunKeepsValid(s: Store, commands: seq<Command>)
    requires Valid(s)
    ensures Valid(Run(s, commands))
    decreases |commands|
  {
    if commands != [] {
      StepKeepsValid(s, commands[0]);
      RunKeepsValid(Step(s, commands[0]).store, commands[1..]);
    }
  }

  lemma ReachableIsValid(limit: nat, commands: seq<Command>)
    ensures Valid(Run(Initial(limit), commands))
  {
    RunKeepsValid(Initial(limit), commands);
  }

  // ----- Exact rollback -----

  // Commands that neither seal, undo nor abandon a commit of `id`.
  ghost predicate LeavesJournal(command: Command, id: Identity) {
    match command
    case Reset(_, _) => false
    case Finalize(other) => other != id
    case Rollback(other) => other != id
    case _ => true
  }

  lemma StepLeavesJournal(s: Store, c: Command, id: Identity)
    requires Valid(s) && s.journal.Some? && s.journal.value.observation.identity == id && LeavesJournal(c, id)
    ensures var t := Step(s, c).store; Valid(t) && t.journal == s.journal && t.generation == s.generation
  {
    StepKeepsValid(s, c);
  }

  lemma {:induction false} JournalSurvives(s: Store, commands: seq<Command>, id: Identity)
    requires Valid(s) && s.journal.Some? && s.journal.value.observation.identity == id
    requires forall c :: c in commands ==> LeavesJournal(c, id)
    ensures Run(s, commands).journal == s.journal && Run(s, commands).generation == s.generation
    decreases |commands|
  {
    if commands != [] {
      StepLeavesJournal(s, commands[0], id);
      JournalSurvives(Step(s, commands[0]).store, commands[1..], id);
    }
  }

  // Rolling back a commit restores retained frames, backfill candidates and
  // detail exactly as they were when it began, whatever ran in between.
  lemma RollbackRestores(s: Store, id: Identity, between: seq<Command>)
    requires Valid(s) && CommitError(s, id).None?
    requires forall c :: c in between ==> LeavesJournal(c, id)
    ensures var undone := RollingBack(Run(Committed(s), between), id);
            && undone.error.None? && undone.store.staged.None? && undone.store.journal.None?
            && undone.store.retained == s.retained && undone.store.backfill == s.backfill
            && undone.store.detail == s.detail
  {
    StepKeepsValid(s, Commit(id));
    JournalSurvives(Committed(s), between, id);
    RunKeepsValid(Committed(s), between);
  }

  // A detail shown for an observation while it was staged outlives it: rolling
  // the stage back keeps the detail, and rolling back its commit restores it.
  lemma StagedDetailSurvives(s: Store, id: Identity, captured: Frame, grid: Grid, between: seq<Command>)
    requires Valid(s) && s.staged.Some? && IdentityOf(s.staged.value.frame) == id
    requires Presenting(s, id, captured, grid).error.None?
    requires forall c :: c in between ==> LeavesJournal(c, id)
    ensures var shown := Presenting(s, id, captured, grid).store;
            && RollingBack(shown, id) == Outcome(shown.(staged := None), None) && shown.detail == Some(Detail(id, grid))
            && (CommitError(shown, id).None? ==>
                  RollingBack(Run(Committed(shown), between), id).store.detail == Some(Detail(id, grid)))
  {
    var shown := Presenting(s, id, captured, grid).store;
    StepKeepsValid(s, Present(id, captured, grid));
    if CommitError(shown, id).None? { RollbackRestores(shown, id, between); }
  }

  // A rollback never raises the total.
  lemma RollbackLowersTotal(s: Store, id: Identity)
    requires Valid(s)
    ensures TotalBytes(RollingBack(s, id).store) <= TotalBytes(s)
  {
    if s.staged.None? && s.journal.Some? {
      SplitByShare(s.journal.value.retained, s.retained, s.released);
    }
  }

  // Sealing twice is sealing once: a finalize whose reply was lost can be retried.
  lemma FinalizeIsIdempotent(s: Store, id: Identity)
    requires Finalizing(s, id).error.None?
    ensures Finalizing(Finalizing(s, id).store, id) == Outcome(Finalizing(s, id).store, None)
  {
  }

  // ----- What the other commands accept, and what they leave -----

  // A frame is staged exactly when no other is and the store stays valid with it.
  lemma StagingAccepts(s: Store, kind: Kind, frame: Frame)
    requires Valid(s)
    ensures var staged := s.(staged := Some(Staged(kind, frame)));
            Staging(s, kind, frame) == if s.staged.None? && Valid(staged) then Outcome(staged, None)
                                       else Outcome(s, Staging(s, kind, frame).error)
    ensures Staging(s, kind, frame).error.None? <==> s.staged.None? && Valid(s.(staged := Some(Staged(kind, frame))))
    ensures var cost := frame.bytes + if frame.id in s.released then 0 else frame.pyramid;
            Staging(s, kind, frame).error.None? ==>
              TotalBytes(Staging(s, kind, frame).store) == TotalBytes(s) + cost
    ensures Staging(s, kind, frame).error == Some(GenerationStale) <==> s.generation != Some(frame.generation)
    ensures s.generation == Some(frame.generation) ==>
              && (Staging(s, kind, frame).error == Some(StageBusy) <==> s.staged.Some?)
              && (Staging(s, kind, frame).error == Some(CommitUnfinalized) <==> s.journal.Some?)
              && (Staging(s, kind, frame).error == Some(BackendBudget) <==>
                    && s.staged.None? && s.journal.None?
                    && TotalBytes(s.(staged := Some(Staged(kind, frame)))) > 4 * 1024 * 1024 * 1024)
  {
  }

  // A finalize succeeds exactly for the open commit or, with none open, for the
  // one sealed last, which is then sealed.
  lemma FinalizeAccepts(s: Store, id: Identity)
    requires Valid(s)
    ensures var r := Finalizing(s, id);
            && (r.error.None? <==>
                  && s.generation == Some(id.generation)
                  && ((s.journal.Some? && s.journal.value.observation.identity == id)
                      || (s.journal.None? && s.sealed.Some? && s.sealed.value.identity == id)))
            && (r.error.None? ==> r.store.journal.None? && r.store.sealed.Some? && r.store.sealed.value.identity == id)
            && (r.error.Some? ==> r.store == s)
            && (r.error == Some(GenerationStale) <==> s.generation != Some(id.generation))
            && (r.error == Some(CommitStale) ==> s.journal.Some? && s.journal.value.observation.identity != id)
            && (s.generation == Some(id.generation) && r.error.Some? ==>
                  r.error == Some(if s.journal.Some? then CommitStale else CommitMissing))
  {
  }

  // Sealing a commit empties the exact pyramids of all that is retained if it
  // appended to a history that retains others, and none otherwise.
  lemma FinalizeReleases(s: Store)
    requires Valid(s) && s.staged.Some? && CommitError(s, IdentityOf(s.staged.value.frame)).None?
    ensures var frame, after := s.staged.value.frame, Committed(s);
            && Finalizing(after, IdentityOf(frame)).error.None?
            && Finalizing(after, IdentityOf(frame)).store.released
               == s.released + if Appended(frame, after.retained) then set f | f in after.retained :: f.id else {}
  {
    GrownIsOrdered(s);
    CommitKeepsHistory(s);
    if s.staged.value.kind.Predecessor? { PrependedIsFirst(s); } else { AppendedIsLast(s); }
  }

  // A frame in a history that has older ones.
  ghost predicate Appended(frame: Frame, frames: seq<Frame>) {
    frame in frames && exists older :: older in frames && older.time < frame.time
  }

  lemma PrependedIsFirst(s: Store)
    requires s.staged.Some? && s.staged.value.kind.Predecessor? && Chronological(Grown(s))
    ensures var frame, after := s.staged.value.frame, Committed(s).retained;
            !Appended(frame, after) && (|after| > 1 ==> after[|after| - 1].time > frame.time)
  {
    var frame, grown, after := s.staged.value.frame, Grown(s), Committed(s).retained;
    OldestFirst(grown);
    forall f | f in after ensures f.time >= frame.time { assert f in grown; }
  }

  lemma AppendedIsLast(s: Store)
    requires s.staged.Some? && !s.staged.value.kind.Predecessor? && Chronological(Grown(s))
    requires Chronological(Committed(s).retained)
    ensures var frame, after := s.staged.value.frame, Committed(s).retained;
            (after != [] ==> after[|after| - 1] == frame) && (Appended(frame, after) <==> |after| > 1)
  {
    var frame, after := s.staged.value.frame, Committed(s).retained;
    if |after| > 1 { assert after[0] in after && after[0].time < after[|after| - 1].time; }
    if after != [] { assert after[|after| - 1] in after; }
  }

  // A rollback succeeds exactly for what is staged or, with nothing staged, for
  // the open commit, and leaves neither.
  lemma RollbackAccepts(s: Store, id: Identity)
    requires Valid(s)
    ensures var r := RollingBack(s, id);
            && (r.error.None? <==>
                  && s.generation == Some(id.generation)
                  && ((s.staged.Some? && IdentityOf(s.staged.value.frame) == id)
                      || (s.staged.None? && s.journal.Some? && s.journal.value.observation.identity == id)))
            && (r.error.None? ==> r.store.staged.None? && r.store.journal.None?)
            && (r.error.None? && s.staged.Some? ==> r.store == s.(staged := None))
            && (r.error.Some? ==> r.store == s)
            && (r.error == Some(GenerationStale) <==> s.generation != Some(id.generation))
            && (s.generation == Some(id.generation) && r.error.Some? ==>
                  r.error == Some(if s.staged.None? && s.journal.None? then RollbackMissing else RollbackStale))
  {
  }

  // A detail is shown exactly when its observation is staged or retained and the
  // store stays valid with it; one that does not fit leaves no detail.
  lemma PresentingAccepts(s: Store, id: Identity, captured: Frame, grid: Grid)
    requires Valid(s)
    ensures var shown := s.(detail := Some(Detail(id, grid)), released := s.released + {captured.id});
            var held := s.generation == Some(id.generation) && exists f :: Has(s, f) && IdentityOf(f) == id;
            Presenting(s, id, captured, grid)
            == if held && Valid(shown) then Outcome(shown, None)
               else if held then Outcome(shown.(detail := None), Some(BackendBudget))
               else Outcome(s, Some(if s.generation == Some(id.generation) then IdentityStale else GenerationStale))
  {
    if s.staged.Some? { assert Has(s, s.staged.value.frame); }
    assert forall f :: f in s.retained ==> Has(s, f);
  }

  ghost predicate Has(s: Store, f: Frame) {
    f in s.retained || (s.staged.Some? && s.staged.value.frame == f)
  }

  // After a reset nothing is held or owed to an earlier generation.
  lemma ResetHoldsNothing(s: Store, generation: nat, backfill: seq<Candidate>, id: Identity)
    ensures var t := AfterReset(s, generation, backfill);
            && t.generation == Some(generation) && TotalBytes(t) == 0 && t.backfill == backfill && t.limit == s.limit
            && CommitError(t, id).Some? && Finalizing(t, id).error.Some? && RollingBack(t, id).error.Some?
            && !Finds(t, id) && t.released == s.released
  {
  }

  // ----- The store, updated in place -----

  class NationalHistoryStore {
    var retainedLimit: nat
    var generation: Option<nat>
    var retained: seq<Frame>
    var staged: Option<Staged>
    var backfillCandidates: seq<Candidate>
    var detail: Option<Detail>
    var reversibleCommit: Option<Journal>
    var lastFinalizedCommit: Option<Observation>
    var released: set<nat>

    function State(): Store
      reads this
    {
      Store(retainedLimit, generation, retained, staged, backfillCandidates, detail, reversibleCommit,
            lastFinalizedCommit, released)
    }

    constructor (limit: nat)
      ensures State() == Initial(limit) && Valid(State())
    {
      retainedLimit, generation, retained, staged, backfillCandidates := limit, None, [], None, [];
      detail, reversibleCommit, lastFinalizedCommit, released := None, None, None, {};
    }

    method Reset(newGeneration: nat, candidates: seq<Candidate>)
      modifies this
      ensures State() == AfterReset(old(State()), newGeneration, candidates)
    {
      generation := Some(newGeneration);
      retained := [];
      staged := None;
      backfillCandidates := candidates;
      detail := None;
      reversibleCommit := None;
      lastFinalizedCommit := None;
    }

    method StageFrame(kind: Kind, frame: Frame) returns (error: Option<HistoryError>)
      modifies this`staged
      ensures Outcome(State(), error) == Staging(old(State()), kind, frame)
    {
      if generation != Some(frame.generation) { return Some(GenerationStale); }
      if staged.Some? { return Some(StageBusy); }
      if reversibleCommit.Some? { return Some(CommitUnfinalized); }
      if TotalBytes(State()) + FrameBytes(frame, released) > BACKEND_TARGET_BYTES { return Some(BackendBudget); }
      staged := Some(Staged(kind, frame));
      error := None;
    }

    // `evicted` is the oldest frame, dropped because the history outgrew its limit.
    method CommitStaged(id: Identity) returns (error: Option<HistoryError>, evicted: Option<Observation>)
      modifies this
      ensures Outcome(State(), error) == Committing(old(State()), id)
      ensures evicted == if error.None? && old(Evicts(State())) then Some(ObservationOf(old(Grown(State()))[0]))
                           else None
    {
      evicted := None;
      if generation != Some(id.generation) { return Some(GenerationStale), evicted; }
      if reversibleCommit.Some? { return Some(CommitUnfinalized), evicted; }
      if staged.None? { return Some(StageMissing), evicted; }
      var frame := staged.value.frame;
      if IdentityOf(frame) != id { return Some(CommitStale), evicted; }
      if exists f :: f in retained && (f.key == frame.key || f.hash == frame.hash) { return Some(Duplicate), evicted; }
      var journal := Journal(ObservationOf(frame), retained, backfillCandidates, detail);
      match staged.value.kind {
        case Current =>
          if retained != [] { return Some(CurrentConflict), evicted; }
          retained := retained + [frame];
        case Predecessor =>
          if retained != [] && frame.time >= retained[0].time { return Some(NotOlder), evicted; }
          retained := [frame] + retained;
          if backfillCandidates != [] && backfillCandidates[0].key == frame.key {
            backfillCandidates := backfillCandidates[1..];
          }
        case Newer =>
          if retained != [] && frame.time <= retained[|retained| - 1].time { return Some(NotNewer), evicted; }
          retained := retained + [frame];
      }
      staged := None;
      if |retained| > retainedLimit {
        evicted := Some(ObservationOf(retained[0]));
        retained := retained[1..];
      }
      reversibleCommit := Some(journal);
      lastFinalizedCommit := None;
      error := None;
    }

    method FinalizeCommit(id: Identity) returns (error: Option<HistoryError>)
      modifies this`reversibleCommit, this`lastFinalizedCommit, this`released
      ensures Outcome(State(), error) == Finalizing(old(State()), id)
    {
      if generation != Some(id.generation) { return Some(GenerationStale); }
      if reversibleCommit.Some? {
        if reversibleCommit.value.observation.identity != id { return Some(CommitStale); }
      } else if lastFinalizedCommit.Some? && lastFinalizedCommit.value.identity == id {
        return None;
      } else {
        return Some(CommitMissing);
      }
      var observation := reversibleCommit.value.observation;
      reversibleCommit := None;
      var appendedNewest := |retained| > 1 && IdentityOf(retained[|retained| - 1]) == observation.identity;
      lastFinalizedCommit := Some(observation);
      if appendedNewest {
        ghost var before := released;
        for i := 0 to |retained|
          invariant reversibleCommit == None && lastFinalizedCommit == Some(observation)
          invariant released == before + Ids(retained[..i])
        {
          released := released + {retained[i].id};
          assert retained[..i + 1] == retained[..i] + [retained[i]];
        }
        assert retained[..|retained|] == retained;
      }
      error := None;
    }

    method RollbackMutation(id: Identity) returns (error: Option<HistoryError>)
      modifies this
      ensures Outcome(State(), error) == RollingBack(old(State()), id)
    {
      if generation != Some(id.generation) { return Some(GenerationStale); }
      if staged.Some? {
        if IdentityOf(staged.value.frame) != id { return Some(RollbackStale); }
        staged := None;
        return None;
      }
      if reversibleCommit.None? { return Some(RollbackMissing); }
      var reversible := reversibleCommit.value;
      reversibleCommit := None;
      if reversible.observation.identity != id {
        reversibleCommit := Some(reversible);
        return Some(RollbackStale);
      }
      retained := reversible.retained;
      backfillCandidates := reversible.backfill;
      detail := reversible.detail;
      error := None;
    }

    // The part of preparing a fine presentation that holds the store's lock.
    method ShowDetail(id: Identity, captured: Frame, grid: Grid) returns (error: Option<HistoryError>)
      modifies this`detail, this`released
      ensures Outcome(State(), error) == Presenting(old(State()), id, captured, grid)
    {
      if generation != Some(id.generation) { return Some(GenerationStale); }
      if !Finds(State(), id) { return Some(IdentityStale); }
      detail := Some(Detail(id, grid));
      released := released + {captured.id};
      if TotalBytes(State()) > BACKEND_TARGET_BYTES {
        detail := None;
        return Some(BackendBudget);
      }
      error := None;
    }
  }
}
