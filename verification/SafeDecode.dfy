// Safe decodes of a live volume's contiguous prefixes (src-tauri/src/live_pipeline.rs).
module SafeDecode {
  import opened Common
  import opened ChunkAssembly

  const CONCURRENT_SAFE_DECODE_INPUT_BYTES: nat := 16 * 1024 * 1024

  datatype Boundary = Boundary(volume: VolumeIdentity, through: nat, lastModified: int, inputBytes: nat)

  // ----- Captured boundaries -----

  // A boundary with the bytes the assembler held through it when it was captured.
  datatype Capture = Capture(boundary: Boundary, prefix: seq<Byte>)

  datatype Session = Session(assembler: Assembler, captures: seq<Capture>)

  function Through(a: Assembler): (last: nat) {
    if a.volume.None? then 0 else ContiguousThrough(a.volume.value)
  }

  // The newest last-modified time among chunks 1 to n.
  function LatestModified(chunks: Chunks, n: nat): (latest: int)
    requires 1 <= n && forall k :: 1 <= k <= n ==> k in chunks
  {
    var last := chunks[n].metadata.lastModified;
    if n == 1 then last
    else
      var before := LatestModified(chunks, n - 1);
      if last > before then last else before
  }

  ghost function CaptureOf(v: Volume): Capture
    requires ContiguousThrough(v) > 0
  {
    var through := ContiguousThrough(v);
    Capture(Boundary(v.identity, through, LatestModified(v.chunks, through), HeldBytes(v.chunks, through)),
            Joined(v.chunks, through))
  }

  predicate Advanced(previous: nat, outcome: ChunkIngestOutcome) {
    match outcome
    case Accepted(_, contiguousThrough, _, _) => contiguousThrough > previous
    case Rollover(_, _) => true
    case _ => false
  }

  // Ingesting one listed chunk and capturing the boundary it reaches.
  ghost function Listed(s: Session, d: Delivery): Session {
    var (a, r) := Ingested(s.assembler, d);
    if r.Err? then Session(a, s.captures)
    else
      var kept := if r.value.Rollover? then [] else s.captures;
      if Advanced(Through(s.assembler), r.value) && Through(a) > 0 then Session(a, kept + [CaptureOf(a.volume.value)])
      else Session(a, kept)
  }

  ghost function ListedAll(s: Session, deliveries: seq<Delivery>): Session
    decreases |deliveries|
  {
    if deliveries == [] then s else ListedAll(Listed(s, deliveries[0]), deliveries[1..])
  }

  ghost predicate Tallied(v: Volume) {
    && v.total == HeldBytes(v.chunks, MAX_REALTIME_CHUNKS) <= MAX_REALTIME_VOLUME_BYTES
    && forall k :: k in v.chunks ==> 1 <= k <= MAX_REALTIME_CHUNKS
  }

  ghost predicate IsPrefixOf(c: Capture, v: Volume) {
    && c.boundary.volume == v.identity
    && 1 <= c.boundary.through <= ContiguousThrough(v)
    && c.prefix == Joined(v.chunks, c.boundary.through)
    && c.boundary.inputBytes == |c.prefix|
  }

  // Every capture is still a prefix of the active volume, and later captures reach further.
  ghost predicate GoodSession(s: Session) {
    && (s.assembler.volume.Some? ==> Tallied(s.assembler.volume.value))
    && (s.captures != [] ==> s.assembler.volume.Some?)
    && (forall i :: 0 <= i < |s.captures| ==> IsPrefixOf(s.captures[i], s.assembler.volume.value))
    && (forall i, j :: 0 <= i < j < |s.captures| ==> s.captures[i].boundary.through < s.captures[j].boundary.through)
  }

  lemma {:induction false} JoinedIgnoresOthers(chunks: Chunks, more: Chunks, n: nat)
    requires Holds(chunks, n) && forall k :: k in chunks ==> k in more && more[k] == chunks[k]
    ensures Joined(more, n) == Joined(chunks, n) && HeldBytes(more, n) == HeldBytes(chunks, n)
  {
    if n > 0 { JoinedIgnoresOthers(chunks, more, n - 1); }
  }

  lemma {:induction false} RunGrows(chunks: Chunks, more: Chunks, from: nat)
    requires 1 <= from <= MAX_REALTIME_CHUNKS + 1 && forall k :: k in chunks ==> k in more
    ensures RunFrom(chunks, from) <= RunFrom(more, from)
    decreases MAX_REALTIME_CHUNKS + 1 - from
  {
    if from <= MAX_REALTIME_CHUNKS && from in chunks { RunGrows(chunks, more, from + 1); }
  }

  // An ingest only adds to a volume it keeps.
  lemma IngestGrows(a: Assembler, d: Delivery)
    requires a.volume.Some? ==> Tallied(a.volume.value)
    ensures var b := Ingested(a, d).0;
            && (b.volume.Some? ==> Tallied(b.volume.value))
            && (a.volume.Some? ==> b.volume.Some?)
            && (a.volume.Some? && b.volume.value.identity == a.volume.value.identity ==>
                  forall k :: k in a.volume.value.chunks ==>
                                k in b.volume.value.chunks && b.volume.value.chunks[k] == a.volume.value.chunks[k])
  {
    NothingHeld(MAX_REALTIME_CHUNKS);
    var target := TargetOf(a, d.metadata);
    if Rejection(a, d).None? && target.Into? && d.metadata.sequence !in target.volume.chunks {
      HeldBytesOfInsert(target.volume.chunks, d.metadata.sequence, StoredChunk(d.metadata, d.bytes),
                        MAX_REALTIME_CHUNKS);
    }
  }

  // A start chunk fits an empty volume, so the volume changes only when a rollover says so.
  lemma IdentityChangesOnRollover(a: Assembler, d: Delivery)
    requires a.volume.Some?
    ensures var (b, r) := Ingested(a, d);
            b.volume.Some? && (b.volume.value.identity != a.volume.value.identity <==> r.Ok? && r.value.Rollover?)
  {
  }

  lemma CaptureIsPrefix(v: Volume)
    requires ContiguousThrough(v) > 0
    ensures IsPrefixOf(CaptureOf(v), v)
  {
    JoinedLength(v.chunks, ContiguousThrough(v));
  }

  lemma CapturesStay(s: Session, d: Delivery)
    requires GoodSession(s) && s.captures != []
    requires var (b, r) := Ingested(s.assembler, d); !(r.Ok? && r.value.Rollover?)
    ensures var b := Ingested(s.assembler, d).0;
            b.volume.Some? && forall i :: 0 <= i < |s.captures| ==> IsPrefixOf(s.captures[i], b.volume.value)
  {
    var a, b := s.assembler, Ingested(s.assembler, d).0;
    IngestGrows(a, d);
    IdentityChangesOnRollover(a, d);
    RunGrows(a.volume.value.chunks, b.volume.value.chunks, 1);
    forall i | 0 <= i < |s.captures| ensures IsPrefixOf(s.captures[i], b.volume.value) {
      assert IsPrefixOf(s.captures[i], a.volume.value);
      JoinedIgnoresOthers(a.volume.value.chunks, b.volume.value.chunks, s.captures[i].boundary.through);
    }
  }

  lemma ListingKeepsGood(s: Session, d: Delivery)
    requires GoodSession(s)
    ensures GoodSession(Listed(s, d))
  {
    var (b, r) := Ingested(s.assembler, d);
    IngestGrows(s.assembler, d);
    if s.captures != [] && !(r.Ok? && r.value.Rollover?) { CapturesStay(s, d); }
    if r.Ok? && Advanced(Through(s.assembler), r.value) && Through(b) > 0 {
      CaptureIsPrefix(b.volume.value);
      assert r.value.Rollover? || r.value.contiguousThrough == Through(b);
      assert forall i :: 0 <= i < |s.captures| ==> s.captures[i].boundary.through <= Through(s.assembler);
    }
  }

  lemma {:induction false} ListingAllKeepsGood(s: Session, deliveries: seq<Delivery>)
    requires GoodSession(s)
    ensures GoodSession(ListedAll(s, deliveries))
    decreases |deliveries|
  {
    if deliveries != [] {
      ListingKeepsGood(s, deliveries[0]);
      ListingAllKeepsGood(Listed(s, deliveries[0]), deliveries[1..]);
    }
  }

  // The newest capture reaches as far as the volume's contiguous prefix does now.
  ghost predicate CapturesLatest(s: Session) {
    Through(s.assembler) > 0 ==>
      s.captures != [] && s.captures[|s.captures| - 1].boundary.through == Through(s.assembler)
  }

  // Nothing but an accepted chunk or a rollover moves the prefix.
  lemma OnlyAcceptedAdvances(a: Assembler, d: Delivery)
    ensures var (b, r) := Ingested(a, d);
            && (r.Err? || r.value.Late? || r.value.Duplicate? ==> Through(b) == Through(a))
            && (r.Ok? && r.value.Accepted? ==> r.value.contiguousThrough == Through(b))
  {
  }

  lemma RolloverReachesOne(a: Assembler, d: Delivery)
    requires Ingested(a, d).1.Ok? && Ingested(a, d).1.value.Rollover?
    ensures Through(Ingested(a, d).0) == 1
  {
    var v := Ingested(a, d).0.volume.value;
    assert 1 in v.chunks && 2 !in v.chunks;
    RunIsUnique(v.chunks, 1);
  }

  lemma PrefixNeverShrinks(a: Assembler, d: Delivery)
    requires a.volume.Some? ==> Tallied(a.volume.value)
    requires Ingested(a, d).1.Ok? && Ingested(a, d).1.value.Accepted?
    ensures Through(a) <= Through(Ingested(a, d).0)
  {
    if a.volume.Some? {
      IngestGrows(a, d);
      IdentityChangesOnRollover(a, d);
      RunGrows(a.volume.value.chunks, Ingested(a, d).0.volume.value.chunks, 1);
    }
  }

  lemma ListingCapturesLatest(s: Session, d: Delivery)
    requires GoodSession(s) && CapturesLatest(s)
    ensures CapturesLatest(Listed(s, d))
  {
    var (b, r) := Ingested(s.assembler, d);
    OnlyAcceptedAdvances(s.assembler, d);
    if r.Ok? && r.value.Accepted? { PrefixNeverShrinks(s.assembler, d); }
    if r.Ok? && r.value.Rollover? { RolloverReachesOne(s.assembler, d); }
  }

  // After any run from a new assembler a boundary has been captured for the
  // whole contiguous prefix, and none reaches past it.
  lemma {:induction false} RunCapturesLatest(s: Session, deliveries: seq<Delivery>)
    requires GoodSession(s) && CapturesLatest(s)
    ensures GoodSession(ListedAll(s, deliveries)) && CapturesLatest(ListedAll(s, deliveries))
    decreases |deliveries|
  {
    if deliveries != [] {
      ListingKeepsGood(s, deliveries[0]);
      ListingCapturesLatest(s, deliveries[0]);
      RunCapturesLatest(Listed(s, deliveries[0]), deliveries[1..]);
    }
  }

  lemma LatestIsCaptured(a: Assembler, deliveries: seq<Delivery>)
    requires a.volume.None?
    ensures var s := ListedAll(Session(a, []), deliveries);
            && (s.captures != [] <==> Through(s.assembler) > 0)
            && (s.captures != [] ==> s.captures[|s.captures| - 1].boundary.through == Through(s.assembler))
  {
    RunCapturesLatest(Session(a, []), deliveries);
    var s := ListedAll(Session(a, []), deliveries);
    if s.captures != [] { assert IsPrefixOf(s.captures[0], s.assembler.volume.value); }
  }

  // A boundary's time is the newest of its chunks'.
  lemma {:induction false} LatestIsNewest(chunks: Chunks, n: nat)
    requires 1 <= n && forall k :: 1 <= k <= n ==> k in chunks
    ensures forall k :: 1 <= k <= n ==> chunks[k].metadata.lastModified <= LatestModified(chunks, n)
    ensures exists k :: 1 <= k <= n && chunks[k].metadata.lastModified == LatestModified(chunks, n)
  {
    if n == 1 {
      assert chunks[1].metadata.lastModified == LatestModified(chunks, 1);
    } else {
      LatestIsNewest(chunks, n - 1);
      var k :| 1 <= k <= n - 1 && chunks[k].metadata.lastModified == LatestModified(chunks, n - 1);
      var newest := if chunks[n].metadata.lastModified > chunks[k].metadata.lastModified then n else k;
      assert chunks[newest].metadata.lastModified == LatestModified(chunks, n);
    }
  }

  lemma {:induction false} JoinedIsPrefix(chunks: Chunks, m: nat, n: nat)
    requires m <= n && Holds(chunks, n)
    ensures HeldBytes(chunks, m) <= |Joined(chunks, n)|
    ensures Joined(chunks, n)[..HeldBytes(chunks, m)] == Joined(chunks, m)
  {
    JoinedLength(chunks, m);
    JoinedLength(chunks, n);
    HeldBytesGrow(chunks, m, n);
    if m < n {
      JoinedIsPrefix(chunks, m, n - 1);
      assert Joined(chunks, n)[..|Joined(chunks, m)|] == Joined(chunks, n - 1)[..|Joined(chunks, m)|];
    }
  }

  // Whatever is delivered after it, a capture's byte length slices out of the
  // one buffer assembled through the last capture exactly the prefix that was
  // assembled when it was captured.
  lemma CapturesShareOneBuffer(a: Assembler, deliveries: seq<Delivery>, i: nat)
    requires a.volume.None?
    requires var s := ListedAll(Session(a, []), deliveries); i < |s.captures|
    ensures var s := ListedAll(Session(a, []), deliveries);
            var last := s.captures[|s.captures| - 1].boundary;
            && s.assembler.volume.Some? && last.through <= Through(s.assembler)
            && Assembled(s.assembler.volume.value, last.through).Ok?
            && var buffer := Assembled(s.assembler.volume.value, last.through).value;
            && s.captures[i].boundary.inputBytes <= |buffer|
            && buffer[..s.captures[i].boundary.inputBytes] == s.captures[i].prefix
  {
    ListingAllKeepsGood(Session(a, []), deliveries);
    var s := ListedAll(Session(a, []), deliveries);
    OneBuffer(s, i);
  }

  lemma OneBuffer(s: Session, i: nat)
    requires GoodSession(s) && i < |s.captures|
    ensures var last := s.captures[|s.captures| - 1].boundary;
            && last.through <= Through(s.assembler)
            && Assembled(s.assembler.volume.value, last.through).Ok?
            && var buffer := Assembled(s.assembler.volume.value, last.through).value;
            && s.captures[i].boundary.inputBytes <= |buffer|
            && buffer[..s.captures[i].boundary.inputBytes] == s.captures[i].prefix
  {
    var v, last, c := s.assembler.volume.value, s.captures[|s.captures| - 1].boundary, s.captures[i];
    assert IsPrefixOf(c, v) && IsPrefixOf(s.captures[|s.captures| - 1], v);
    HeldBytesGrow(v.chunks, last.through, MAX_REALTIME_CHUNKS);
    JoinedLength(v.chunks, c.boundary.through);
    JoinedIsPrefix(v.chunks, c.boundary.through, last.through);
  }

  // ----- Groups of concurrent decodes -----

  function Total(inputs: seq<nat>, from: nat, to: nat): (total: nat)
    requires from <= to <= |inputs|
  {
    if from == to then 0 else Total(inputs, from, to - 1) + inputs[to - 1]
  }

  ghost predicate Fits(inputs: seq<nat>, from: nat, to: nat, budget: nat)
    requires from <= to <= |inputs|
  {
    to == from + 1 || Total(inputs, from, to) <= budget
  }

  // `groups` splits inputs[from..] in order into non-empty groups that are singletons or fit the budget.
  ghost predicate Partitions(inputs: seq<nat>, from: nat, groups: seq<nat>, budget: nat)
    requires from <= |inputs|
    decreases |groups|
  {
    if groups == [] then from == |inputs|
    else && 1 <= groups[0] <= |inputs| - from && Fits(inputs, from, from + groups[0], budget)
         && Partitions(inputs, from + groups[0], groups[1..], budget)
  }

  // Where the group that starts at `from` and has taken inputs[from..at] ends.
  function GroupEnd(inputs: seq<nat>, from: nat, at: nat, budget: nat): (end: nat)
    requires from <= at <= |inputs|
    ensures at <= end <= |inputs|
    decreases |inputs| - at
  {
    if at == |inputs| || (at > from && Total(inputs, from, at) + inputs[at] > budget) then at
    else GroupEnd(inputs, from, at + 1, budget)
  }

  function Greedy(inputs: seq<nat>, from: nat, budget: nat): (groups: seq<nat>)
    requires from <= |inputs|
    decreases |inputs| - from
  {
    if from == |inputs| then []
    else
      var end := GroupEnd(inputs, from, from + 1, budget);
      [end - from] + Greedy(inputs, end, budget)
  }

  lemma {:induction false} TotalGrows(inputs: seq<nat>, a: nat, b: nat, from: nat, to: nat)
    requires a <= from <= to <= b <= |inputs|
    ensures Total(inputs, from, to) <= Total(inputs, a, b)
    decreases b - a
  {
    if to < b {
      TotalGrows(inputs, a, b - 1, from, to);
    } else if a < from {
      TotalGrows(inputs, a + 1, b, from, to);
      TotalFromFront(inputs, a, b);
    }
  }

  lemma {:induction false} TotalFromFront(inputs: seq<nat>, from: nat, to: nat)
    requires from < to <= |inputs|
    ensures Total(inputs, from, to) == inputs[from] + Total(inputs, from + 1, to)
  {
    if from + 1 < to { TotalFromFront(inputs, from, to - 1); }
  }

  // A greedy group fits, and no group from the same start that fits reaches further.
  lemma {:induction false} GroupEndIsFurthest(inputs: seq<nat>, from: nat, at: nat, budget: nat)
    requires from < at <= |inputs| && Fits(inputs, from, at, budget)
    ensures var end := GroupEnd(inputs, from, at, budget);
            && Fits(inputs, from, end, budget)
            && forall to :: end < to <= |inputs| ==> !Fits(inputs, from, to, budget)
    decreases |inputs| - at
  {
    if at == |inputs| {
    } else if Total(inputs, from, at) + inputs[at] > budget {
      forall to | at < to <= |inputs| ensures !Fits(inputs, from, to, budget) {
        TotalGrows(inputs, from, to, from, at + 1);
      }
    } else {
      GroupEndIsFurthest(inputs, from, at + 1, budget);
    }
  }

  lemma {:induction false} GreedyPartitions(inputs: seq<nat>, from: nat, budget: nat)
    requires from <= |inputs|
    ensures Partitions(inputs, from, Greedy(inputs, from, budget), budget)
    decreases |inputs| - from
  {
    if from < |inputs| {
      var end := GroupEnd(inputs, from, from + 1, budget);
      GroupEndIsFurthest(inputs, from, from + 1, budget);
      GreedyPartitions(inputs, end, budget);
      assert Greedy(inputs, from, budget)[1..] == Greedy(inputs, end, budget);
    }
  }

  // Starting later never needs more groups.
  lemma {:induction false} GreedyIsMonotone(inputs: seq<nat>, i: nat, j: nat, budget: nat)
    requires i <= j <= |inputs|
    ensures |Greedy(inputs, j, budget)| <= |Greedy(inputs, i, budget)|
    decreases |inputs| - i
  {
    if i < |inputs| && i < j {
      var end := GroupEnd(inputs, i, i + 1, budget);
      if j >= end {
        GreedyIsMonotone(inputs, end, j, budget);
      } else {
        var further := GroupEnd(inputs, j, j + 1, budget);
        GroupEndIsFurthest(inputs, i, i + 1, budget);
        GroupEndIsFurthest(inputs, j, j + 1, budget);
        TotalGrows(inputs, i, end, j, end);
        assert Fits(inputs, j, end, budget);
        GreedyIsMonotone(inputs, end, further, budget);
      }
    }
  }

  // No partition into such groups has fewer groups.
  lemma {:induction false} GreedyIsMinimal(inputs: seq<nat>, from: nat, groups: seq<nat>, budget: nat)
    requires from <= |inputs| && Partitions(inputs, from, groups, budget)
    ensures |Greedy(inputs, from, budget)| <= |groups|
    decreases |groups|
  {
    if groups != [] {
      var end := GroupEnd(inputs, from, from + 1, budget);
      GroupEndIsFurthest(inputs, from, from + 1, budget);
      GreedyIsMinimal(inputs, from + groups[0], groups[1..], budget);
      GreedyIsMonotone(inputs, from + groups[0], end, budget);
    }
  }

  lemma GreedyIsBest(inputs: seq<nat>, budget: nat)
    ensures Partitions(inputs, 0, Greedy(inputs, 0, budget), budget)
    ensures forall other :: Partitions(inputs, 0, other, budget) ==> |Greedy(inputs, 0, budget)| <= |other|
  {
    GreedyPartitions(inputs, 0, budget);
    forall other | Partitions(inputs, 0, other, budget) ensures |Greedy(inputs, 0, budget)| <= |other| {
      GreedyIsMinimal(inputs, 0, other, budget);
    }
  }

  // Groups closed so far, and an open one that starts at `from`.
  ghost predicate Grouping(inputs: seq<nat>, budget: nat, groups: seq<nat>, from: nat, index: nat) {
    && from <= index <= |inputs| && (from == index ==> index == 0)
    && (from < index ==> GroupEnd(inputs, from, from + 1, budget) == GroupEnd(inputs, from, index, budget))
    && groups + Greedy(inputs, from, budget) == Greedy(inputs, 0, budget)
  }

  // The open group is full before an input that does not fit.
  lemma GroupCloses(inputs: seq<nat>, budget: nat, groups: seq<nat>, from: nat, index: nat)
    requires Grouping(inputs, budget, groups, from, index) && from < index
    requires index == |inputs| || Total(inputs, from, index) + inputs[index] > budget
    ensures groups + [index - from] + Greedy(inputs, index, budget) == Greedy(inputs, 0, budget)
  {
    assert GroupEnd(inputs, from, index, budget) == index;
    assert Greedy(inputs, from, budget) == [index - from] + Greedy(inputs, index, budget);
  }

  method ConcurrentDecodeGroups(inputs: seq<nat>, budget: nat) returns (groups: seq<nat>)
    ensures groups == Greedy(inputs, 0, budget)
  {
    groups := [];
    var size, total := 0, 0;
    ghost var from := 0;
    for index := 0 to |inputs|
      invariant Grouping(inputs, budget, groups, from, index)
      invariant from + size == index && total == Total(inputs, from, index)
    {
      if size > 0 && total + inputs[index] > budget {
        GroupCloses(inputs, budget, groups, from, index);
        groups := groups + [size];
        from, size, total := index, 0, 0;
      }
      size, total := size + 1, total + inputs[index];
    }
    if size > 0 {
      GroupCloses(inputs, budget, groups, from, |inputs|);
      groups := groups + [size];
    }
  }

  // ----- Decoding the boundaries -----

  datatype DecodeResult = Decoded(sweep: nat) | MissingProduct | IncompleteSweep | Broken(message: string) | Stopped

  // What trying boundaries ends with: nothing yet, a candidate at a boundary, or an error.
  datatype Sweep = NoSweep | Candidate(boundary: Boundary, sweep: nat) | Failure(error: SweepError)

  datatype SweepError =
    | DecodeFailed(message: string) | DecoderStopped | SpawnFailed | StaleGeneration
    | SupersededVolume | AlreadyPublished

  // One native thread per boundary: spawns[i] says whether boundary i's starts.
  datatype Trial = Trial(boundaries: seq<Boundary>, buffer: seq<Byte>, decode: seq<Byte> -> DecodeResult,
                         spawns: seq<bool>)

  ghost predicate WellFormed(t: Trial) {
    |t.spawns| == |t.boundaries| && forall i :: 0 <= i < |t.boundaries| ==> t.boundaries[i].inputBytes <= |t.buffer|
  }

  function DecodeAt(t: Trial, i: nat): DecodeResult
    requires WellFormed(t) && i < |t.boundaries|
  {
    t.decode(t.buffer[..t.boundaries[i].inputBytes])
  }

  predicate Inconclusive(result: DecodeResult) {
    result.MissingProduct? || result.IncompleteSweep?
  }

  function Verdict(boundary: Boundary, result: DecodeResult): Sweep {
    match result
    case Decoded(sweep) => Candidate(boundary, sweep)
    case Broken(message) => Failure(DecodeFailed(message))
    case Stopped => Failure(DecoderStopped)
    case _ => NoSweep
  }

  // The reference: start and read each boundary's decode before the next. The
  // second part counts the decode results read; a thread that stopped gives none.
  function OneAtATime(t: Trial, from: nat): (Sweep, nat)
    requires WellFormed(t) && from <= |t.boundaries|
    decreases |t.boundaries| - from
  {
    if from == |t.boundaries| then (NoSweep, 0)
    else if !t.spawns[from] then (Failure(SpawnFailed), 0)
    else
      var result := DecodeAt(t, from);
      if result.Stopped? then (Failure(DecoderStopped), 0)
      else if !Inconclusive(result) then (Verdict(t.boundaries[from], result), 1)
      else
        var (sweep, read) := OneAtATime(t, from + 1);
        (sweep, read + 1)
  }

  // Trying one at a time from `from` comes to an end at `stop`.
  ghost predicate StopsAt(t: Trial, from: nat, stop: nat)
    requires WellFormed(t)
  {
    && from <= stop < |t.boundaries|
    && (forall i :: from <= i < stop ==> t.spawns[i] && Inconclusive(DecodeAt(t, i)))
    && (t.spawns[stop] ==> !Inconclusive(DecodeAt(t, stop)))
  }

  lemma {:induction false} OneAtATimeFrom(t: Trial, from: nat, stop: nat)
    requires WellFormed(t) && from <= stop <= |t.boundaries|
    requires forall i :: from <= i < stop ==> t.spawns[i] && Inconclusive(DecodeAt(t, i))
    ensures OneAtATime(t, from) == (OneAtATime(t, stop).0, stop - from + OneAtATime(t, stop).1)
    decreases stop - from
  {
    if from < stop { OneAtATimeFrom(t, from + 1, stop); }
  }

  // Where a group's boundaries end, given the groups from `from` on.
  ghost predicate GroupHolds(groups: seq<nat>, from: nat, i: nat, j: nat)
    decreases |groups|
  {
    groups != [] && ((from <= i < from + groups[0] && from <= j < from + groups[0])
                     || GroupHolds(groups[1..], from + groups[0], i, j))
  }

  // A decode that ends the search at `stop` shares its group with a later boundary whose thread does not start.
  ghost predicate LateSpawnFailure(t: Trial, groups: seq<nat>, from: nat)
    requires WellFormed(t)
  {
    exists stop: nat, late: nat :: StopsAt(t, from, stop) && t.spawns[stop]
                                && stop < late < |t.boundaries| && !t.spawns[late]
                         && GroupHolds(groups, from, stop, late)
  }

  // The search ends at a thread that does not start, and an earlier boundary of its group was not read for it.
  ghost predicate EarlierUnread(t: Trial, groups: seq<nat>, from: nat)
    requires WellFormed(t)
  {
    exists stop: nat, early: nat :: StopsAt(t, from, stop) && !t.spawns[stop] && early < stop
                         && GroupHolds(groups, from, early, stop)
  }

  ghost predicate EndsWithin(t: Trial, from: nat, to: nat)
    requires WellFormed(t)
  {
    exists i :: from <= i < to && i < |t.boundaries| && (!t.spawns[i] || !Inconclusive(DecodeAt(t, i)))
  }

  // Where the group that ends the search starts, or the end of the boundaries.
  ghost function DecidingStart(t: Trial, groups: seq<nat>, from: nat): nat
    requires WellFormed(t)
    decreases |groups|
  {
    if groups == [] || EndsWithin(t, from, from + groups[0]) then from
    else DecidingStart(t, groups[1..], from + groups[0])
  }

  // The sweep is what trying each boundary in turn would publish, unless (and
  // only unless) a later thread of the deciding group does not start: then it is
  // that failure. The count of results read also agrees, unless the thread that
  // fails is not its group's first: then it stops at the groups before.
  ghost predicate AsInTurn(t: Trial, groups: seq<nat>, sweep: Sweep, read: nat)
    requires WellFormed(t)
  {
    var late, early := LateSpawnFailure(t, groups, 0), EarlierUnread(t, groups, 0);
    && (sweep == OneAtATime(t, 0).0 <==> !late)
    && ((sweep, read) == OneAtATime(t, 0) <==> !late && !early)
    && (late ==> sweep == Failure(SpawnFailed))
    && (late || early ==> read == DecidingStart(t, groups, 0))
  }

  // Starts every decode of a group, then reads them in order.
  method TryGroup(t: Trial, from: nat, to: nat) returns (sweep: Sweep, read: nat)
    requires WellFormed(t) && from < to <= |t.boundaries|
    ensures GroupFound(t, from, to, sweep, read)
  {
    for i := from to to
      invariant forall j :: from <= j < i ==> t.spawns[j]
    {
      if !t.spawns[i] { return Failure(SpawnFailed), 0; }
    }
    read := 0;
    for i := from to to
      invariant read == i - from && forall j :: from <= j < i ==> Inconclusive(DecodeAt(t, j))
    {
      var result := DecodeAt(t, i);
      OneAtATimeFrom(t, from, i);
      if !Inconclusive(result) {
        assert StopsAt(t, from, i);
        return Verdict(t.boundaries[i], result), if result.Stopped? then read else read + 1;
      }
      read := read + 1;
    }
    sweep := NoSweep;
  }

  // Grouped concurrent decodes end as trying one at a time does, unless (and
  // only unless) a thread later in the deciding group does not start.
  method TryGroups(t: Trial, groups: seq<nat>, ghost inputs: seq<nat>, ghost budget: nat)
    returns (sweep: Sweep, read: nat)
    requires WellFormed(t) && |inputs| == |t.boundaries| && Partitions(inputs, 0, groups, budget)
    ensures AsInTurn(t, groups, sweep, read)
  {
    var from: nat, rest := 0, groups;
    TryingStarts(t, groups, inputs, budget);
    while rest != []
      invariant Trying(t, groups, rest, from, inputs, budget)
      decreases |rest|
    {
      TryingNext(t, groups, rest, from, inputs, budget);
      var found, count := TryGroup(t, from, from + rest[0]);
      if !found.NoSweep? {
        TryingDecides(t, groups, rest, from, inputs, budget, found, count);
        return found, from + count;
      }
      TryingGoesOn(t, groups, rest, from, inputs, budget, count);
      from, rest := from + count, rest[1..];
    }
    TryingEnds(t, groups, from, inputs, budget);
    sweep, read := NoSweep, from;
  }

  // The groups before `from` found nothing, and what decides is in the rest.
  ghost predicate Trying(t: Trial, groups: seq<nat>, rest: seq<nat>, from: nat, inputs: seq<nat>, budget: nat)
    requires WellFormed(t)
  {
    && from <= |inputs| == |t.boundaries| && Partitions(inputs, from, rest, budget)
    && (forall i :: 0 <= i < from ==> t.spawns[i] && Inconclusive(DecodeAt(t, i)))
    && LateSpawnFailure(t, groups, 0) == LateSpawnFailure(t, rest, from)
    && EarlierUnread(t, groups, 0) == EarlierUnread(t, rest, from)
    && DecidingStart(t, groups, 0) == DecidingStart(t, rest, from)
  }

  lemma TryingStarts(t: Trial, groups: seq<nat>, inputs: seq<nat>, budget: nat)
    requires WellFormed(t) && |inputs| == |t.boundaries| && Partitions(inputs, 0, groups, budget)
    ensures Trying(t, groups, groups, 0, inputs, budget)
  {
  }

  lemma TryingNext(t: Trial, groups: seq<nat>, rest: seq<nat>, from: nat, inputs: seq<nat>, budget: nat)
    requires WellFormed(t) && Trying(t, groups, rest, from, inputs, budget) && rest != []
    ensures from < from + rest[0] <= |t.boundaries|
  {
  }

  lemma TryingEnds(t: Trial, groups: seq<nat>, from: nat, inputs: seq<nat>, budget: nat)
    requires WellFormed(t) && Trying(t, groups, [], from, inputs, budget)
    ensures AsInTurn(t, groups, NoSweep, from)
  {
    OneAtATimeFrom(t, 0, from);
  }

  lemma TryingGoesOn(t: Trial, groups: seq<nat>, rest: seq<nat>, from: nat, inputs: seq<nat>, budget: nat, count: nat)
    requires WellFormed(t) && Trying(t, groups, rest, from, inputs, budget) && rest != []
    requires GroupFound(t, from, from + rest[0], NoSweep, count)
    ensures Trying(t, groups, rest[1..], from + rest[0], inputs, budget) && count == rest[0]
  {
    GroupPasses(t, rest, from, count);
  }

  lemma TryingDecides(t: Trial, groups: seq<nat>, rest: seq<nat>, from: nat, inputs: seq<nat>, budget: nat,
                      found: Sweep, count: nat)
    requires WellFormed(t) && Trying(t, groups, rest, from, inputs, budget) && rest != []
    requires GroupFound(t, from, from + rest[0], found, count) && !found.NoSweep?
    ensures AsInTurn(t, groups, found, from + count)
  {
    OneAtATimeFrom(t, 0, from);
    GroupDecides(t, rest, from, found, count);
  }

  lemma {:induction false} HeldFrom(groups: seq<nat>, from: nat, i: nat, j: nat)
    ensures GroupHolds(groups, from, i, j) ==> i >= from && j >= from
    decreases |groups|
  {
    if groups != [] { HeldFrom(groups[1..], from + groups[0], i, j); }
  }

  // What a group of decodes found, given which of its threads started.
  ghost predicate GroupFound(t: Trial, from: nat, to: nat, found: Sweep, read: nat)
    requires WellFormed(t) && from < to <= |t.boundaries|
  {
    if exists i :: from <= i < to && !t.spawns[i] then found == Failure(SpawnFailed) && read == 0
    else if found.NoSweep? then read == to - from && forall i :: from <= i < to ==> Inconclusive(DecodeAt(t, i))
    else (found, read) == OneAtATime(t, from) && exists stop :: from <= stop < to && StopsAt(t, from, stop)
  }

  lemma GroupPasses(t: Trial, groups: seq<nat>, from: nat, read: nat)
    requires WellFormed(t) && groups != [] && groups[0] > 0 && from + groups[0] <= |t.boundaries|
    requires GroupFound(t, from, from + groups[0], NoSweep, read)
    ensures LateSpawnFailure(t, groups, from) == LateSpawnFailure(t, groups[1..], from + groups[0])
    ensures EarlierUnread(t, groups, from) == EarlierUnread(t, groups[1..], from + groups[0])
    ensures DecidingStart(t, groups, from) == DecidingStart(t, groups[1..], from + groups[0])
  {
    var to := from + groups[0];
    forall stop: nat, late: nat
      ensures StopsAt(t, from, stop) && GroupHolds(groups, from, stop, late)
              <==> StopsAt(t, to, stop) && GroupHolds(groups[1..], to, stop, late)
    {
      HeldFrom(groups[1..], to, stop, late);
    }
    forall stop: nat, early: nat
      ensures StopsAt(t, from, stop) && GroupHolds(groups, from, early, stop)
              <==> StopsAt(t, to, stop) && GroupHolds(groups[1..], to, early, stop)
    {
      HeldFrom(groups[1..], to, early, stop);
    }
  }

  lemma GroupDecides(t: Trial, groups: seq<nat>, from: nat, found: Sweep, read: nat)
    requires WellFormed(t) && groups != [] && groups[0] > 0 && from + groups[0] <= |t.boundaries|
    requires GroupFound(t, from, from + groups[0], found, read) && !found.NoSweep?
    ensures found == OneAtATime(t, from).0 <==> !LateSpawnFailure(t, groups, from)
    ensures (found, read) == OneAtATime(t, from) <==>
              !LateSpawnFailure(t, groups, from) && !EarlierUnread(t, groups, from)
    ensures LateSpawnFailure(t, groups, from) ==> found == Failure(SpawnFailed)
    ensures LateSpawnFailure(t, groups, from) || EarlierUnread(t, groups, from) ==> read == 0
    ensures DecidingStart(t, groups, from) == from
  {
    var to := from + groups[0];
    var stop := StopWithin(t, from, to);
    OneAtATimeFrom(t, from, stop);
    UnreadFromGroupStart(t, groups, from, stop);
    assert OneAtATime(t, from).0 == Failure(SpawnFailed) <==> !t.spawns[stop];
    if t.spawns[stop] && exists i :: from <= i < to && !t.spawns[i] {
      var late :| from <= late < to && !t.spawns[late];
      assert GroupHolds(groups, from, stop, late);
      assert LateSpawnFailure(t, groups, from);
    } else {
      forall other: nat, late: nat | StopsAt(t, from, other) && GroupHolds(groups, from, other, late)
        ensures other == stop && late < to
      {
        assert other == stop;
        HeldFrom(groups[1..], to, other, late);
      }
    }
  }

  // When a thread does not start, the results of its group go unread unless it is the first of them.
  lemma UnreadFromGroupStart(t: Trial, groups: seq<nat>, from: nat, stop: nat)
    requires WellFormed(t) && groups != [] && from + groups[0] <= |t.boundaries|
    requires StopsAt(t, from, stop) && stop < from + groups[0]
    ensures EarlierUnread(t, groups, from) <==> !t.spawns[stop] && from < stop
  {
    if !t.spawns[stop] && from < stop { assert GroupHolds(groups, from, from, stop); }
    forall other: nat, early: nat | StopsAt(t, from, other) && early < other && GroupHolds(groups, from, early, other)
      ensures other == stop && from < stop
    {
      assert other == stop;
      HeldFrom(groups[1..], from + groups[0], early, other);
    }
  }

  lemma {:induction false} StopWithin(t: Trial, from: nat, to: nat) returns (stop: nat)
    requires WellFormed(t) && from < to <= |t.boundaries|
    requires exists i :: from <= i < to && (!t.spawns[i] || !Inconclusive(DecodeAt(t, i)))
    ensures stop < to && StopsAt(t, from, stop)
  {
    stop := from;
    while t.spawns[stop] && Inconclusive(DecodeAt(t, stop))
      invariant from <= stop < to && forall i :: from <= i < stop ==> t.spawns[i] && Inconclusive(DecodeAt(t, i))
      decreases |t.boundaries| - stop
    {
      stop := stop + 1;
    }
  }

  // Trying in turn passes over boundaries whose decode lacks the product or a
  // whole sweep, and ends at the first that is anything else.
  lemma {:induction false} InTurnMeans(t: Trial, from: nat) returns (stop: nat)
    requires WellFormed(t) && from <= |t.boundaries|
    ensures from <= stop <= |t.boundaries|
    ensures forall i :: from <= i < stop ==> t.spawns[i] && Inconclusive(DecodeAt(t, i))
    ensures var (sweep, read) := OneAtATime(t, from);
            if stop == |t.boundaries| then sweep == NoSweep && read == stop - from
            else
              && EndsAs(t, stop, sweep)
              && read == stop - from + if t.spawns[stop] && !DecodeAt(t, stop).Stopped? then 1 else 0
    decreases |t.boundaries| - from
  {
    stop := from;
    if from < |t.boundaries| && t.spawns[from] && Inconclusive(DecodeAt(t, from)) {
      stop := InTurnMeans(t, from + 1);
    }
  }

  ghost predicate EndsAs(t: Trial, stop: nat, sweep: Sweep)
    requires WellFormed(t) && stop < |t.boundaries|
  {
    if !t.spawns[stop] then sweep == Failure(SpawnFailed)
    else
      match t.decode(t.buffer[..t.boundaries[stop].inputBytes])
      case Decoded(found) => sweep == Candidate(t.boundaries[stop], found)
      case Broken(message) => sweep == Failure(DecodeFailed(message))
      case Stopped => sweep == Failure(DecoderStopped)
      case MissingProduct => false
      case IncompleteSweep => false
  }

  // ----- From the assembler's boundaries to a published sweep -----

  ghost function BoundariesOf(captures: seq<Capture>): seq<Boundary> {
    seq(|captures|, i requires 0 <= i < |captures| => captures[i].boundary)
  }

  ghost predicate SharesBuffer(v: Volume, captures: seq<Capture>, i: nat)
    requires i < |captures|
  {
    var last := captures[|captures| - 1];
    && last.boundary.through <= ContiguousThrough(v) && Assembled(v, last.boundary.through) == Ok(last.prefix)
    && captures[i].boundary.inputBytes <= |last.prefix|
    && last.prefix[..captures[i].boundary.inputBytes] == captures[i].prefix
  }

  lemma AllShareBuffer(s: Session)
    requires GoodSession(s)
    ensures forall i :: 0 <= i < |s.captures| ==> SharesBuffer(s.assembler.volume.value, s.captures, i)
  {
    forall i | 0 <= i < |s.captures| ensures SharesBuffer(s.assembler.volume.value, s.captures, i) {
      OneBuffer(s, i);
      OneBuffer(s, |s.captures| - 1);
      var last := s.captures[|s.captures| - 1];
      assert IsPrefixOf(last, s.assembler.volume.value);
      assert last.prefix[..|last.prefix|] == last.prefix;
    }
  }

  // The buffer assembled through the last boundary has every other as a prefix,
  // so the errors for one that does not fit are unreachable.
  method AssembleForAll(assembler: ChunkAssembler, boundaries: seq<Boundary>, ghost captures: seq<Capture>)
    returns (buffer: seq<Byte>)
    requires GoodSession(Session(assembler.State(), captures)) && boundaries == BoundariesOf(captures)
    requires boundaries != []
    ensures buffer == captures[|captures| - 1].prefix
    ensures forall i :: 0 <= i < |boundaries| ==>
                          boundaries[i].inputBytes <= |buffer|
                          && buffer[..boundaries[i].inputBytes] == captures[i].prefix
  {
    AllShareBuffer(Session(assembler.State(), captures));
    var last := boundaries[|boundaries| - 1];
    assert SharesBuffer(assembler.volume.value, captures, |captures| - 1);
    var assembled := assembler.AssembledThrough(last.through);
    assert forall i :: 0 <= i < |captures| ==> SharesBuffer(assembler.volume.value, captures, i)
                                               && boundaries[i] == captures[i].boundary;
    if assembled.Err? || exists i :: 0 <= i < |boundaries| && boundaries[i].inputBytes > |assembled.value| {
      assert false;
    }
    buffer := assembled.value;
  }

  // The groups the boundaries decode in.
  function DecodeGroups(boundaries: seq<Boundary>): seq<nat> {
    Greedy(InputsOf(boundaries), 0, CONCURRENT_SAFE_DECODE_INPUT_BYTES)
  }

  function InputsOf(boundaries: seq<Boundary>): seq<nat> {
    seq(|boundaries|, i requires 0 <= i < |boundaries| => boundaries[i].inputBytes)
  }

  method DecodeTogether(t: Trial) returns (sweep: Sweep, read: nat)
    requires WellFormed(t)
    ensures AsInTurn(t, DecodeGroups(t.boundaries), sweep, read)
  {
    var inputs := InputsOf(t.boundaries);
    var groups := ConcurrentDecodeGroups(inputs, CONCURRENT_SAFE_DECODE_INPUT_BYTES);
    GreedyIsBest(inputs, CONCURRENT_SAFE_DECODE_INPUT_BYTES);
    sweep, read := TryGroups(t, groups, inputs, CONCURRENT_SAFE_DECODE_INPUT_BYTES);
  }

  // Two boundaries small enough to share a group, where the first decodes and the
  // second's thread does not start.
  function LateTrial(volume: VolumeIdentity): Trial {
    Trial([Boundary(volume, 1, 1, 1), Boundary(volume, 2, 1, 2)], [0, 0], _ => Decoded(7), [true, false])
  }

  lemma GroupOfTwo(inputs: seq<nat>, budget: nat)
    requires |inputs| == 2 && inputs[0] + inputs[1] <= budget
    ensures Greedy(inputs, 0, budget) == [2]
  {
    assert Total(inputs, 0, 1) == inputs[0];
    assert GroupEnd(inputs, 0, 1, budget) == 2;
  }

  // Together they answer the thread's failure, where one at a time would publish the first.
  lemma LateSpawnFailureArises(volume: VolumeIdentity)
    ensures var t := LateTrial(volume);
            && WellFormed(t) && DecodeGroups(t.boundaries) == [2] && LateSpawnFailure(t, [2], 0)
            && OneAtATime(t, 0) == (Candidate(t.boundaries[0], 7), 1)
            && forall sweep, read :: AsInTurn(t, [2], sweep, read) ==> sweep == Failure(SpawnFailed) && read == 0
  {
    var t := LateTrial(volume);
    assert t.boundaries[0].inputBytes == 1 && t.boundaries[1].inputBytes == 2;
    GroupOfTwo(InputsOf(t.boundaries), CONCURRENT_SAFE_DECODE_INPUT_BYTES);
    assert StopsAt(t, 0, 0) && GroupHolds([2], 0, 0, 1);
    assert EndsWithin(t, 0, 2);
  }

  // A candidate is published at most once per volume, and only while its
  // generation is current and its volume the active one.
  method PublishSafeSweep(assembler: ChunkAssembler, candidate: Sweep, current: bool) returns (sweep: Sweep)
    modifies assembler`volume
    ensures sweep == PublishedAs(old(assembler.volume), candidate, current)
    ensures assembler.volume == if sweep.Candidate? then Some(old(assembler.volume).value.(published := true))
                                else old(assembler.volume)
  {
    if !candidate.Candidate? { return candidate; }
    if !current { return Failure(SweepError.StaleGeneration); }
    if assembler.volume.None? || assembler.volume.value.identity != candidate.boundary.volume {
      return Failure(SupersededVolume);
    }
    var error := assembler.MarkSafeSweepPublished();
    sweep := if error.Some? then Failure(AlreadyPublished) else candidate;
  }

  // What becomes of a candidate, or of what was found instead of one.
  function PublishedAs(volume: Option<Volume>, found: Sweep, current: bool): (sweep: Sweep)
    ensures sweep.Candidate? ==> sweep == found && volume.Some?
  {
    if !found.Candidate? then found
    else if !current then Failure(SweepError.StaleGeneration)
    else if volume.None? || volume.value.identity != found.boundary.volume then Failure(SupersededVolume)
    else if volume.value.published then Failure(AlreadyPublished)
    else found
  }

  // A candidate is published exactly while its generation is current and its
  // volume is the active one and unpublished; each refusal says which is not so.
  lemma PublicationMeans(volume: Option<Volume>, found: Sweep, current: bool)
    ensures var sweep := PublishedAs(volume, found, current);
            var active := found.Candidate? && volume.Some? && volume.value.identity == found.boundary.volume;
            && (sweep.Candidate? <==> current && active && !volume.value.published)
            && (found.Candidate? ==> sweep in {found, Failure(SweepError.StaleGeneration), Failure(SupersededVolume),
                                               Failure(AlreadyPublished)})
            && (found.Candidate? && sweep == Failure(SweepError.StaleGeneration) <==> found.Candidate? && !current)
            && (found.Candidate? && sweep == Failure(SupersededVolume) <==> found.Candidate? && current && !active)
            && (!found.Candidate? ==> sweep == found)
  {
  }

  lemma PublishedStays(a: Assembler, d: Delivery)
    requires a.volume.Some?
    ensures var before, after := a.volume.value, Ingested(a, d).0.volume;
            && after.Some?
            && (after.value.identity == before.identity ==> after.value.published == before.published)
            && (after.value.identity != before.identity ==>
                  after.value.identity.startedAt > before.identity.startedAt && !after.value.published)
  {
  }

  // Volumes only give way to later ones, which start unpublished.
  lemma {:induction false} VolumesAdvance(a: Assembler, deliveries: seq<Delivery>)
    requires a.volume.Some?
    ensures var before, after := a.volume.value, IngestedAll(a, deliveries).volume;
            && after.Some?
            && (after.value.identity == before.identity ==> after.value.published == before.published)
            && (after.value.identity != before.identity ==>
                  after.value.identity.startedAt > before.identity.startedAt && !after.value.published)
  {
    if deliveries != [] {
      var last := |deliveries| - 1;
      VolumesAdvance(a, deliveries[..last]);
      PublishedStays(IngestedAll(a, deliveries[..last]), deliveries[last]);
    }
  }

  // So no volume is published twice, whatever is delivered in between.
  lemma PublishedOnce(a: Assembler, found: Sweep, current: bool, deliveries: seq<Delivery>, again: Sweep, later: bool)
    requires PublishedAs(a.volume, found, current).Candidate?
    requires again.Candidate? && again.boundary.volume == found.boundary.volume
    ensures var published := a.(volume := Some(a.volume.value.(published := true)));
            !PublishedAs(IngestedAll(published, deliveries).volume, again, later).Candidate?
  {
    VolumesAdvance(a.(volume := Some(a.volume.value.(published := true))), deliveries);
  }

  // Trying in turn ends at one of the boundaries, or nowhere.
  lemma {:induction false} CandidateIsBoundary(t: Trial, from: nat)
    requires WellFormed(t) && from <= |t.boundaries| && OneAtATime(t, from).0.Candidate?
    ensures OneAtATime(t, from).0.boundary in t.boundaries
    decreases |t.boundaries| - from
  {
    if Inconclusive(DecodeAt(t, from)) { CandidateIsBoundary(t, from + 1); }
  }

  // The boundaries tried are the session's captures, so a candidate's volume is
  // the active one; `found` is what decoding them gives before publication.
  method TrySafeSweeps(assembler: ChunkAssembler, boundaries: seq<Boundary>, decode: seq<Byte> -> DecodeResult,
                       spawns: seq<bool>, current: bool, ghost captures: seq<Capture>)
    returns (sweep: Sweep, read: nat, ghost found: Sweep, ghost tried: Trial)
    requires GoodSession(Session(assembler.State(), captures)) && boundaries == BoundariesOf(captures)
    requires |spawns| == |boundaries|
    modifies assembler`volume
    ensures WellFormed(tried) && tried.boundaries == boundaries && tried.decode == decode && tried.spawns == spawns
    ensures forall i :: 0 <= i < |captures| ==> tried.buffer[..boundaries[i].inputBytes] == captures[i].prefix
    ensures AsInTurn(tried, DecodeGroups(boundaries), found, read)
    ensures found.Candidate? ==>
              old(assembler.volume).Some? && found.boundary.volume == old(assembler.volume).value.identity
    ensures sweep == PublishedAs(old(assembler.volume), found, current)
    ensures assembler.volume == if sweep.Candidate? then Some(old(assembler.volume).value.(published := true))
                                else old(assembler.volume)
  {
    if |boundaries| == 0 {
      tried := Trial(boundaries, [], decode, spawns);
      return NoSweep, 0, NoSweep, tried;
    }
    var buffer := AssembleForAll(assembler, boundaries, captures);
    var t := Trial(boundaries, buffer, decode, spawns);
    var decoded;
    decoded, read := DecodeTogether(t);
    found, tried := decoded, t;
    if found.Candidate? {
      CandidateIsBoundary(t, 0);
      CandidateVolume(Session(assembler.State(), captures), found.boundary);
    }
    sweep := PublishSafeSweep(assembler, decoded, current);
  }

  lemma CandidateVolume(s: Session, boundary: Boundary)
    requires GoodSession(s) && boundary in BoundariesOf(s.captures)
    ensures s.assembler.volume.Some? && boundary.volume == s.assembler.volume.value.identity
  {
    var i :| 0 <= i < |s.captures| && BoundariesOf(s.captures)[i] == boundary;
    assert IsPrefixOf(s.captures[i], s.assembler.volume.value);
  }
}
