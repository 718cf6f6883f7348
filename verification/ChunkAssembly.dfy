// The assembler of real-time Level II volume chunks (src-tauri/src/chunk_assembly.rs).
module ChunkAssembly {
  import opened Common

  const MAX_REALTIME_CHUNK_BYTES: nat := 4 * 1024 * 1024
  const MAX_REALTIME_VOLUME_BYTES: nat := 64 * 1024 * 1024
  const MAX_REALTIME_CHUNKS: nat := 256

  datatype ChunkKind = Start | Intermediate | End

  datatype RawMetadata = Metadata(
    site: string, volumeIndex: nat, startedAt: int, sequence: nat, kind: ChunkKind, key: string,
    lastModified: int, size: nat)

  // Metadata as parsing an object key leaves it.
  type ChunkMetadata = m: RawMetadata |
      1 <= m.sequence <= MAX_REALTIME_CHUNKS && 0 < m.size <= MAX_REALTIME_CHUNK_BYTES && m.lastModified > 0
    witness Metadata("", 0, 0, 1, Start, "", 1, 1)

  datatype VolumeIdentity = VolumeIdentity(site: string, volumeIndex: nat, startedAt: int)

  function IdentityOf(m: ChunkMetadata): VolumeIdentity {
    VolumeIdentity(m.site, m.volumeIndex, m.startedAt)
  }

  // Chunks belong together exactly if site, volume index and start time are the same.
  lemma IdentityNames(m: ChunkMetadata, n: ChunkMetadata)
    ensures IdentityOf(m) == IdentityOf(n) <==>
            m.site == n.site && m.volumeIndex == n.volumeIndex && m.startedAt == n.startedAt
  {
  }

  // The source also keeps each chunk's SHA-256; equal bytes have equal digests.
  datatype StoredChunk = StoredChunk(metadata: ChunkMetadata, bytes: seq<Byte>)

  type Chunks = map<nat, StoredChunk>

  datatype Volume = Volume(identity: VolumeIdentity, chunks: Chunks, terminal: Option<nat>, total: nat, published: bool)

  datatype Assembler = Assembler(generation: nat, site: string, active: bool, volume: Option<Volume>)

  datatype ChunkIngestOutcome =
    | Accepted(volume: VolumeIdentity, contiguousThrough: nat, waitingFor: Option<nat>, complete: bool)
    | Duplicate(volume: VolumeIdentity, sequence: nat)
    | Late(activeVolume: VolumeIdentity, ignoredKey: string)
    | Rollover(volume: VolumeIdentity, abandoned: Option<VolumeIdentity>)

  datatype ChunkError =
    | StaleGeneration | GenerationCancelled | InvalidSite | ChunkLengthMismatch | ChunkPayloadMismatch
    | StartChunkRequired | VolumeIdentityConflict | ConflictingDuplicate(sequence: nat) | InvalidSequence
    | VolumeTooLarge | NoActiveVolume | SafeSweepAlreadyPublished | VolumeIncomplete

  datatype Delivery = Delivery(generation: nat, metadata: ChunkMetadata, bytes: seq<Byte>)

  // ----- A volume's contiguous prefix -----

  // The last sequence of the unbroken run through `from - 1`, or further if `from` is held.
  function RunFrom(chunks: Chunks, from: nat): (last: nat)
    requires 1 <= from <= MAX_REALTIME_CHUNKS + 1
    ensures from - 1 <= last <= MAX_REALTIME_CHUNKS
    ensures forall k :: from <= k <= last ==> k in chunks
    ensures last == MAX_REALTIME_CHUNKS || last + 1 !in chunks
    decreases MAX_REALTIME_CHUNKS + 1 - from
  {
    if from <= MAX_REALTIME_CHUNKS && from in chunks then RunFrom(chunks, from + 1) else from - 1
  }

  function ContiguousThrough(v: Volume): (last: nat)
    ensures last <= MAX_REALTIME_CHUNKS && forall k :: 1 <= k <= last ==> k in v.chunks
  {
    RunFrom(v.chunks, 1)
  }

  lemma RunIsUnique(chunks: Chunks, last: nat)
    requires last <= MAX_REALTIME_CHUNKS && forall k :: 1 <= k <= last ==> k in chunks
    requires last == MAX_REALTIME_CHUNKS || last + 1 !in chunks
    ensures RunFrom(chunks, 1) == last
  {
  }

  function WaitingFor(v: Volume): Option<nat> {
    if exists k :: k in v.chunks && k > ContiguousThrough(v) + 1 then Some(ContiguousThrough(v) + 1) else None
  }

  predicate Complete(v: Volume) {
    v.terminal.Some? && ContiguousThrough(v) == v.terminal.value
  }

  ghost predicate Holds(chunks: Chunks, through: nat) {
    forall k :: 1 <= k <= through ==> k in chunks
  }

  // The bytes of chunks 1 to `through`, in sequence.
  ghost function Joined(chunks: Chunks, through: nat): (bytes: seq<Byte>)
    requires Holds(chunks, through)
  {
    if through == 0 then [] else Joined(chunks, through - 1) + chunks[through].bytes
  }

  // The bytes held in chunks 1 to n, held or not.
  function HeldBytes(chunks: Chunks, n: nat): (total: nat) {
    if n == 0 then 0 else HeldBytes(chunks, n - 1) + if n in chunks then |chunks[n].bytes| else 0
  }

  lemma {:induction false} JoinedLength(chunks: Chunks, through: nat)
    requires Holds(chunks, through)
    ensures |Joined(chunks, through)| == HeldBytes(chunks, through)
  {
    if through > 0 { JoinedLength(chunks, through - 1); }
  }

  lemma {:induction false} HeldBytesGrow(chunks: Chunks, m: nat, n: nat)
    requires m <= n
    ensures HeldBytes(chunks, m) <= HeldBytes(chunks, n)
  {
    if m < n { HeldBytesGrow(chunks, m, n - 1); }
  }

  lemma {:induction false} HeldBytesOfInsert(chunks: Chunks, k: nat, chunk: StoredChunk, n: nat)
    requires k !in chunks && k > 0
    ensures HeldBytes(chunks[k := chunk], n) == HeldBytes(chunks, n) + if k <= n then |chunk.bytes| else 0
  {
    if n > 0 { HeldBytesOfInsert(chunks, k, chunk, n - 1); }
  }

  function Assembled(v: Volume, through: nat): Result<seq<Byte>, ChunkError> {
    if through == 0 then Err(StartChunkRequired)
    else if (exists k :: 1 <= k <= through && k !in v.chunks)
            || HeldBytes(v.chunks, through) > MAX_REALTIME_VOLUME_BYTES
    then Err(VolumeIncomplete)
    else Ok(JoinedBytes(v.chunks, through))
  }

  // `Joined` in a form that runs.
  function JoinedBytes(chunks: Chunks, through: nat): (bytes: seq<Byte>)
    requires forall k :: 1 <= k <= through ==> k in chunks
    ensures bytes == Joined(chunks, through)
  {
    if through == 0 then [] else JoinedBytes(chunks, through - 1) + chunks[through].bytes
  }

  function AssembledComplete(v: Volume): Result<seq<Byte>, ChunkError> {
    if !Complete(v) then Err(VolumeIncomplete) else Assembled(v, v.terminal.value)
  }

  // ----- Ingesting one chunk -----

  predicate ValidPayload(kind: ChunkKind, bytes: seq<Byte>) {
    if kind.Start? then |bytes| >= 3 && bytes[..3] == [65, 82, 50]  // "AR2"
    else |bytes| >= 6 && bytes[4..6] == [66, 90]                    // "BZ"
  }

  predicate ValidSequenceType(m: ChunkMetadata) {
    m.sequence == 1 <==> m.kind.Start?
  }

  // Why a chunk never reaches a volume, or None.
  function Rejection(a: Assembler, d: Delivery): Option<ChunkError> {
    if d.generation != a.generation then Some(StaleGeneration)
    else if !a.active then Some(GenerationCancelled)
    else if d.metadata.site != a.site then Some(InvalidSite)
    else if |d.bytes| != d.metadata.size then Some(ChunkLengthMismatch)
    else if !ValidPayload(d.metadata.kind, d.bytes) then Some(ChunkPayloadMismatch)
    else if !ValidSequenceType(d.metadata) then Some(InvalidSequence)
    else None
  }

  function NewVolume(identity: VolumeIdentity): Volume {
    Volume(identity, map[], None, 0, false)
  }

  // The volume a chunk goes to, and the outcome of opening it if that is a rollover.
  datatype Target =
    | Into(volume: Volume, rollover: Option<Option<VolumeIdentity>>)
    | TooOld(active: VolumeIdentity)
    | Refused(error: ChunkError)

  function TargetOf(a: Assembler, m: ChunkMetadata): Target {
    var identity := IdentityOf(m);
    var starts := m.sequence == 1 && m.kind.Start?;
    match a.volume
    case None => if starts then Into(NewVolume(identity), None) else Refused(StartChunkRequired)
    case Some(current) =>
      if current.identity == identity then Into(current, None)
      else if current.identity.startedAt == identity.startedAt then Refused(VolumeIdentityConflict)
      else if identity.startedAt < current.identity.startedAt then TooOld(current.identity)
      else if !starts then Refused(StartChunkRequired)
      else Into(NewVolume(identity), Some(if Complete(current) then None else Some(current.identity)))
  }

  datatype Stored = Stored(volume: Volume, error: Option<ChunkError>, duplicate: bool)

  // What inserting a chunk into its volume leaves behind. The end of the volume
  // is recorded before the size check.
  function Insert(v: Volume, m: ChunkMetadata, bytes: seq<Byte>): Stored {
    if m.sequence in v.chunks then
      var same := v.chunks[m.sequence].metadata.kind == m.kind && v.chunks[m.sequence].bytes == bytes;
      Stored(v, if same then None else Some(ConflictingDuplicate(m.sequence)), same)
    else if v.terminal.Some? && (m.sequence > v.terminal.value || (m.kind.End? && m.sequence != v.terminal.value)) then
      Stored(v, Some(InvalidSequence), false)
    else if m.kind.End? && exists k :: k in v.chunks && k > m.sequence then
      Stored(v, Some(InvalidSequence), false)
    else
      var ended := if m.kind.End? then v.(terminal := Some(m.sequence)) else v;
      if v.total + |bytes| > MAX_REALTIME_VOLUME_BYTES then Stored(ended, Some(VolumeTooLarge), false)
      else Stored(ended.(chunks := v.chunks[m.sequence := StoredChunk(m, bytes)], total := v.total + |bytes|), None,
                  false)
  }

  function Ingested(a: Assembler, d: Delivery): (Assembler, Result<ChunkIngestOutcome, ChunkError>) {
    if Rejection(a, d).Some? then (a, Err(Rejection(a, d).value))
    else
      match TargetOf(a, d.metadata)
      case Refused(error) => (a, Err(error))
      case TooOld(active) => (a, Ok(Late(active, d.metadata.key)))
      case Into(volume, rollover) =>
        var stored := Insert(volume, d.metadata, d.bytes);
        var v := stored.volume;
        (a.(volume := Some(v)),
         if stored.error.Some? then Err(stored.error.value)
         else if stored.duplicate then Ok(Duplicate(v.identity, d.metadata.sequence))
         else if rollover.Some? then Ok(Rollover(v.identity, rollover.value))
         else Ok(Accepted(v.identity, ContiguousThrough(v), WaitingFor(v), Complete(v))))
  }

  function IngestedAll(a: Assembler, deliveries: seq<Delivery>): Assembler {
    if deliveries == [] then a
    else Ingested(IngestedAll(a, deliveries[..|deliveries| - 1]), deliveries[|deliveries| - 1]).0
  }

  // ----- What every run without an oversized end keeps -----

  ghost predicate ValidVolume(v: Volume) {
    && 1 in v.chunks
    && (forall k :: k in v.chunks ==>
          && 1 <= k <= MAX_REALTIME_CHUNKS && v.chunks[k].metadata.sequence == k
          && IdentityOf(v.chunks[k].metadata) == v.identity
          && |v.chunks[k].bytes| == v.chunks[k].metadata.size
          && ValidPayload(v.chunks[k].metadata.kind, v.chunks[k].bytes)
          && (v.chunks[k].metadata.kind.Start? <==> k == 1)
          && (v.chunks[k].metadata.kind.End? <==> v.terminal == Some(k))
          && (v.terminal.Some? ==> k <= v.terminal.value))
    && (v.terminal.Some? ==> v.terminal.value in v.chunks)
    && v.total == HeldBytes(v.chunks, MAX_REALTIME_CHUNKS) <= MAX_REALTIME_VOLUME_BYTES
  }

  ghost predicate ValidAssembler(a: Assembler) {
    a.volume.Some? ==> ValidVolume(a.volume.value) && a.volume.value.identity.site == a.site
  }

  lemma {:induction false} NothingHeld(n: nat)
    ensures HeldBytes(map[], n) == 0
  {
    if n > 0 { NothingHeld(n - 1); }
  }

  // An end chunk that would close the active volume, but does not fit it.
  predicate EndsOversized(a: Assembler, d: Delivery) {
    && Rejection(a, d).None? && d.metadata.kind.End?
    && a.volume.Some? && a.volume.value.identity == IdentityOf(d.metadata) && a.volume.value.terminal.None?
    && (forall k :: k in a.volume.value.chunks ==> k < d.metadata.sequence)
    && a.volume.value.total + |d.bytes| > MAX_REALTIME_VOLUME_BYTES
  }

  // An ingest keeps the volume valid exactly when it is not such an end chunk's.
  lemma IngestKeepsValid(a: Assembler, d: Delivery)
    requires ValidAssembler(a)
    ensures ValidAssembler(Ingested(a, d).0) <==> !EndsOversized(a, d)
  {
    if EndsOversized(a, d) {
      OversizedEndBreaksVolume(a, d);
    } else if Ingested(a, d).1.Err? {
      RefusedIngest(a, d);
    } else {
      AcceptedKeepsValid(a, d);
    }
  }

  lemma AcceptedKeepsValid(a: Assembler, d: Delivery)
    requires ValidAssembler(a) && Ingested(a, d).1.Ok?
    ensures ValidAssembler(Ingested(a, d).0)
  {
    NothingHeld(MAX_REALTIME_CHUNKS);
    var target := TargetOf(a, d.metadata);
    if Rejection(a, d).None? && target.Into? && d.metadata.sequence !in target.volume.chunks {
      HeldBytesOfInsert(target.volume.chunks, d.metadata.sequence, StoredChunk(d.metadata, d.bytes),
                        MAX_REALTIME_CHUNKS);
    }
  }

  // A valid volume always assembles its contiguous prefix, and is complete
  // exactly when its end and everything before it are held.
  lemma ValidVolumeAssembles(v: Volume, through: nat)
    requires ValidVolume(v) && 1 <= through <= ContiguousThrough(v)
    ensures Assembled(v, through) == Ok(Joined(v.chunks, through))
    ensures Complete(v) <==> v.terminal.Some? && Holds(v.chunks, v.terminal.value)
  {
    HeldBytesGrow(v.chunks, through, MAX_REALTIME_CHUNKS);
    if v.terminal.Some? && Holds(v.chunks, v.terminal.value) {
      RunIsUnique(v.chunks, v.terminal.value);
    }
  }

  // A refused ingest changes nothing, except that an end chunk refused for the
  // volume's size has already marked where the volume ends.
  lemma RefusedIngest(a: Assembler, d: Delivery)
    ensures EndsOversized(a, d) ==> Ingested(a, d).1 == Err(VolumeTooLarge)
    ensures Ingested(a, d).1.Err? ==> (Ingested(a, d).0 == a <==> !EndsOversized(a, d))
  {
    if Rejection(a, d).None? && TargetOf(a, d.metadata).Into? && TargetOf(a, d.metadata).rollover.None? {
      var v := TargetOf(a, d.metadata).volume;
      assert a.volume.Some? ==> v == a.volume.value;
    }
  }

  // That leaves a volume that is no longer valid: its end is not held.
  lemma OversizedEndBreaksVolume(a: Assembler, d: Delivery)
    requires EndsOversized(a, d)
    ensures Ingested(a, d).0.volume.Some?
    ensures var v := Ingested(a, d).0.volume.value;
            !ValidVolume(v) && v.terminal == Some(d.metadata.sequence) && d.metadata.sequence !in v.chunks
  {
  }

  function FullChunk(k: nat): (bytes: seq<Byte>)
    ensures |bytes| == MAX_REALTIME_CHUNK_BYTES
  {
    (if k == 1 then [65, 82, 50, 0, 0, 0] else [0, 0, 0, 0, 66, 90]) + seq(MAX_REALTIME_CHUNK_BYTES - 6, _ => 0)
  }

  function PartMetadata(k: nat, kind: ChunkKind, size: nat): ChunkMetadata
    requires 1 <= k <= MAX_REALTIME_CHUNKS && 0 < size <= MAX_REALTIME_CHUNK_BYTES
  {
    Metadata("KTLX", 1, 0, k, kind, "", 1, size)
  }

  function FullDelivery(k: nat): Delivery
    requires 1 <= k <= 16
  {
    Delivery(1, PartMetadata(k, if k == 1 then Start else Intermediate, MAX_REALTIME_CHUNK_BYTES), FullChunk(k))
  }

  // The first n chunks of a volume, each as large as a chunk may be.
  function FullDeliveries(n: nat): (deliveries: seq<Delivery>)
    requires n <= 16
    ensures |deliveries| == n
  {
    if n == 0 then [] else FullDeliveries(n - 1) + [FullDelivery(n)]
  }

  ghost predicate HoldsFull(a: Assembler, n: nat) {
    && a.generation == 1 && a.site == "KTLX" && a.active && (a.volume.Some? <==> 1 <= n)
    && (a.volume.Some? ==>
          && a.volume.value.identity == VolumeIdentity("KTLX", 1, 0) && a.volume.value.terminal.None?
          && a.volume.value.total == n * MAX_REALTIME_CHUNK_BYTES
          && forall k :: k in a.volume.value.chunks <==> 1 <= k <= n)
  }

  lemma FullIsTaken(a: Assembler, k: nat)
    requires 1 <= k <= 16 && a.generation == 1 && a.site == "KTLX" && a.active
    ensures Rejection(a, FullDelivery(k)).None?
  {
  }

  lemma FullArrives(a: Assembler, n: nat, d: Delivery)
    requires n < 16 && HoldsFull(a, n) && Rejection(a, d).None? && |d.bytes| == MAX_REALTIME_CHUNK_BYTES
    requires d.metadata == PartMetadata(n + 1, if n == 0 then Start else Intermediate, MAX_REALTIME_CHUNK_BYTES)
    ensures HoldsFull(Ingested(a, d).0, n + 1) && !EndsOversized(a, d)
  {
    var v := if n == 0 then NewVolume(VolumeIdentity("KTLX", 1, 0)) else a.volume.value;
    assert TargetOf(a, d.metadata) == Into(v, None);
    FullStored(v, n, d);
  }

  lemma FullStored(v: Volume, n: nat, d: Delivery)
    requires n < 16 && v.total == n * MAX_REALTIME_CHUNK_BYTES && v.terminal.None?
    requires |d.bytes| == MAX_REALTIME_CHUNK_BYTES
    requires d.metadata.sequence == n + 1 && !d.metadata.kind.End? && n + 1 !in v.chunks
    ensures Insert(v, d.metadata, d.bytes).volume
            == v.(chunks := v.chunks[n + 1 := StoredChunk(d.metadata, d.bytes)],
                  total := (n + 1) * MAX_REALTIME_CHUNK_BYTES)
  {
  }

  lemma {:induction false} FullRun(a: Assembler, n: nat)
    requires n <= 16 && HoldsFull(a, 0)
    ensures HoldsFull(IngestedAll(a, FullDeliveries(n)), n) && ValidAssembler(IngestedAll(a, FullDeliveries(n)))
  {
    if n > 0 {
      FullRun(a, n - 1);
      var before, deliveries := IngestedAll(a, FullDeliveries(n - 1)), FullDeliveries(n);
      assert deliveries[..n - 1] == FullDeliveries(n - 1);
      FullIsTaken(before, n);
      FullArrives(before, n - 1, deliveries[n - 1]);
      IngestKeepsValid(before, deliveries[n - 1]);
    }
  }

  lemma FullOverflows(a: Assembler, n: nat, d: Delivery)
    requires n * MAX_REALTIME_CHUNK_BYTES == MAX_REALTIME_VOLUME_BYTES && HoldsFull(a, n)
    requires d == Delivery(1, PartMetadata(n + 1, End, 6), [0, 0, 0, 0, 66, 90])
    ensures EndsOversized(a, d)
  {
    assert Rejection(a, d).None?;
  }

  // A run that meets one: sixteen full chunks leave no room for an end chunk.
  lemma OversizedEndArises(n: nat) returns (deliveries: seq<Delivery>, d: Delivery)
    requires n * MAX_REALTIME_CHUNK_BYTES == MAX_REALTIME_VOLUME_BYTES
    ensures var a := IngestedAll(Assembler(1, "KTLX", true, None), deliveries);
            ValidAssembler(a) && EndsOversized(a, d) && d.metadata.sequence == |deliveries| + 1
  {
    deliveries, d := FullDeliveries(n), Delivery(1, PartMetadata(n + 1, End, 6), [0, 0, 0, 0, 66, 90]);
    FullRun(Assembler(1, "KTLX", true, None), n);
    FullOverflows(IngestedAll(Assembler(1, "KTLX", true, None), deliveries), n, d);
  }

  // ----- Delivery order does not matter -----

  // A volume as sent: payloads[k - 1] is chunk k, the first starts it and the last ends it.
  datatype Sent = Sent(generation: nat, identity: VolumeIdentity, payloads: seq<seq<Byte>>)

  function KindOf(sent: Sent, k: nat): ChunkKind {
    if k == 1 then Start else if k == |sent.payloads| then End else Intermediate
  }

  function SentBytes(payloads: seq<seq<Byte>>): (total: nat) {
    if payloads == [] then 0 else SentBytes(payloads[..|payloads| - 1]) + |payloads[|payloads| - 1]|
  }

  function Concatenated(payloads: seq<seq<Byte>>): (bytes: seq<Byte>) {
    if payloads == [] then [] else Concatenated(payloads[..|payloads| - 1]) + payloads[|payloads| - 1]
  }

  ghost predicate WellSent(sent: Sent) {
    && 2 <= |sent.payloads| <= MAX_REALTIME_CHUNKS
    && SentBytes(sent.payloads) <= MAX_REALTIME_VOLUME_BYTES
    && forall k :: 1 <= k <= |sent.payloads| ==> ValidPayload(KindOf(sent, k), sent.payloads[k - 1])
  }

  // Chunk k of the volume; its key and last-modified time may differ between repeats.
  ghost predicate IsPart(sent: Sent, d: Delivery, k: nat) {
    && 1 <= k <= |sent.payloads| && d.generation == sent.generation && IdentityOf(d.metadata) == sent.identity
    && d.metadata.sequence == k && d.metadata.kind == KindOf(sent, k)
    && d.bytes == sent.payloads[k - 1] && d.metadata.size == |d.bytes|
  }

  // A chunk of an older volume, or one no volume takes.
  ghost predicate IsStray(sent: Sent, d: Delivery) {
    || d.metadata.startedAt < sent.identity.startedAt || d.generation != sent.generation
    || d.metadata.site != sent.identity.site || |d.bytes| != d.metadata.size
    || !ValidPayload(d.metadata.kind, d.bytes) || !ValidSequenceType(d.metadata)
  }

  // The volume holds exactly the chunks in `arrived`, as sent.
  ghost predicate HoldsArrived(sent: Sent, v: Volume, arrived: set<nat>) {
    && v.identity == sent.identity && v.chunks.Keys == arrived
    && (forall k :: k in arrived ==> && 1 <= k <= |sent.payloads| && v.chunks[k].bytes == sent.payloads[k - 1]
                                     && v.chunks[k].metadata.kind == KindOf(sent, k))
    && v.terminal == (if |sent.payloads| in arrived then Some(|sent.payloads|) else None)
    && v.total == HeldBytes(v.chunks, |sent.payloads|)
  }

  lemma {:induction false} HeldWithinSent(sent: Sent, v: Volume, arrived: set<nat>, n: nat)
    requires HoldsArrived(sent, v, arrived) && n <= |sent.payloads|
    ensures HeldBytes(v.chunks, n) <= SentBytes(sent.payloads[..n])
  {
    if n > 0 {
      assert sent.payloads[..n][..n - 1] == sent.payloads[..n - 1];
      HeldWithinSent(sent, v, arrived, n - 1);
    }
  }

  lemma PartArrives(sent: Sent, a: Assembler, arrived: set<nat>, d: Delivery, k: nat)
    requires WellSent(sent) && IsPart(sent, d, k)
    requires a.generation == sent.generation && a.site == sent.identity.site && a.active
    requires a.volume.Some? && HoldsArrived(sent, a.volume.value, arrived)
    ensures var b := Ingested(a, d).0; b.volume.Some? && HoldsArrived(sent, b.volume.value, arrived + {k})
  {
    var v := a.volume.value;
    assert Rejection(a, d).None? && TargetOf(a, d.metadata) == Into(v, None);
    if k in arrived {
      assert arrived + {k} == arrived;
    } else {
      var chunk := StoredChunk(d.metadata, d.bytes);
      var held := v.(chunks := v.chunks[k := chunk], terminal := if k == |sent.payloads| then Some(k) else v.terminal,
                     total := HeldBytes(v.chunks[k := chunk], |sent.payloads|));
      HeldBytesOfInsert(v.chunks, k, chunk, |sent.payloads|);
      assert held.chunks.Keys == arrived + {k};
      assert HoldsArrived(sent, held, arrived + {k});
      HeldWithinSent(sent, held, arrived + {k}, |sent.payloads|);
      assert sent.payloads[..|sent.payloads|] == sent.payloads;
      assert Insert(v, d.metadata, d.bytes).volume == held;
    }
  }

  // A repeat of a chunk held is a duplicate, whatever its key and time, and changes nothing.
  lemma RepeatIsDuplicate(sent: Sent, a: Assembler, arrived: set<nat>, d: Delivery, k: nat)
    requires WellSent(sent) && IsPart(sent, d, k) && k in arrived
    requires a.generation == sent.generation && a.site == sent.identity.site && a.active
    requires a.volume.Some? && HoldsArrived(sent, a.volume.value, arrived)
    ensures Ingested(a, d) == (a, Ok(Duplicate(sent.identity, k)))
  {
    assert Rejection(a, d).None? && TargetOf(a, d.metadata) == Into(a.volume.value, None);
  }

  // A well-formed chunk of the active volume for a sequence held is answered as
  // a duplicate exactly when its kind and bytes are those held.
  lemma HeldIsCompared(a: Assembler, d: Delivery)
    requires Rejection(a, d).None? && a.volume.Some? && a.volume.value.identity == IdentityOf(d.metadata)
    requires d.metadata.sequence in a.volume.value.chunks
    ensures var held := a.volume.value.chunks[d.metadata.sequence];
            Ingested(a, d) == (a, if d.bytes == held.bytes && d.metadata.kind == held.metadata.kind
                                  then Ok(Duplicate(a.volume.value.identity, d.metadata.sequence))
                                  else Err(ConflictingDuplicate(d.metadata.sequence)))
  {
  }

  lemma StrayChangesNothing(sent: Sent, a: Assembler, d: Delivery)
    requires IsStray(sent, d) && a.generation == sent.generation && a.site == sent.identity.site
    requires a.volume.Some? && a.volume.value.identity == sent.identity
    ensures Ingested(a, d).0 == a
  {
  }

  // What an accepted chunk's answer says once the chunks in `arrived` are held:
  // where the unbroken run from the start ends, which chunk is awaited because
  // a later one is held, and whether the volume is whole.
  ghost predicate Reports(sent: Sent, arrived: set<nat>, outcome: ChunkIngestOutcome) {
    && outcome.Accepted? && outcome.volume == sent.identity
    && (forall j :: 1 <= j <= outcome.contiguousThrough ==> j in arrived) && outcome.contiguousThrough + 1 !in arrived
    && outcome.waitingFor == (if exists j :: j in arrived && j > outcome.contiguousThrough
                              then Some(outcome.contiguousThrough + 1) else None)
    && (outcome.complete <==> forall j :: 1 <= j <= |sent.payloads| ==> j in arrived)
  }

  // A part not held yet is accepted, and the answer reports what is held with it.
  lemma PartIsReported(sent: Sent, a: Assembler, arrived: set<nat>, d: Delivery, k: nat)
    requires WellSent(sent) && IsPart(sent, d, k) && k !in arrived
    requires a.generation == sent.generation && a.site == sent.identity.site && a.active
    requires a.volume.Some? && HoldsArrived(sent, a.volume.value, arrived)
    ensures Ingested(a, d).1.Ok? && Reports(sent, arrived + {k}, Ingested(a, d).1.value)
  {
    PartArrives(sent, a, arrived, d, k);
    assert Rejection(a, d).None? && TargetOf(a, d.metadata) == Into(a.volume.value, None);
    var v := Ingested(a, d).0.volume.value;
    assert k in v.chunks && Insert(a.volume.value, d.metadata, d.bytes).error.None?;
    ReportsHeld(sent, v, arrived + {k});
  }

  lemma ReportsHeld(sent: Sent, v: Volume, arrived: set<nat>)
    requires WellSent(sent) && HoldsArrived(sent, v, arrived)
    ensures Reports(sent, arrived, Accepted(v.identity, ContiguousThrough(v), WaitingFor(v), Complete(v)))
  {
    WholeIsAll(sent, v, arrived);
    RunIsArrived(v, arrived, |sent.payloads|);
    WaitsForNext(v, arrived);
  }

  lemma RunIsArrived(v: Volume, arrived: set<nat>, n: nat)
    requires v.chunks.Keys == arrived && n <= MAX_REALTIME_CHUNKS && forall k :: k in arrived ==> k <= n
    ensures (forall j :: 1 <= j <= ContiguousThrough(v) ==> j in arrived) && ContiguousThrough(v) + 1 !in arrived
  {
  }

  lemma WaitsForNext(v: Volume, arrived: set<nat>)
    requires v.chunks.Keys == arrived && ContiguousThrough(v) + 1 !in arrived
    ensures WaitingFor(v) == if exists j :: j in arrived && j > ContiguousThrough(v)
                             then Some(ContiguousThrough(v) + 1) else None
  {
  }

  lemma WholeIsAll(sent: Sent, v: Volume, arrived: set<nat>)
    requires WellSent(sent) && HoldsArrived(sent, v, arrived)
    ensures Complete(v) <==> forall j :: 1 <= j <= |sent.payloads| ==> j in arrived
  {
    if forall j :: 1 <= j <= |sent.payloads| ==> j in arrived { RunIsUnique(v.chunks, |sent.payloads|); }
  }

  // The start chunk of a new volume opens it, and says which volume it abandons unfinished.
  lemma StartOpens(sent: Sent, a: Assembler, d: Delivery)
    requires WellSent(sent) && IsPart(sent, d, 1)
    requires a.generation == sent.generation && a.site == sent.identity.site && a.active
    requires a.volume.Some? ==> a.volume.value.identity.startedAt < sent.identity.startedAt
    ensures Ingested(a, d).1.Ok?
    ensures if a.volume.None? then Reports(sent, {1}, Ingested(a, d).1.value)
            else Ingested(a, d).1.value == Rollover(sent.identity, if Complete(a.volume.value) then None
                                                                  else Some(a.volume.value.identity))
  {
    var renewed, empty := a.(volume := Some(NewVolume(sent.identity))), NewVolume(sent.identity);
    NothingHeld(|sent.payloads|);
    assert HoldsArrived(sent, empty, {});
    PartIsReported(sent, renewed, {}, d, 1);
    assert {} + {1} == {1};
    assert Ingested(a, d).0 == Ingested(renewed, d).0;
  }

  // A chunk of an older volume is late if it is well formed, and every other stray is refused.
  lemma StrayIsAnswered(sent: Sent, a: Assembler, d: Delivery)
    requires IsStray(sent, d) && a.generation == sent.generation && a.site == sent.identity.site && a.active
    requires a.volume.Some? && a.volume.value.identity == sent.identity
    ensures var wellFormed := d.generation == sent.generation && d.metadata.site == sent.identity.site
                              && |d.bytes| == d.metadata.size && ValidPayload(d.metadata.kind, d.bytes)
                              && ValidSequenceType(d.metadata);
            if wellFormed then Ingested(a, d).1 == Ok(Late(sent.identity, d.metadata.key)) else Ingested(a, d).1.Err?
  {
  }

  // Each refusal names the first thing that is wrong with a chunk.
  lemma RefusalIsNamed(a: Assembler, d: Delivery)
    ensures var r, m := Ingested(a, d).1, d.metadata;
            var ours := d.generation == a.generation && a.active && m.site == a.site;
            && (r == Err(StaleGeneration) <==> d.generation != a.generation)
            && (r == Err(GenerationCancelled) <==> d.generation == a.generation && !a.active)
            && (r == Err(InvalidSite) <==> d.generation == a.generation && a.active && m.site != a.site)
            && (r == Err(ChunkLengthMismatch) <==> ours && |d.bytes| != m.size)
            && (r == Err(ChunkPayloadMismatch) <==> ours && |d.bytes| == m.size && !ValidPayload(m.kind, d.bytes))
            && (r == Err(VolumeIdentityConflict) <==>
                  && Rejection(a, d).None? && a.volume.Some? && a.volume.value.identity != IdentityOf(m)
                  && a.volume.value.identity.startedAt == m.startedAt)
            && (r == Err(StartChunkRequired) <==>
                  && Rejection(a, d).None? && m.sequence != 1
                  && (a.volume.None? || a.volume.value.identity.startedAt < m.startedAt))
  {
  }

  // A new chunk of the active volume is refused exactly if it lies past the end,
  // ends the volume before a chunk held or elsewhere than before, or does not fit.
  lemma PlaceIsChecked(a: Assembler, d: Delivery)
    requires Rejection(a, d).None? && a.volume.Some? && a.volume.value.identity == IdentityOf(d.metadata)
    requires d.metadata.sequence !in a.volume.value.chunks
    ensures var v, m, r := a.volume.value, d.metadata, Ingested(a, d).1;
            var misplaced := (v.terminal.Some? && m.sequence > v.terminal.value)
                             || (m.kind.End? && ((v.terminal.Some? && v.terminal.value != m.sequence)
                                                 || exists k :: k in v.chunks && k > m.sequence));
            && (r == Err(InvalidSequence) <==> misplaced)
            && (r == Err(VolumeTooLarge) <==> !misplaced && v.total + |d.bytes| > MAX_REALTIME_VOLUME_BYTES)
            && (r.Ok? <==> !misplaced && v.total + |d.bytes| <= MAX_REALTIME_VOLUME_BYTES)
            && (r.Ok? ==> r.value.Accepted?)
  {
  }

  // What is assembled is never partial: nothing for an empty prefix, one with a
  // chunk missing or one over the byte bound.
  lemma AssemblyRefuses(v: Volume, through: nat)
    ensures Assembled(v, through) == Err(StartChunkRequired) <==> through == 0
    ensures Assembled(v, through).Ok? <==>
            through > 0 && Holds(v.chunks, through) && HeldBytes(v.chunks, through) <= MAX_REALTIME_VOLUME_BYTES
    ensures Assembled(v, through).Ok? ==> Assembled(v, through).value == Joined(v.chunks, through)
    ensures through > 0 && Assembled(v, through).Err? ==> Assembled(v, through) == Err(VolumeIncomplete)
    ensures AssembledComplete(v).Ok? ==> Complete(v) && AssembledComplete(v) == Assembled(v, v.terminal.value)
    ensures !Complete(v) ==> AssembledComplete(v) == Err(VolumeIncomplete)
  {
  }

  // Which chunks of the volume the deliveries bring.
  ghost function Arrived(sent: Sent, deliveries: seq<Delivery>): (arrived: set<nat>) {
    set k | 1 <= k <= |sent.payloads| && Brings(sent, deliveries, k)
  }

  ghost predicate Brings(sent: Sent, deliveries: seq<Delivery>, k: nat) {
    exists i :: 0 <= i < |deliveries| && IsPart(sent, deliveries[i], k)
  }

  // The assembler is new or still on an older volume when the start chunk comes first.
  ghost predicate Delivers(sent: Sent, a: Assembler, deliveries: seq<Delivery>) {
    && WellSent(sent) && a.generation == sent.generation && a.site == sent.identity.site && a.active
    && (a.volume.Some? ==> a.volume.value.identity.startedAt < sent.identity.startedAt)
    && deliveries != [] && IsPart(sent, deliveries[0], 1)
    && forall i :: 0 <= i < |deliveries| ==> IsStray(sent, deliveries[i]) || exists k :: IsPart(sent, deliveries[i], k)
  }

  lemma {:induction false} ArrivedSoFar(sent: Sent, a: Assembler, deliveries: seq<Delivery>)
    requires Delivers(sent, a, deliveries)
    ensures var b := IngestedAll(a, deliveries);
            && b.generation == a.generation && b.site == a.site && b.active
            && b.volume.Some? && HoldsArrived(sent, b.volume.value, Arrived(sent, deliveries))
  {
    var last := |deliveries| - 1;
    var before, d := deliveries[..last], deliveries[last];
    if last == 0 {
      var renewed := a.(volume := Some(NewVolume(sent.identity)));
      assert IngestedAll(a, before) == a;
      NothingHeld(|sent.payloads|);
      assert HoldsArrived(sent, NewVolume(sent.identity), {});
      PartArrives(sent, renewed, {}, d, 1);
      assert Ingested(a, d).0 == Ingested(renewed, d).0;
      ArrivedGrows(sent, deliveries, 1);
      assert Arrived(sent, before) == {};
    } else {
      ArrivedSoFar(sent, a, before);
      var b := IngestedAll(a, before);
      assert IngestedAll(a, deliveries) == Ingested(b, d).0;
      if k: nat :| IsPart(sent, d, k) {
        PartArrives(sent, b, Arrived(sent, before), d, k);
        ArrivedGrows(sent, deliveries, k);
      } else {
        StrayChangesNothing(sent, b, d);
        StrayBringsNothing(sent, deliveries);
      }
    }
  }

  // In such a run every chunk of the volume is answered: accepted when it is new,
  // opening or taking over first, and as a duplicate when it is repeated.
  lemma PartsAreAnswered(sent: Sent, a: Assembler, deliveries: seq<Delivery>, i: nat, k: nat)
    requires Delivers(sent, a, deliveries) && i < |deliveries| && IsPart(sent, deliveries[i], k)
    ensures var r := Ingested(IngestedAll(a, deliveries[..i]), deliveries[i]).1;
            && r.Ok?
            && (i > 0 && k in Arrived(sent, deliveries[..i]) ==> r.value == Duplicate(sent.identity, k))
            && (i > 0 && k !in Arrived(sent, deliveries[..i]) ==>
                  Reports(sent, Arrived(sent, deliveries[..i]) + {k}, r.value))
            && (i == 0 ==> r.value.Rollover? || Reports(sent, {1}, r.value))
  {
    if i == 0 {
      assert deliveries[..0] == [];
      StartOpens(sent, a, deliveries[0]);
    } else {
      var before := deliveries[..i];
      assert forall j :: 0 <= j < i ==> before[j] == deliveries[j];
      ArrivedSoFar(sent, a, before);
      var b := IngestedAll(a, before);
      if k in Arrived(sent, before) {
        RepeatIsDuplicate(sent, b, Arrived(sent, before), deliveries[i], k);
      } else {
        PartIsReported(sent, b, Arrived(sent, before), deliveries[i], k);
      }
    }
  }

  lemma ArrivedGrows(sent: Sent, deliveries: seq<Delivery>, k: nat)
    requires deliveries != [] && IsPart(sent, deliveries[|deliveries| - 1], k)
    ensures Arrived(sent, deliveries) == Arrived(sent, deliveries[..|deliveries| - 1]) + {k}
  {
    var last := |deliveries| - 1;
    forall j | Brings(sent, deliveries, j) ensures j == k || Brings(sent, deliveries[..last], j) {
      var i :| 0 <= i < |deliveries| && IsPart(sent, deliveries[i], j);
      assert i == last || IsPart(sent, deliveries[..last][i], j);
    }
    forall j | Brings(sent, deliveries[..last], j) ensures Brings(sent, deliveries, j) {
      var i :| 0 <= i < last && IsPart(sent, deliveries[..last][i], j);
      assert IsPart(sent, deliveries[i], j);
    }
  }

  lemma StrayBringsNothing(sent: Sent, deliveries: seq<Delivery>)
    requires deliveries != [] && (var d := deliveries[|deliveries| - 1]; forall k :: !IsPart(sent, d, k))
    ensures Arrived(sent, deliveries) == Arrived(sent, deliveries[..|deliveries| - 1])
  {
    var last := |deliveries| - 1;
    forall j ensures Brings(sent, deliveries, j) == Brings(sent, deliveries[..last], j) {
      if i :| 0 <= i < |deliveries| && IsPart(sent, deliveries[i], j) {
        assert IsPart(sent, deliveries[..last][i], j);
      }
      if i :| 0 <= i < last && IsPart(sent, deliveries[..last][i], j) {
        assert IsPart(sent, deliveries[i], j);
      }
    }
  }

  lemma {:induction false} JoinedIsConcatenated(sent: Sent, v: Volume, arrived: set<nat>, n: nat)
    requires HoldsArrived(sent, v, arrived) && n <= |sent.payloads| && Holds(v.chunks, n)
    ensures Joined(v.chunks, n) == Concatenated(sent.payloads[..n])
  {
    if n > 0 {
      assert sent.payloads[..n][..n - 1] == sent.payloads[..n - 1];
      JoinedIsConcatenated(sent, v, arrived, n - 1);
    }
  }

  // Every order that begins with the start chunk and brings every chunk at
  // least once, whatever else comes between, assembles the volume as sent.
  lemma DeliveryIsConfluent(sent: Sent, a: Assembler, deliveries: seq<Delivery>)
    requires Delivers(sent, a, deliveries)
    requires forall k :: 1 <= k <= |sent.payloads| ==> k in Arrived(sent, deliveries)
    ensures var v := IngestedAll(a, deliveries).volume;
            && v.Some? && Complete(v.value) && v.value.identity == sent.identity
            && AssembledComplete(v.value) == Ok(Concatenated(sent.payloads))
  {
    ArrivedSoFar(sent, a, deliveries);
    var v, arrived, t := IngestedAll(a, deliveries).volume.value, Arrived(sent, deliveries), |sent.payloads|;
    RunIsUnique(v.chunks, t);
    JoinedIsConcatenated(sent, v, arrived, t);
    HeldWithinSent(sent, v, arrived, t);
    assert sent.payloads[..t] == sent.payloads;
  }

  // ----- The assembler, updated in place -----

  method CountContiguous(chunks: Chunks) returns (last: nat)
    ensures last == RunFrom(chunks, 1)
  {
    var expected := 1;
    while expected in chunks
      invariant 1 <= expected <= MAX_REALTIME_CHUNKS && RunFrom(chunks, expected) == RunFrom(chunks, 1)
      decreases MAX_REALTIME_CHUNKS - expected
    {
      if expected == MAX_REALTIME_CHUNKS { return expected; }
      expected := expected + 1;
    }
    last := expected - 1;
  }

  method Assemble(v: Volume, through: nat) returns (r: Result<seq<Byte>, ChunkError>)
    ensures r == Assembled(v, through)
  {
    if through == 0 { return Err(StartChunkRequired); }
    var capacity := 0;
    for sequence := 1 to through + 1
      invariant Holds(v.chunks, sequence - 1)
      invariant capacity == HeldBytes(v.chunks, sequence - 1) <= MAX_REALTIME_VOLUME_BYTES
    {
      if sequence !in v.chunks { return Err(VolumeIncomplete); }
      capacity := capacity + |v.chunks[sequence].bytes|;
      if capacity > MAX_REALTIME_VOLUME_BYTES {
        HeldBytesGrow(v.chunks, sequence, through);
        return Err(VolumeIncomplete);
      }
    }
    var bytes := [];
    for sequence := 1 to through + 1
      invariant bytes == Joined(v.chunks, sequence - 1)
    {
      bytes := bytes + v.chunks[sequence].bytes;
    }
    r := Ok(bytes);
  }

  class ChunkAssembler {
    const generation: nat
    const site: string
    var active: bool
    var volume: Option<Volume>

    function State(): Assembler
      reads this
    {
      Assembler(generation, site, active, volume)
    }

    constructor (generation: nat, site: string)
      ensures State() == Assembler(generation, site, true, None) && ValidAssembler(State())
    {
      this.generation, this.site, active, volume := generation, site, true, None;
    }

    method Cancel()
      modifies this`active
      ensures State() == old(State()).(active := false)
      ensures forall d: Delivery :: d.generation == generation ==>
                  Ingested(State(), d) == (State(), Err(GenerationCancelled))
    {
      active := false;
    }

    method Ingest(d: Delivery) returns (r: Result<ChunkIngestOutcome, ChunkError>)
      modifies this`volume
      ensures (State(), r) == Ingested(old(State()), d)
    {
      var rejection := Rejection(State(), d);
      if rejection.Some? { return Err(rejection.value); }
      var m, identity := d.metadata, IdentityOf(d.metadata);
      var starts := m.sequence == 1 && m.kind.Start?;
      var rollover: Option<Option<VolumeIdentity>> := None;
      if volume.None? {
        if !starts { return Err(StartChunkRequired); }
        volume := Some(NewVolume(identity));
      } else if volume.value.identity != identity {
        var current := volume.value;
        if current.identity.startedAt == identity.startedAt { return Err(VolumeIdentityConflict); }
        if identity.startedAt < current.identity.startedAt { return Ok(Late(current.identity, m.key)); }
        if !starts { return Err(StartChunkRequired); }
        rollover := Some(if Complete(current) then None else Some(current.identity));
        volume := Some(NewVolume(identity));
      }
      var target := volume.value;
      assert TargetOf(old(State()), m) == Into(target, rollover);
      var error := InsertChunk(m, d.bytes);
      assert error == Insert(target, m, d.bytes).error;
      if error.Some? { return Err(error.value); }
      if m.sequence in target.chunks { return Ok(Duplicate(volume.value.identity, m.sequence)); }
      if rollover.Some? { return Ok(Rollover(volume.value.identity, rollover.value)); }
      r := Ok(Accepted(volume.value.identity, ContiguousThrough(volume.value), WaitingFor(volume.value),
                       Complete(volume.value)));
    }

    method InsertChunk(m: ChunkMetadata, bytes: seq<Byte>) returns (error: Option<ChunkError>)
      requires volume.Some?
      modifies this`volume
      ensures var stored := Insert(old(volume.value), m, bytes); volume == Some(stored.volume) && error == stored.error
    {
      var v := volume.value;
      if m.sequence in v.chunks {
        var existing := v.chunks[m.sequence];
        return if existing.metadata.kind == m.kind && existing.bytes == bytes then None
               else Some(ConflictingDuplicate(m.sequence));
      }
      if v.terminal.Some? {
        if m.sequence > v.terminal.value { return Some(InvalidSequence); }
        if m.kind.End? && m.sequence != v.terminal.value { return Some(InvalidSequence); }
      }
      if m.kind.End? {
        if exists k :: k in v.chunks && k > m.sequence { return Some(InvalidSequence); }
        volume := Some(v.(terminal := Some(m.sequence)));
      }
      if v.total + |bytes| > MAX_REALTIME_VOLUME_BYTES { return Some(VolumeTooLarge); }
      volume := Some(volume.value.(chunks := v.chunks[m.sequence := StoredChunk(m, bytes)],
                                   total := v.total + |bytes|));
      error := None;
    }

    method MarkSafeSweepPublished() returns (error: Option<ChunkError>)
      modifies this`volume
      ensures error == (if old(volume).None? then Some(NoActiveVolume)
                        else if old(volume).value.published then Some(SafeSweepAlreadyPublished) else None)
      ensures volume == if error.Some? then old(volume) else Some(old(volume).value.(published := true))
    {
      if volume.None? { return Some(NoActiveVolume); }
      if volume.value.published { return Some(SafeSweepAlreadyPublished); }
      volume := Some(volume.value.(published := true));
      error := None;
    }

    // Refuses a prefix that reaches past the first missing chunk.
    method AssembledThrough(through: nat) returns (r: Result<seq<Byte>, ChunkError>)
      ensures r == (if volume.None? then Err(NoActiveVolume)
                    else if through > ContiguousThrough(volume.value) then Err(VolumeIncomplete)
                    else Assembled(volume.value, through))
    {
      if volume.None? { return Err(NoActiveVolume); }
      var contiguous := CountContiguous(volume.value.chunks);
      if through > contiguous { return Err(VolumeIncomplete); }
      r := Assemble(volume.value, through);
    }

    method AssembledWhole() returns (r: Result<seq<Byte>, ChunkError>)
      ensures r == if volume.None? then Err(NoActiveVolume) else AssembledComplete(volume.value)
    {
      if volume.None? { return Err(NoActiveVolume); }
      if volume.value.terminal.None? { return Err(VolumeIncomplete); }
      var contiguous := CountContiguous(volume.value.chunks);
      if contiguous != volume.value.terminal.value { return Err(VolumeIncomplete); }
      r := Assemble(volume.value, volume.value.terminal.value);
    }
  }
}
