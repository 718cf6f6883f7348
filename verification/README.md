# Mistr: verified models of its protocols, searches and data layouts

Mistr is a weather-radar viewer: a Rust backend (`src-tauri/src`) fetches, decodes and packs radar data, and a
TypeScript frontend (`src`) transfers, samples and draws it. This project models the parts of both where correctness
depends on several functions, several calls or a whole run, and proves what they are for. `dafny verify dfyconfig.toml`
checks everything.

Code that updates state in place is a class or a method over an array or a sequence, each proved against a function of
its inputs or old state; what the code promises is then proved about that function.

| module | models |
|---|---|
| `NationalHistory` | the bounded history of national frames: stage, reversible commit, finalize, rollback, byte budget |
| `HistoryProtocol` | the frontend's transaction over that store, with calls whose replies may be lost |
| `RotatedRing`, `SampledRing` | two searches for the newest volume in a rotated ring of slots: by halving, and by sampled rounds |
| `ChunkAssembly`, `SafeDecode` | assembling a live volume from chunks, and decoding its prefixes concurrently |
| `NumericPyramid` | reducing a grid of raw codes to coarser levels |
| `PackedGrid`, `WireBytes`, `ChunkRecords` | cutting a level into chunks with halos, and the bytes of a chunk record |
| `RetainedGrid`, `ChunkBatch` | keeping frames as bitmaps where they are empty, looking points up, sending chunks in batches |
| `GridSampling`, `GridEdges`, `NationalCoverage` | sampling for display, seams between chunks, the edges of a grid, and which chunks a view needs |
| `LeasePipeline`, `LatestOnlyQueue` | two small asynchronous protocols, as steps between suspensions |
| `SweepLayout`, `PackedSweep`, `SweepValidation`, `SweepFaults` | the PackedSweep v1 buffer: layout, encoding, validation, and how a fault is named |
| `Common`, `Arithmetic` | shared datatypes and division facts |

How the environment appears: a call over IPC does not execute, executes and loses its reply, or executes and is
answered; the script of such exchanges is an arbitrary finite sequence, and its end is the application's teardown.
Network requests, native threads and promises succeed or fail by a parameter or by an event of a step system. Pointer
identity is an `id` on frames and grids. SHA-256 is a function parameter of which only the digest length is known.
Floating-point numbers are exact reals where they are positions or weights, and 32-bit patterns in PackedSweep, whose
rules about them are function parameters.

## Findings

- A refused end chunk can break an assembler's volume: `ingest` records where the volume ends
  (`src-tauri/src/chunk_assembly.rs:387`) before it refuses the chunk for the volume's size (389-395).
  `EndsOversized` is the exact condition, tested before the call (`RefusedIngest`, `IngestKeepsValid`);
  `OversizedEndArises` is a run from a new assembler that meets it.
- Grouped decoding can differ from trying boundaries in turn (`src-tauri/src/live_pipeline.rs:637-653`): when a thread
  later in a group does not start, the group fails although an earlier boundary of it decodes. `TryGroups` gives the
  exact condition (`LateSpawnFailure`), `TrySafeSweeps` fixes the groups, `LateSpawnFailureArises` is an instance.
- West of the first cell centre, and north of it, a smooth sample repeats the mix of the first two columns, or rows,
  instead of holding the edge cell, because the lower index is clamped and the fraction is not
  (`src/national-radar/sampling.ts:76-81`); the comment there describes only ramps at echo boundaries. At a position
  the edge is held exactly where the first two columns blend alike (`WestEdge`, `NorthEdge`), and everywhere exactly
  where they show the same in each row (`WestIsHeld`, `NorthIsHeld`). `FadedEdge` is an instance drawn at half
  opacity. East and south the edge is always held.
- Ties can defeat both ring searches (`src-tauri/src/acquisition.rs:762-866`), each in its own way. A tie across the
  rotation point can make the halving search skip the newest slot: on a ring populated at both ends it finds a newest
  slot if and only if the first slot is newer than the last or nothing is newer than the last
  (`TiedSearchIsNewest`); with empty ends the same of the first and last populated slots suffices
  (`SparseSearchIsNewest`) but is not needed (`EmptyEndsTie`); on any ring it does if and only if it reaches one
  (`SearchedIsNewest`). `TieAcrossDrop` is a failing run. Ties inside a rise are harmless to it but not to the sampled
  search, which goes on after the first of the tied slots: that search finds a newest slot if and only if the first
  newest of the first-round slots is one already or every later first-round slot is older (`TiedSampledIsNewest`).
  `TieInRise` is a failing ring of 34 slots.
- The pipeline's last branch, which reports a failure met while draining after success, is unreachable:
  `NothingToDrain`.
- A rollback does not withdraw a detail shown for an observation while it was staged: it stays with the stage's
  rollback and is restored with the commit's (`StagedDetailSurvives`).

## Model

| member | source | states |
|---|---|---|
| NationalHistory.ReachableIsValid | src-tauri/src/national_history.rs:186-230 | in every reachable store retained frames are strictly chronological, of the owning generation, distinct by key and hash and within the limit; a stage and a journal never coexist; the total stays within 4 GiB |
| NationalHistory.StepKeepsValid | src-tauri/src/national_history.rs:282-572 | every command keeps that invariant, the byte budget included |
| NationalHistory.CommitKeepsTotal | src-tauri/src/national_history.rs:377-472 | a commit leaves the total as it was, an evicted frame moving to the journal's account; only a frame that evicts itself lowers it, by its own bytes |
| NationalHistory.CommitKeepsHistory | src-tauri/src/national_history.rs:405-455 | an accepted commit keeps the order, distinctness, ownership and limit of the retained frames |
| NationalHistory.CommitRetains | src-tauri/src/national_history.rs:405-472 | an accepted commit leaves the retained frames and the staged one, as many as the limit allows; at most one is missing, the oldest of them all, and it is the one evicted |
| NationalHistory.CommitAccepts | src-tauri/src/national_history.rs:377-461 | a commit is accepted if and only if it names the staged frame of the owning generation, no commit is open and the history with the frame in its place is chronological and distinct, and empty before a current one |
| NationalHistory.RefusalMeans | src-tauri/src/national_history.rs:377-458 | what each refusal of a commit says about the store |
| NationalHistory.CommitTakesCandidate | src-tauri/src/national_history.rs:430-448 | only a predecessor takes a backfill candidate, the first, and only if it is its own |
| NationalHistory.TotalCountsEachOnce | src-tauri/src/national_history.rs:282-355 | the total is the bytes of all frames and grids held, for the store or its journal, in any listing that names each once |
| NationalHistory.ReleaseFreesPyramid | src-tauri/src/national_history.rs:73-82 | releasing a held frame lowers the bytes by exactly its pyramid |
| NationalHistory.EvictionMovesBytes | src-tauri/src/national_history.rs:326-355 | with shared frames counted once, the evicted frame's bytes are exactly the journal's |
| NationalHistory.SplitByShare | src-tauri/src/national_history.rs:326-355 | a list's bytes never exceed those of another list and of what it does not share with it |
| NationalHistory.JournalSurvives | src-tauri/src/national_history.rs:377-572 | no run of other commands touches an open journal or its generation |
| NationalHistory.RollbackRestores | src-tauri/src/national_history.rs:535-572 | rolling back a commit restores retained frames, backfill candidates and detail exactly, whatever ran in between |
| NationalHistory.StagedDetailSurvives | src-tauri/src/national_history.rs:541-571 | a detail shown for a staged observation stays when the stage is rolled back, and comes back when its commit is, whatever ran in between |
| NationalHistory.RollbackLowersTotal | src-tauri/src/national_history.rs:535-572 | a rollback never raises the byte total |
| NationalHistory.FinalizeIsIdempotent | src-tauri/src/national_history.rs:474-533 | a repeated finalize of a sealed commit succeeds and changes nothing |
| NationalHistory.StagingAccepts | src-tauri/src/national_history.rs:357-375 | a frame is staged exactly when none is and the store stays valid with it, at the cost of its bytes; and which refusal it gets otherwise |
| NationalHistory.FinalizeAccepts | src-tauri/src/national_history.rs:474-533 | finalize succeeds exactly for the open commit, or with none open for the one sealed last, which is then sealed; and which refusal it gets otherwise |
| NationalHistory.FinalizeReleases | src-tauri/src/national_history.rs:507-532 | sealing releases the pyramids of all retained frames if the frame was appended to others, and none otherwise |
| NationalHistory.RollbackAccepts | src-tauri/src/national_history.rs:535-572 | rollback succeeds exactly for the staged frame, or with none staged for the open commit, and leaves neither; and which refusal it gets otherwise |
| NationalHistory.PresentingAccepts | src-tauri/src/national_history.rs:1161-1188 | a detail is shown exactly when its observation is staged or retained and the store stays valid with it; one that does not fit leaves none |
| NationalHistory.ResetHoldsNothing | src-tauri/src/national_history.rs:196-204 | after a reset nothing is held, found, or left to commit, seal or undo |
| NationalHistory.NationalHistoryStore.Reset | src-tauri/src/national_history.rs:196-204 | a new generation owns an empty store with the given candidates |
| NationalHistory.NationalHistoryStore.StageFrame | src-tauri/src/national_history.rs:357-375 | staging is refused, changing nothing, for a stale generation, a busy stage, an open journal or the budget; else only the stage changes |
| NationalHistory.NationalHistoryStore.CommitStaged | src-tauri/src/national_history.rs:377-472 | the in-place commit is the specified one: a refusal changes nothing, and the evicted observation is the oldest |
| NationalHistory.NationalHistoryStore.FinalizeCommit | src-tauri/src/national_history.rs:474-533 | sealing closes the journal, remembers the observation and releases exact pyramids only after an append |
| NationalHistory.NationalHistoryStore.RollbackMutation | src-tauri/src/national_history.rs:535-572 | the in-place rollback drops the stage or restores the journal; a mismatched identity changes nothing |
| NationalHistory.NationalHistoryStore.ShowDetail | src-tauri/src/national_history.rs:1161-1188 | a finished detail replaces the old one, and is dropped if it exceeds the budget |
| HistoryProtocol.ForeignKeepsPhase | src/App.tsx:2182-2281 | presentations keep where the backend stands in the transaction; a newer generation supersedes it |
| HistoryProtocol.CallMovesPhase | src/App.tsx:2054-2112 | what commit, finalize and rollback do to that standing for every delivery, and what each reply proves |
| HistoryProtocol.SnapshotProofs | src/App.tsx:4550-4564 | a snapshot shows a finalized observation only after sealing, and proves a rollback only when no trace is retained |
| HistoryProtocol.FinalizeUntilSettled | src/national-radar/NationalFinalizeLoop.ts:17-47 | settles only when sealed or superseded; one executed finalize seals; if torn down, no finalize was answered and none executed with a snapshot answered after it; waits follow the capped back-off |
| HistoryProtocol.RollbackUntilSettled | src/national-radar/NationalRollbackLoop.ts:21-68 | settles only when undone or superseded; one executed rollback undoes; if torn down, no executed rollback was followed by an answered snapshot |
| HistoryProtocol.FinalMeans | src/App.tsx:2182-2254 | the renderer becomes final exactly when nothing on the frontend's side stops it, the commit ran on a store that accepts it and its reply came |
| HistoryProtocol.WaitsAre | src/national-radar/NationalRollbackLoop.ts:26-46 | the waits between retries go one level up from 1 to 6 and stay there |
| HistoryProtocol.CommitNationalHistoryMutation | src/App.tsx:2182-2281 | for every pattern of lost calls and replies: a settled mutation was superseded or leaves renderer and backend in agreement; the renderer is final exactly when the commit was answered with success and the frontend went through with it; it is left unsettled only if no call of its retry loop got through, and then the backend is sealed, or undone, unless none of those calls ran; a sealed one is published if its paint arrives |
| HistoryProtocol.UndoneHasNoTrace | src/App.tsx:2255-2281 | agreement on failure means no stage, no journal and no retained frame of the observation |
| HistoryProtocol.SealedHoldsObservation | src/App.tsx:2214-2254 | agreement on success means exactly this observation is sealed, with no open journal |
| RotatedRing.NewestIsLinearScan | src-tauri/src/acquisition.rs:826-866 | with distinct values the newest slot is the one a scan of every slot finds |
| RotatedRing.RotationOfIncreasing | src-tauri/src/acquisition.rs:756-762 | every rotation of a strictly increasing sequence, empty slots among it, is a ring in the order assumed |
| RotatedRing.IncreasingOfRotation | src-tauri/src/acquisition.rs:756-762 | and every ring in that order is one |
| RotatedRing.SearchedIsNewest | src-tauri/src/acquisition.rs:826-866 | on any ring the halving search finds a newest slot if and only if it reaches one |
| RotatedRing.RotatedIsSearched | src-tauri/src/acquisition.rs:826-866 | it does on every ring whose values rise, ties included, to one strict drop, and on every one whose drop is a tie but has a newest slot after it |
| RotatedRing.FailsIfReached | src-tauri/src/acquisition.rs:826-884 | with failing requests it fails if and only if it reaches a slot whose request fails, and with the error of such a slot; else it finds what it would without failures |
| RotatedRing.TiedSearchIsNewest | src-tauri/src/acquisition.rs:853-857 | with ties across the drop too, a ring populated at both ends is searched correctly if and only if its first slot is newer than its last or nothing is newer than its last |
| RotatedRing.SparseSearchIsNewest | src-tauri/src/acquisition.rs:853-857 | with empty ends the same condition on the first and last populated slots suffices |
| RotatedRing.TieAcrossDrop | src-tauri/src/acquisition.rs:853-857 | a run that fails that way: the ring 3, 5, 3 is answered with its first slot |
| RotatedRing.CeilLog2IsExact | src-tauri/src/acquisition.rs:826-866 | the probe bound's logarithm is the least exponent covering the ring |
| RotatedRing.CachedProbe | src-tauri/src/acquisition.rs:868-884 | a slot is requested once and answered from the cache after that |
| RotatedRing.RotatedMax | src-tauri/src/acquisition.rs:826-866 | on every ring and every set of failing requests answers what the search specified does, so with the error of the first failing slot it comes to; without a failure that is a newest slot of every rotated ring, dense or sparse; on a dense rising ring of n slots it makes at most 2*ceil(log2 n) requests |
| SampledRing.SpreadPicks | src-tauri/src/acquisition.rs:814-824 | the picks are in order, include both ends and are exactly as many as allowed, none lost to duplicates |
| SampledRing.NewestPosition | src-tauri/src/acquisition.rs:803-812 | the newest probed slot, the first of equals |
| SampledRing.NarrowedRange | src-tauri/src/acquisition.rs:786-800 | a slot newer than all probed ones lies between the newest probed and the next probed slot |
| SampledRing.FirstRoundGaps | src-tauri/src/acquisition.rs:814-824 | on up to 1024 slots the first round leaves gaps of at most 32 |
| SampledRing.SecondRound | src-tauri/src/acquisition.rs:762-800 | once a gap is probed whole, the newest slot has no gap after it |
| SampledRing.SampledIsNewest | src-tauri/src/acquisition.rs:762-800 | where two rounds meet no failed request and no empty slot, the sampled search finds a newest slot if and only if one is among the slots of those rounds |
| SampledRing.TiedSampledIsNewest | src-tauri/src/acquisition.rs:786-812 | on rings that rise, ties included, to one strict drop that is so if and only if the first newest first-round slot is a newest slot or every later first-round slot is older |
| SampledRing.SampledFails | src-tauri/src/acquisition.rs:780-793 | the sampled search fails if and only if the first fault among the slots that decide is a failed request, or is an empty slot and the other search reaches a failing one |
| SampledRing.TieInRise | src-tauri/src/acquisition.rs:786-812 | a tied ring on which it does not, though the halving search does |
| SampledRing.SampledRotatedMax | src-tauri/src/acquisition.rs:762-800 | without a failure finds the slot a linear scan finds on every rotated ring; on any ring of up to 1024 slots the first newest slot of its two rounds, unless they meet a fault, and then the first fault's error or the halving search's answer; on dense rings of up to 1024 slots in at most two rounds and 64 requests |
| ChunkAssembly.IngestKeepsValid | src-tauri/src/chunk_assembly.rs:292-420 | an ingest keeps the volume's invariant (kinds, end, byte total, identity) if and only if it is not of an end chunk that would close the volume but does not fit it |
| ChunkAssembly.ValidVolumeAssembles | src-tauri/src/chunk_assembly.rs:469-546 | a contiguous prefix always assembles to its chunks in sequence, and a volume is complete exactly when its end and all before it are held |
| ChunkAssembly.RefusedIngest | src-tauri/src/chunk_assembly.rs:385-395 | a refused ingest changes nothing if and only if it is not of such an end chunk, which is always refused for size |
| ChunkAssembly.OversizedEndBreaksVolume | src-tauri/src/chunk_assembly.rs:385-395 | that refusal leaves a volume whose recorded end is not held |
| ChunkAssembly.OversizedEndArises | src-tauri/src/chunk_assembly.rs:385-395 | sixteen full chunks ingested by a new assembler leave no room for an end chunk |
| ChunkAssembly.PartArrives | src-tauri/src/chunk_assembly.rs:292-420 | a chunk of the volume, first or repeated, adds exactly itself |
| ChunkAssembly.RepeatIsDuplicate | src-tauri/src/chunk_assembly.rs:347-362 | a chunk of the volume delivered again is answered as a duplicate and changes nothing |
| ChunkAssembly.HeldIsCompared | src-tauri/src/chunk_assembly.rs:347-362 | a chunk for a sequence held is a duplicate if its kind and bytes are those held, and a conflict otherwise |
| ChunkAssembly.PartIsReported | src-tauri/src/chunk_assembly.rs:398-420 | a new chunk is accepted, and the answer says where the unbroken run ends, which chunk is awaited and whether all are held |
| ChunkAssembly.StartOpens | src-tauri/src/chunk_assembly.rs:314-342 | the start chunk of a newer volume opens it and names the volume it abandons unfinished |
| ChunkAssembly.StrayIsAnswered | src-tauri/src/chunk_assembly.rs:298-342 | a well-formed chunk of an older volume is late; every other stray is refused |
| ChunkAssembly.RefusalIsNamed | src-tauri/src/chunk_assembly.rs:298-342 | each refusal names the first thing wrong with a chunk, and exactly that |
| ChunkAssembly.PlaceIsChecked | src-tauri/src/chunk_assembly.rs:363-395 | a new chunk is refused exactly if it lies past the end, ends the volume before a chunk held or elsewhere than before, or does not fit |
| ChunkAssembly.StrayChangesNothing | src-tauri/src/chunk_assembly.rs:292-370 | chunks of older volumes and malformed ones change nothing |
| ChunkAssembly.DeliveryIsConfluent | src-tauri/src/chunk_assembly.rs:292-420 | every delivery order beginning with the start, with repeats and strays, ends complete with the in-sequence concatenation |
| ChunkAssembly.PartsAreAnswered | src-tauri/src/chunk_assembly.rs:292-420 | in every such delivery each chunk of the volume is answered without an error: as the volume opened, as accepted with what is then held, or as a duplicate if it came before |
| ChunkAssembly.AssemblyRefuses | src-tauri/src/chunk_assembly.rs:490-546 | assembling gives all the bytes of a prefix or an error, and which error |
| ChunkAssembly.CountContiguous | src-tauri/src/chunk_assembly.rs:173-182 | the length of the contiguous run from 1 |
| ChunkAssembly.Assemble | src-tauri/src/chunk_assembly.rs:525-546 | the chunks' bytes in sequence, or the error for a missing chunk or the byte bound |
| ChunkAssembly.ChunkAssembler.Ingest | src-tauri/src/chunk_assembly.rs:292-420 | the in-place ingest is the specified one in every branch, its error branches included |
| ChunkAssembly.ChunkAssembler.Cancel | src-tauri/src/chunk_assembly.rs:288-290 | afterwards every chunk of the assembler's generation is refused as cancelled and changes nothing |
| ChunkAssembly.ChunkAssembler.MarkSafeSweepPublished | src-tauri/src/chunk_assembly.rs:448-458 | publication is marked once per volume |
| ChunkAssembly.ChunkAssembler.AssembledThrough | src-tauri/src/chunk_assembly.rs:479-488 | assembles a prefix only as far as it is contiguous |
| ChunkAssembly.ChunkAssembler.AssembledWhole | src-tauri/src/chunk_assembly.rs:490-500 | assembles a volume only when it is complete |
| SafeDecode.CapturesShareOneBuffer | src-tauri/src/live_pipeline.rs:544-598 | whatever is delivered after it, a captured boundary's byte length slices its assembled prefix out of the one shared buffer |
| SafeDecode.LatestIsCaptured | src-tauri/src/live_pipeline.rs:544-598 | in every run from a new assembler the last captured boundary reaches as far as the contiguous prefix, and there is none exactly while that is empty |
| SafeDecode.LatestIsNewest | src-tauri/src/chunk_assembly.rs:502-509 | the time a boundary carries is the newest of its chunks |
| SafeDecode.GreedyIsBest | src-tauri/src/live_pipeline.rs:713-728 | the groups partition the boundaries in order into singletons or groups within budget, and no such partition has fewer |
| SafeDecode.ConcurrentDecodeGroups | src-tauri/src/live_pipeline.rs:713-728 | the accumulator loop computes those groups |
| SafeDecode.TryGroups | src-tauri/src/live_pipeline.rs:611-658 | grouped decodes end as trying in turn does if and only if no thread later in the deciding group fails to start, and with that failure otherwise; the count of results read agrees too if and only if, besides, a thread that ends the search by not starting is the first of its group, and else stops where that group starts |
| SafeDecode.InTurnMeans | src-tauri/src/live_pipeline.rs:741-765 | trying in turn passes over boundaries whose decode lacks the product or a whole sweep and ends at the first that is anything else, with its sweep or its failure |
| SafeDecode.LateSpawnFailureArises | src-tauri/src/live_pipeline.rs:637-653 | two small boundaries share a group: the first decodes, the second's thread does not start, and the failure is the answer |
| SafeDecode.AssembleForAll | src-tauri/src/live_pipeline.rs:611-640 | one buffer serves every boundary; the errors for a boundary past it are unreachable |
| SafeDecode.PublishSafeSweep | src-tauri/src/live_pipeline.rs:660-700 | a candidate is published at most once per volume, and refused for a stale generation or a superseded volume |
| SafeDecode.PublicationMeans | src-tauri/src/live_pipeline.rs:660-680 | a candidate is published if and only if its generation is current and its volume active and unpublished; each refusal says which is not so |
| SafeDecode.PublishedOnce | src-tauri/src/live_pipeline.rs:660-680 | no volume is published twice, whatever chunks are delivered in between |
| SafeDecode.TrySafeSweeps | src-tauri/src/live_pipeline.rs:611-700 | the sweep found is the one trying each captured prefix in turn gives, under the condition above for the groups the budget makes; its volume is the active one, so it is published if its generation is current and no other was |
| NumericPyramid.StrongestIsUnique | src-tauri/src/mrms.rs:806-853 | a block has one strongest code: largest measured, else missing, else no coverage |
| NumericPyramid.StrongestMeans | src-tauri/src/mrms.rs:806-853 | which code that is, in terms of the block's cells |
| NumericPyramid.ReduceCell | src-tauri/src/mrms.rs:820-848 | the reduced cell is the strongest code of its clipped 2x2 block |
| NumericPyramid.ReduceStrongestValid | src-tauri/src/mrms.rs:806-853 | the reduced grid has rounded-up dimensions and the strongest code of every block; fails exactly on an empty or misshapen grid |
| NumericPyramid.ReductionComposes | src-tauri/src/packed_grid.rs:95-113 | halving a level reduced by a factor reduces the base by twice it |
| NumericPyramid.FromDecoded | src-tauri/src/packed_grid.rs:79-125 | there is a level for each power of two up to the maximum and no other, each the base reduced by its factor |
| PackedGrid.TilesPartition | src-tauri/src/packed_grid.rs:486-504 | interiors cover an axis without overlap and halos hold every neighbour of an interior cell |
| PackedGrid.IndexOnGrid | src-tauri/src/packed_grid.rs:1173-1190 | the validator's coordinates are on the grid exactly for indices below the chunk count |
| PackedGrid.ChunkLevel | src-tauri/src/packed_grid.rs:469-523 | the chunks in index order, each with the geometry its index implies and the grid's codes over its halo; fails exactly on an empty, misshapen or oversized level |
| PackedGrid.ChunkHoldsCell | src-tauri/src/packed_grid.rs:1173-1213 | exactly one chunk has a cell in its interior |
| WireBytes.FieldsReadBack | src-tauri/src/packed_grid.rs:1265-1320 | fields written in order read back as written |
| WireBytes.TilesDetermine | src-tauri/src/packed_sweep.rs:260-487 | fields that lie side by side leave no byte undetermined |
| ChunkRecords.CodesReadBack | src-tauri/src/packed_grid.rs:704-713 | big-endian pairs read back as the codes |
| ChunkRecords.EncodeChunk | src-tauri/src/packed_grid.rs:654-743 | the bytes written in place are the record's header table, zeros where reserved, and the payload; fails exactly past the size limit |
| ChunkRecords.RecordParses | src/packed-grid/packedGrid.ts:236-320 | parsing a chunk's record gives back its frame, geometry, hash, flag and codes |
| ChunkRecords.ParsedIsRecord | src/packed-grid/packedGrid.ts:236-320 | only records parse: an accepted buffer is byte for byte the record of the well-formed chunk it gives back, under its flag, which only a chunk that draws nothing can carry |
| ChunkRecords.ParsesExactly | src/packed-grid/packedGrid.ts:236-320 | a buffer parses as a chunk and a flag if and only if it is that chunk's record with that flag |
| RetainedGrid.MarksNext | src-tauri/src/packed_grid.rs:415-434 | the bitmap marks exactly the missing cells read so far |
| RetainedGrid.FromCodes | src-tauri/src/packed_grid.rs:405-437 | the summary holds exactly the codes given, uniform exactly when they are all the same; fails exactly on a measured value |
| RetainedGrid.RawCodeOfRecord | src-tauri/src/packed_grid.rs:363-376 | both retained forms answer every cell, and every index past the end, as the record's own bytes do |
| RetainedGrid.RebuildsRecord | src-tauri/src/packed_grid.rs:346-360 | the rebuilt record is the original byte for byte if and only if it was kept whole or has an even length |
| RetainedGrid.KeptIsSmall | src-tauri/src/packed_grid.rs:389-466 | a chunk that draws nothing is kept in a sixteenth of its payload and a few bytes, any other in its record's |
| RetainedGrid.ChunkRecord | src-tauri/src/packed_grid.rs:346-360 | the loop rebuilds the header followed by a pair of bytes for each code |
| RetainedGrid.RetainChunk | src-tauri/src/packed_grid.rs:312-333 | a flagged chunk keeps its header and codes, another its bytes; fails exactly without a whole header or with a measured value |
| RetainedGrid.EncodeFrame | src-tauri/src/packed_grid.rs:226-269 | a level of a national pyramid encodes to one record and descriptor per chunk, and no check of those records fails; refused exactly without a generation, for a level not built and for one coarser than 16 |
| RetainedGrid.LevelCentres | src-tauri/src/packed_grid.rs:1122-1139 | a level's cell centres are midway between the first and last base centres of their blocks |
| RetainedGrid.DescriptorOfRecord | src-tauri/src/packed_grid.rs:714-743 | a descriptor gives its record's length and its payload's hash |
| RetainedGrid.Retain | src-tauri/src/packed_grid.rs:306-339 | a frame is retained record by record; fails exactly when a record cannot be |
| RetainedGrid.PrepareFrame | src-tauri/src/national_history.rs:1590-1612 | from a decoded grid through its pyramid and a level's records to the frame retained, for every maximum factor: valid, and that level's, which at factor 1 is the grid itself |
| RetainedGrid.FrameKeeps | src-tauri/src/packed_grid.rs:306-339 | an encoded frame can always be retained |
| RetainedGrid.RetainedRecords | src-tauri/src/packed_grid.rs:346-360 | every record of a retained frame is rebuilt as it was encoded |
| RetainedGrid.RetainedCell | src-tauri/src/national_history.rs:1410-1455 | the retained code at a row and column is the flat grid's |
| RetainedGrid.LookupsAgree | src-tauri/src/national_history.rs:1387-1484 | a native retained frame answers every point as the flat grid does, and its invalid-point branches are unreachable |
| RetainedGrid.PointsNeedNative | src-tauri/src/national_history.rs:1387-1402 | a retained frame refuses points if and only if it is not native |
| RetainedGrid.SentinelsMean | src/national-radar/sampling.ts:22-34 | a code measures nothing exactly when it would decode to -99 (missing) or -999 dBZ (no coverage) |
| RetainedGrid.CoveredPoints | src-tauri/src/national_history.rs:1722-1745 | a point is covered exactly when it is less than half a cell from the grid's centres on both axes |
| ChunkBatch.EncodeChunkBatch | src-tauri/src/national_history.rs:1302-1339 | encodes exactly 1 to 16 distinct indices without a fault, as the framed records in request order; else the first fault |
| ChunkBatch.FirstFaultMeans | src-tauri/src/national_history.rs:1313-1337 | the first fault is the first index without a record, or with an empty or oversized one |
| ChunkBatch.ParseGridChunkBatch | src/packed-grid/chunkBatch.ts:7-26 | the loop computes the recursive parse |
| ChunkBatch.BatchParses | src/packed-grid/chunkBatch.ts:7-26 | framed records of one generation parse to their chunks in order, with no trailing bytes |
| ChunkBatch.ParsedIsBatch | src/packed-grid/chunkBatch.ts:7-26 | only framed batches parse: an accepted buffer is the framing of the records it was parsed into |
| ChunkBatch.StrangerIsRefused | src/packed-grid/chunkBatch.ts:7-26 | framed records that parse are accepted exactly if their indices are those asked for and they share a generation; otherwise refused for identity |
| ChunkBatch.CutShortIsRefused | src/packed-grid/chunkBatch.ts:7-26 | no proper prefix of a batch is accepted: it is refused for its header, a length or a record, by where it is cut |
| ChunkBatch.TrailingIsRefused | src/packed-grid/chunkBatch.ts:7-26 | nothing may follow a batch |
| ChunkBatch.WrongCountIsRefused | src/packed-grid/chunkBatch.ts:7-26 | a batch of no records, more than 16 or another number than asked for is refused for its count |
| ChunkBatch.BatchRoundTrip | src-tauri/src/national_history.rs:1302-1339 | 1 to 16 chunks of a retained frame reach the receiver as they were cut, in request order |
| GridSampling.SampleNationalGrid | src/national-radar/sampling.ts:48-103 | samples every position of a well-shaped grid as specified; fails exactly on another |
| GridSampling.WeightsSumToOne | src/national-radar/sampling.ts:76-82 | the bilinear weights are non-negative and sum to one |
| GridSampling.SmoothIsAMean | src/national-radar/sampling.ts:83-98 | anywhere on a grid opacity lies in 0..1 and is positive exactly when a measured neighbour has weight; the value lies between the measured neighbours' |
| GridSampling.CentreIsExact | src/national-radar/sampling.ts:48-103 | at a cell's centre a smooth sample is the native one |
| GridSampling.AxisShifts | src-tauri/src/packed_grid.rs:486-504 | on one axis a tile's halo has the nearest and both neighbouring cells of every position in its footprint, clamped as the whole axis clamps them |
| GridSampling.HaloSees | src-tauri/src/packed_grid.rs:486-504 | everywhere within half a cell of its interior, edges included, a chunk's payload sees the same codes and fractions as the whole grid |
| GridSampling.NoSeams | src/national-radar/sampling.ts:48-103 | so throughout a chunk's footprint native and smooth samples of its payload are those of the whole grid |
| GridSampling.NothingDrawn | src-tauri/src/packed_grid.rs:1071-1075 | throughout the footprint of a chunk flagged as drawing nothing the whole grid paints nothing |
| GridSampling.FlagIsBlank | src-tauri/src/packed_grid.rs:1071-1075 | a chunk is flagged as drawing nothing if and only if the smooth sample of the grid paints nothing throughout its footprint |
| GridEdges.MixOfSides | src/national-radar/sampling.ts:82-96 | a smooth sample mixes its west and east sides, and as well its north and south sides |
| GridEdges.EdgeRepeats | src/national-radar/sampling.ts:76-81 | before the first centre the neighbours and fractions are those of one cell further |
| GridEdges.WestEdge | src/national-radar/sampling.ts:76-102 | less than a cell west of the first centre the smooth sample is the edge's if and only if the grid has one column or its first two blend to the same coverage and weighted codes there |
| GridEdges.NorthEdge | src/national-radar/sampling.ts:76-102 | the same north of the first centre, for the first two rows |
| GridEdges.WestIsHeld | src/national-radar/sampling.ts:76-102 | the whole west edge is held if and only if the first two columns have, in each row, the same code or both none measured |
| GridEdges.NorthIsHeld | src/national-radar/sampling.ts:76-102 | the same for the north edge and the first two rows |
| GridEdges.FadedEdge | src/national-radar/sampling.ts:76-102 | a grid whose edge cell is drawn at half opacity half a cell west of its centre |
| GridEdges.EastIsHeld | src/national-radar/sampling.ts:76-102 | east of the last centre every grid holds its edge |
| GridEdges.SouthIsHeld | src/national-radar/sampling.ts:76-102 | and south of it |
| NationalCoverage.NeededIsFilter | src/national-radar/coverage.ts:38-62 | the required chunks are exactly those that draw something and reach into the view, each once, in order |
| NationalCoverage.IntersectsIsShared | src/national-radar/coverage.ts:105-109 | the overlap test holds for proper rectangles exactly when they share a point |
| NationalCoverage.RequiredReaches | src/national-radar/coverage.ts:38-62 | a chunk is required if and only if it draws something and shares a point with both the view and the domain |
| NationalCoverage.ViewIsTaken | src/national-radar/coverage.ts:38-62 | a view is taken if and only if its version counts from one and it has points, all of them on the globe |
| NationalCoverage.CoverageSays | src/national-radar/coverage.ts:24-62 | the whole domain requires exactly the chunks that draw something; a coverage covers the domain, or the points of the view inside it |
| NationalCoverage.FlagIsExact | src-tauri/src/packed_grid.rs:1071-1075 | an encoded frame's descriptor is flagged if and only if no cell of the grid in the chunk's halo is measured, and if and only if the grid paints nothing over it |
| NationalCoverage.AssertCoverageMatchesManifest | src/national-radar/coverage.ts:65-84 | accepts exactly coverages with a version, proper bounds and distinct indices of the manifest, and returns their descriptors |
| NationalCoverage.CoverageMatches | src/national-radar/coverage.ts:24-84 | coverages made from a manifest satisfy the check on their indices |
| NationalCoverage.BoundsAreFootprint | src/national-radar/coverage.ts:86-109 | a chunk's geographic bounds are its interior's half-cell footprint |
| NationalCoverage.VisibleIsRequired | src/national-radar/coverage.ts:30-109 | every painted point of the view within the domain lies in a required chunk whose payload paints it the same |
| NationalCoverage.LookupIsSample | src-tauri/src/national_history.rs:1387-1484 | at every covered point a lookup and the display's native sample give the same code, status and value in dBZ, painted exactly when measured |
| LeasePipeline.StepHolds | src/packed-grid/transferPipeline.ts:4-48 | every event keeps the pipeline's invariant: order, credits, and one release per lease |
| LeasePipeline.TwoCredits | src/packed-grid/transferPipeline.ts:25-37 | at most two leases are requested and unreleased at any time |
| LeasePipeline.FinishedRun | src/packed-grid/transferPipeline.ts:4-48 | items are consumed in order, each once; at the end every acquired lease was released by exactly one call; success if and only if nothing failed, and then all items were consumed |
| LeasePipeline.NothingToDrain | src/packed-grid/transferPipeline.ts:38-47 | without a failure nothing is drained, so a drain failure is never the one reported |
| LeasePipeline.NeverStuck | src/packed-grid/transferPipeline.ts:4-48 | until it ends, something can happen |
| LeasePipeline.StepSpends | src/packed-grid/transferPipeline.ts:4-48 | every event uses up a step |
| LeasePipeline.RunIsBounded | src/packed-grid/transferPipeline.ts:4-48 | so every run is finite, with a bound from the number of items |
| LatestOnlyQueue.StepHolds | src/national-radar/LatestOnlyAsyncQueue.ts:30-91 | every step keeps the counters, the log of resolutions and the place of the newest request |
| LatestOnlyQueue.RunsAreSafe | src/national-radar/LatestOnlyAsyncQueue.ts:30-91 | at most one operation runs, each request is resolved at most once, enqueued = started + replaced + cancelled + pending, the pending request is the newest, and a queue at rest has nothing pending and has resolved all |
| LatestOnlyQueue.RunsCount | src/national-radar/LatestOnlyAsyncQueue.ts:30-91 | in every run exactly the executed requests that did not fail are answered with a result; the failed, replaced and cancelled ones resolve without |
| LatestOnlyQueue.SettleAnswers | src/national-radar/LatestOnlyAsyncQueue.ts:72-91 | a settled operation answers its own request if it succeeded, and nulls it and counts a failure if not |
| LatestOnlyQueue.WaitingIsNulled | src/national-radar/LatestOnlyAsyncQueue.ts:30-45 | an enqueue that finds a request waiting, and a cancel, resolve it with nothing, and no other step replaces or cancels one |
| LatestOnlyQueue.ComesToRest | src/national-radar/LatestOnlyAsyncQueue.ts:62-91 | while anything is pending or running one of the queue's own steps is due, and each brings it closer to rest |
| LatestOnlyQueue.LateRequestStarts | src/national-radar/LatestOnlyAsyncQueue.ts:62-70 | a request that arrives between a drain's end and its callback is started by that callback |
| LatestOnlyQueue.LatestOnlyAsyncQueue.Enqueue | src/national-radar/LatestOnlyAsyncQueue.ts:30-40 | replaces the pending request and starts a drain if none runs |
| LatestOnlyQueue.LatestOnlyAsyncQueue.CancelPending | src/national-radar/LatestOnlyAsyncQueue.ts:42-45 | resolves the pending request with nothing and clears it |
| LatestOnlyQueue.LatestOnlyAsyncQueue.Settle | src/national-radar/LatestOnlyAsyncQueue.ts:72-91 | resolves the running request, counts it, and takes the next or ends the drain |
| LatestOnlyQueue.LatestOnlyAsyncQueue.DrainCallback | src/national-radar/LatestOnlyAsyncQueue.ts:62-70 | leaves the queue idle, or starts what arrived meanwhile |
| SweepLayout.LayoutFits | src-tauri/src/packed_sweep.rs:138-170 | within the bounds the sections follow one another, 8-aligned, and the whole stays under 32 MiB |
| SweepLayout.RadialSectionReads | src-tauri/src/packed_sweep.rs:225-237 | the radial section holds radials exactly when it reads as them with zero reserved bytes |
| PackedSweep.BackTiled | src-tauri/src/packed_sweep.rs:146-160 | section table, sections and padding lie side by side and leave no byte out |
| PackedSweep.CarriesIsHas | src-tauri/src/packed_sweep.rs:260-487 | a buffer's tables hold a sweep exactly when every validated read gives that sweep's field |
| PackedSweep.CarrierIsUnique | src-tauri/src/packed_sweep.rs:260-487 | only one buffer carries a given sweep |
| SweepValidation.CheckGates | src-tauri/src/packed_sweep.rs:440-467 | one pass with a table of 16 values accepts exactly gates that obey the rules and whose categories mean one value each |
| SweepValidation.NormalizedMeans | src-tauri/src/packed_sweep.rs:554-648 | which sweeps are normalized: the header's rules, every radial's, every gate's, codes within their words |
| SweepValidation.GateMeans | src-tauri/src/packed_sweep.rs:489-553 | what each status of a gate means for its code and its value |
| SweepValidation.GatesMean | src-tauri/src/packed_sweep.rs:667-693 | gates hold exactly when each does and equal codes have equal values |
| SweepValidation.CodesDetermine | src-tauri/src/packed_sweep.rs:489-553 | the statuses of a sweep, and outside storm-relative velocity its values, follow from its codes |
| SweepValidation.ValidatePackedSweep | src-tauri/src/packed_sweep.rs:260-487 | accepts exactly the buffers every check passes, and reports the first check that fails: of the header, the hash, the radials, the gates |
| SweepValidation.EncodedIsAccepted | src-tauri/src/packed_sweep.rs:138-257 | the encoding of every normalized sweep is accepted and its fields read back unchanged |
| SweepValidation.AcceptedIsEncoded | src-tauri/src/packed_sweep.rs:260-487 | every accepted buffer is the encoding of the sweep it decodes to |
| SweepValidation.AcceptedIsCanonical | src-tauri/src/packed_sweep.rs:260-487 | two accepted buffers with equal fields are byte-equal |
| SweepValidation.EncodePackedSweep | src-tauri/src/packed_sweep.rs:138-257 | succeeds exactly for normalized sweeps of 8- or 16-bit words, so the size error is unreachable, and what it writes in place is accepted; faults of radials and gates are reported exactly for those |
| SweepFaults.SpoiltEnvelope | src-tauri/src/packed_sweep.rs:270-290 | a header whose magic, byte order, version or a length is changed, and nothing else, is refused for that |
| SweepFaults.LengthIsChecked | src-tauri/src/packed_sweep.rs:261-290 | a buffer cut short or added to is refused for its length |
| SweepFaults.SpoiltLabel | src-tauri/src/packed_sweep.rs:292-325 | changed flags, encodings and reserved bytes are refused for what they are |
| SweepFaults.ChangedLabel | src-tauri/src/packed_sweep.rs:296-331 | a changed product, source or site is refused unless the header then still holds |
| SweepFaults.SpoiltDimensions | src-tauri/src/packed_sweep.rs:333-350 | a changed dimension is always refused; a changed spacing only if it is zero |
| SweepFaults.ChangedNumber | src-tauri/src/packed_sweep.rs:352-368 | a changed coordinate, elevation or scale is refused exactly when its rule refuses it |
| SweepFaults.ChangedTime | src-tauri/src/packed_sweep.rs:369-374 | a changed time is refused exactly when something then ends before it starts |
| SweepFaults.SpoiltObservation | src-tauri/src/packed_sweep.rs:375-377 | a changed observation, or first half of the normalized hash, is refused |
| SweepFaults.SpoiltSection | src-tauri/src/packed_sweep.rs:379-409 | any change to a number of the section table is refused |
| SweepFaults.SpoiltPadding | src-tauri/src/packed_sweep.rs:410-413 | a changed byte past the header is refused exactly when it lies in no section |
| SweepFaults.SpoiltHash | src-tauri/src/packed_sweep.rs:415-418 | a changed wire hash does not match |
| SweepFaults.HashBinds | src-tauri/src/packed_sweep.rs:415-418 | different buffers with the same wire hash need a SHA-256 collision |

## Left out

- SampledRing.SampledRotatedMax: which of several failing requests is reported is not fixed on rings of more than 1024 slots; the provider's has at most 999.
- Delayed execution of a lost call: a call runs before the next one is made, or not at all.
- Generation clocks, cancellation tokens and the locks around the store: every command is atomic.
- Activity counters, wall-clock times and the lengths of waits beyond their level.
- Presentation of details and backfill discovery, beyond the one locked section that replaces the detail.
- NationalHistory.RollbackRestores: does not restore exact pyramids released by a presentation in between, as the source does not.
- HistoryProtocol.FinalizeUntilSettled: an observation that evicted itself never shows in a snapshot, so for it only a finalize reply that arrives ends the loop.
- Manifest records and their strings, hexadecimal hashes and JSON: only chunk records are modelled as bytes.
- RetainedGrid.FromCodes: a 64-bit word is the set of its bits, so shifts and masks are not modelled as arithmetic.
- RetainedGrid.LookupsAgree: coordinates and the grid's transform are exact reals, not 64-bit floats.
- RetainedGrid.EncodeFrame: the base grid is 7000 by 3500, as the decoder guarantees; the frame's manifest is not encoded or validated, and a level coarser than 16 is refused at once instead of after encoding it.
- ChunkBatch.ParseGridChunkBatch: the parser of one chunk is a parameter; `RecordParses` is about the actual one.
- Peak search, backfill loops, polling delays and the older presentation cache: small or single-branch.
- LeasePipeline.FinishedRun: which error is thrown when both consumption and release fail is not modelled.
- `waitForIdle` of the latest-only queue, and an `execute` that enqueues before it first suspends.
- The hash strings of a normalized sweep: hashes are given as 32 bytes, and the normalized hash as a field.
- Decoders (GRIB2, PNG, gzip, NEXRAD), HTTP, object listings, WebGL drawing and user interface state.
