// MGB1 batches: several chunk records in one transfer
// (src-tauri/src/national_history.rs, `encode_chunk_batch`; src/packed-grid/chunkBatch.ts).
module ChunkBatch {
  import opened Common
  import opened WireBytes
  import opened NumericPyramid
  import opened PackedGrid
  import opened ChunkRecords
  import opened RetainedGrid

  const BATCH_LIMIT: nat := 16
  const BATCH_MAGIC: nat := 0x4d47_4231  // "MGB1"

  // Records one after another, each behind its length.
  function Framed(records: seq<Bytes>): (b: Bytes) {
    if records == [] then [] else Big32(|records[0]|) + records[0] + Framed(records[1..])
  }

  lemma {:induction false} FramedEnd(records: seq<Bytes>, record: Bytes)
    ensures Framed(records + [record]) == Framed(records) + Big32(|record|) + record
  {
    if records == [] {
      assert Framed([record]) == Big32(|record|) + record + Framed([]);
    } else {
      FramedEnd(records[1..], record);
      assert (records + [record])[1..] == records[1..] + [record];
    }
  }

  function Batch(records: seq<Bytes>): (b: Bytes)
    ensures |b| >= 8
  {
    Big32(BATCH_MAGIC) + Big32(|records|) + Framed(records)
  }

  // ----- Encoding -----

  datatype TransferError = BatchInvalid | ChunkNotFound

  // The records of a frame, by index.
  type RecordSource = nat -> Option<Bytes>

  predicate FitsWire(record: Bytes) {
    1 <= |record| <= CHUNK_LIMIT
  }

  // What stops the record at an index from joining a batch.
  function Fault(source: RecordSource, index: nat): Option<TransferError> {
    if source(index).None? then Some(ChunkNotFound)
    else if !FitsWire(source(index).value) then Some(BatchInvalid)
    else None
  }

  function FirstFault(source: RecordSource, indices: seq<nat>): Option<TransferError>
  {
    if indices == [] then None
    else
      var before := FirstFault(source, indices[..|indices| - 1]);
      if before.Some? then before else Fault(source, indices[|indices| - 1])
  }

  lemma {:induction false} FaultStays(source: RecordSource, indices: seq<nat>, k: nat)
    requires k <= |indices| && FirstFault(source, indices[..k]).Some?
    ensures FirstFault(source, indices) == FirstFault(source, indices[..k])
  {
    if k == |indices| {
      assert indices[..k] == indices;
    } else {
      var shorter := indices[..|indices| - 1];
      assert shorter[..k] == indices[..k];
      FaultStays(source, shorter, k);
    }
  }

  lemma {:induction false} NoFault(source: RecordSource, indices: seq<nat>)
    ensures FirstFault(source, indices).None? <==>
            forall i :: 0 <= i < |indices| ==> Fault(source, indices[i]).None?
  {
    if indices != [] {
      var last := |indices| - 1;
      NoFault(source, indices[..last]);
      assert forall i :: 0 <= i < last ==> indices[..last][i] == indices[i];
    }
  }

  // The first index without a record is not found; the first whose record is
  // empty or over the limit makes the batch invalid; whichever comes first.
  lemma {:induction false} FirstFaultMeans(source: RecordSource, indices: seq<nat>)
    ensures match FirstFault(source, indices)
            case None => forall i :: 0 <= i < |indices| ==> Sendable(source(indices[i]))
            case Some(e) =>
              exists k :: 0 <= k < |indices| && !Sendable(source(indices[k]))
                          && (forall i :: 0 <= i < k ==> Sendable(source(indices[i])))
                          && e == if source(indices[k]).None? then ChunkNotFound else BatchInvalid
  {
    if indices != [] {
      var last := |indices| - 1;
      FirstFaultMeans(source, indices[..last]);
      assert forall i :: 0 <= i < last ==> indices[..last][i] == indices[i];
    }
  }

  predicate Sendable(record: Option<Bytes>) {
    record.Some? && record.value != [] && |record.value| <= CHUNK_LIMIT
  }

  // The records at a run of indices.
  function RecordsAt(source: RecordSource, indices: seq<nat>): (records: seq<Bytes>)
    requires forall i :: 0 <= i < |indices| ==> source(indices[i]).Some?
    ensures |records| == |indices|
  {
    seq(|indices|, i requires 0 <= i < |indices| => source(indices[i]).value)
  }

  // A batch is encoded exactly for 1 to 16 distinct indices without a fault; else the first fault is the error.
  method EncodeChunkBatch(source: RecordSource, indices: seq<nat>)
    returns (r: Result<Bytes, TransferError>)
    ensures if indices == [] || |indices| > 16 || !Distinct(indices) then r == Err(BatchInvalid)
            else if FirstFault(source, indices).Some? then r == Err(FirstFault(source, indices).value)
            else (forall i :: 0 <= i < |indices| ==> source(indices[i]).Some?)
                 && r == Ok(Batch(RecordsAt(source, indices)))
  {
    var distinct := AllDistinct(indices);
    if indices == [] || |indices| > BATCH_LIMIT || !distinct { return Err(BatchInvalid); }
    var bytes := Big32(BATCH_MAGIC) + Big32(|indices|);
    ghost var head, records: seq<Bytes> := bytes, [];
    for k := 0 to |indices|
      invariant FirstFault(source, indices[..k]).None?
      invariant bytes == head + Framed(records)
      invariant forall i :: 0 <= i < k ==> source(indices[i]).Some?
      invariant records == RecordsAt(source, indices[..k])
    {
      assert indices[..k + 1][..k] == indices[..k];
      if Fault(source, indices[k]).Some? { FaultStays(source, indices, k + 1); }
      var chunk := source(indices[k]);
      if chunk.None? { return Err(ChunkNotFound); }
      if |chunk.value| == 0 || |chunk.value| > CHUNK_LIMIT { return Err(BatchInvalid); }
      FramedEnd(records, chunk.value);
      bytes := bytes + Big32(|chunk.value|) + chunk.value;
      records := records + [chunk.value];
    }
    assert indices[..|indices|] == indices;
    r := Ok(bytes);
  }

  // Distinct exactly when the set of the indices has as many members.
  method AllDistinct(indices: seq<nat>) returns (distinct: bool)
    ensures distinct <==> Distinct(indices)
  {
    var seen: set<nat> := {};
    for i := 0 to |indices|
      invariant forall n :: n in seen <==> n in indices[..i]
      invariant Distinct(indices[..i])
    {
      if indices[i] in seen {
        assert exists k :: 0 <= k < i && indices[..i][k] == indices[i];
        return false;
      }
      assert indices[..i + 1] == indices[..i] + [indices[i]];
      seen := seen + {indices[i]};
    }
    assert indices[..|indices|] == indices;
    distinct := true;
  }

  // ----- Parsing -----

  datatype BatchError =
    | InvalidHeader | InvalidCount | TruncatedLength | InvalidLength | BadChunk(error: ParseError)
    | IdentityMismatch | TrailingBytes

  type ChunkParser = Bytes -> Result<ParsedChunk, ParseError>

  predicate SameGeneration(chunks: seq<ParsedChunk>, chunk: ParsedChunk) {
    chunks == [] || chunk.frame.generation == chunks[0].frame.generation
  }

  // The chunks from an offset on, after those already read.
  function ParseFrom(parse: ChunkParser, b: Bytes, offset: nat, indices: seq<nat>, chunks: seq<ParsedChunk>)
    : Result<seq<ParsedChunk>, BatchError>
    decreases |indices|
  {
    if indices == [] then if offset != |b| then Err(TrailingBytes) else Ok(chunks)
    else if offset + 4 > |b| then Err(TruncatedLength)
    else
      var length := BigAt32(b, offset);
      if length < 1 || length > CHUNK_LIMIT || offset + 4 + length > |b| then Err(InvalidLength)
      else
        var parsed := parse(b[offset + 4..offset + 4 + length]);
        if parsed.Err? then Err(BadChunk(parsed.error))
        else if parsed.value.geometry.index != indices[0] || !SameGeneration(chunks, parsed.value)
        then Err(IdentityMismatch)
        else ParseFrom(parse, b, offset + 4 + length, indices[1..], chunks + [parsed.value])
  }

  function ParseBatch(parse: ChunkParser, b: Bytes, indices: seq<nat>): Result<seq<ParsedChunk>, BatchError> {
    if |b| < 8 || BigAt32(b, 0) != BATCH_MAGIC then Err(InvalidHeader)
    else if BigAt32(b, 4) < 1 || BigAt32(b, 4) > BATCH_LIMIT || BigAt32(b, 4) != |indices| then Err(InvalidCount)
    else ParseFrom(parse, b, 8, indices, [])
  }

  method ParseGridChunkBatch(parse: ChunkParser, b: Bytes, indices: seq<nat>)
    returns (r: Result<seq<ParsedChunk>, BatchError>)
    ensures r == ParseBatch(parse, b, indices)
  {
    if |b| < 8 || BigAt32(b, 0) != BATCH_MAGIC { return Err(InvalidHeader); }
    var count := BigAt32(b, 4);
    if count < 1 || count > BATCH_LIMIT || count != |indices| { return Err(InvalidCount); }
    var offset: nat, chunks := 8, [];
    for i := 0 to count
      invariant ParseFrom(parse, b, offset, indices[i..], chunks) == ParseBatch(parse, b, indices)
    {
      if offset + 4 > |b| { return Err(TruncatedLength); }
      var length := BigAt32(b, offset);
      offset := offset + 4;
      if length < 1 || length > CHUNK_LIMIT || offset + length > |b| { return Err(InvalidLength); }
      var chunk := parse(b[offset..offset + length]);
      if chunk.Err? { return Err(BadChunk(chunk.error)); }
      if chunk.value.geometry.index != indices[i] || !SameGeneration(chunks, chunk.value) {
        return Err(IdentityMismatch);
      }
      assert indices[i..][1..] == indices[i + 1..];
      chunks := chunks + [chunk.value];
      offset := offset + length;
    }
    if offset != |b| { return Err(TrailingBytes); }
    r := Ok(chunks);
  }

  // ----- What is framed parses back, and nothing else parses -----

  // Each record parses to the chunk beside it, which has the index asked for.
  ghost predicate Parses(parse: ChunkParser, records: seq<Bytes>, indices: seq<nat>, chunks: seq<ParsedChunk>) {
    && |records| == |indices| == |chunks|
    && forall i :: 0 <= i < |records| ==> ParsesAs(parse, records[i], indices[i], chunks[i])
  }

  ghost predicate ParsesAs(parse: ChunkParser, record: Bytes, index: nat, chunk: ParsedChunk) {
    1 <= |record| <= CHUNK_LIMIT && parse(record) == Ok(chunk) && chunk.geometry.index == index
  }

  ghost predicate OneGeneration(chunks: seq<ParsedChunk>) {
    forall i, j :: 0 <= i < j < |chunks| ==> chunks[i].frame.generation == chunks[j].frame.generation
  }

  lemma FramedHead(b: Bytes, offset: nat, record: Bytes, rest: Bytes)
    requires offset <= |b| && b[offset..] == Big32(|record|) + record + rest && 1 <= |record| <= CHUNK_LIMIT
    ensures offset + 4 + |record| <= |b| && BigAt32(b, offset) == |record|
    ensures b[offset + 4..offset + 4 + |record|] == record && b[offset + 4 + |record|..] == rest
  {
    assert b[offset..offset + 4] == b[offset..][..4] == Big32(|record|);
    Big32Reads(b, offset, |record|);
    assert b[offset + 4..] == b[offset..][4..] == record + rest;
    assert b[offset + 4 + |record|..] == b[offset + 4..][|record|..];
    assert b[offset + 4..offset + 4 + |record|] == b[offset + 4..][..|record|];
  }

  lemma {:induction false} FramedParses(parse: ChunkParser, b: Bytes, offset: nat, records: seq<Bytes>,
                                        indices: seq<nat>, before: seq<ParsedChunk>, chunks: seq<ParsedChunk>)
    requires offset <= |b| && b[offset..] == Framed(records)
    requires Parses(parse, records, indices, chunks) && OneGeneration(before + chunks)
    ensures ParseFrom(parse, b, offset, indices, before) == Ok(before + chunks)
    decreases |records|
  {
    if records == [] {
      assert before + chunks == before;
    } else {
      var record, chunk := records[0], chunks[0];
      assert ParsesAs(parse, record, indices[0], chunk);
      FramedHead(b, offset, record, Framed(records[1..]));
      assert before + chunks == (before + [chunk]) + chunks[1..];
      assert before == [] || (before + chunks)[0] == before[0];
      assert (before + chunks)[|before|] == chunk;
      FramedParses(parse, b, offset + 4 + |record|, records[1..], indices[1..], before + [chunk], chunks[1..]);
    }
  }

  // A batch of records parses to their chunks, in the order of the request.
  lemma BatchParses(parse: ChunkParser, records: seq<Bytes>, indices: seq<nat>, chunks: seq<ParsedChunk>)
    requires 1 <= |records| <= BATCH_LIMIT && Parses(parse, records, indices, chunks) && OneGeneration(chunks)
    ensures ParseBatch(parse, Batch(records), indices) == Ok(chunks)
  {
    var b := Batch(records);
    assert b[0..4] == Big32(BATCH_MAGIC) && b[4..8] == Big32(|records|) && b[8..] == Framed(records);
    Big32Reads(b, 0, BATCH_MAGIC);
    Big32Reads(b, 4, |records|);
    assert [] + chunks == chunks;
    FramedParses(parse, b, 8, records, indices, [], chunks);
  }

  lemma {:induction false} ParsedIsFramed(parse: ChunkParser, b: Bytes, offset: nat, indices: seq<nat>,
                                          before: seq<ParsedChunk>)
    returns (records: seq<Bytes>, chunks: seq<ParsedChunk>)
    requires offset <= |b| && ParseFrom(parse, b, offset, indices, before).Ok?
    ensures b[offset..] == Framed(records) && Parses(parse, records, indices, chunks)
    ensures ParseFrom(parse, b, offset, indices, before).value == before + chunks
    decreases |indices|
  {
    if indices == [] {
      records, chunks := [], [];
    } else {
      var record, chunk := HeadOf(parse, b, offset, indices, before);
      var rest, parsed := ParsedIsFramed(parse, b, offset + 4 + |record|, indices[1..], before + [chunk]);
      FrameIsHead(b, offset, record, rest);
      ParsesMore(parse, rest, indices[1..], parsed, record, indices[0], chunk);
      records, chunks := [record] + rest, [chunk] + parsed;
      HeadJoins(indices, before, chunk, parsed);
    }
  }

  lemma HeadOf(parse: ChunkParser, b: Bytes, offset: nat, indices: seq<nat>, before: seq<ParsedChunk>)
    returns (record: Bytes, chunk: ParsedChunk)
    requires offset <= |b| && indices != [] && ParseFrom(parse, b, offset, indices, before).Ok?
    ensures offset + 4 + |record| <= |b| && BigAt32(b, offset) == |record|
    ensures record == b[offset + 4..offset + 4 + |record|]
    ensures ParsesAs(parse, record, indices[0], chunk)
    ensures ParseFrom(parse, b, offset, indices, before)
            == ParseFrom(parse, b, offset + 4 + |record|, indices[1..], before + [chunk])
  {
    record := b[offset + 4..offset + 4 + BigAt32(b, offset)];
    chunk := parse(record).value;
  }

  lemma HeadJoins(indices: seq<nat>, before: seq<ParsedChunk>, chunk: ParsedChunk, parsed: seq<ParsedChunk>)
    requires indices != []
    ensures indices == [indices[0]] + indices[1..]
    ensures before + [chunk] + parsed == before + ([chunk] + parsed)
  {
  }

  lemma FrameIsHead(b: Bytes, offset: nat, record: Bytes, rest: seq<Bytes>)
    requires offset + 4 + |record| <= |b| && BigAt32(b, offset) == |record|
    requires record == b[offset + 4..offset + 4 + |record|]
    requires b[offset + 4 + |record|..] == Framed(rest)
    ensures b[offset..] == Framed([record] + rest)
  {
    Big32IsCanonical(b, offset);
    assert b[offset..] == b[offset..offset + 4] + record + b[offset + 4 + |record|..];
    assert ([record] + rest)[1..] == rest;
  }

  lemma ParsesMore(parse: ChunkParser, records: seq<Bytes>, indices: seq<nat>, chunks: seq<ParsedChunk>,
                   record: Bytes, index: nat, chunk: ParsedChunk)
    requires Parses(parse, records, indices, chunks) && ParsesAs(parse, record, index, chunk)
    ensures Parses(parse, [record] + records, [index] + indices, [chunk] + chunks)
  {
  }

  // Only batches parse: an accepted buffer is the framing of records that parse to the chunks returned.
  lemma ParsedIsBatch(parse: ChunkParser, b: Bytes, indices: seq<nat>) returns (records: seq<Bytes>)
    requires ParseBatch(parse, b, indices).Ok?
    ensures 1 <= |records| <= 16 && b == Batch(records)
    ensures Parses(parse, records, indices, ParseBatch(parse, b, indices).value)
  {
    var chunks;
    records, chunks := ParsedIsFramed(parse, b, 8, indices, []);
    assert [] + chunks == chunks;
    Big32IsCanonical(b, 0);
    Big32IsCanonical(b, 4);
    assert b == b[0..4] + b[4..8] + b[8..];
  }

  // ----- What is refused, and how -----

  // Bytes after a batch's records are refused as such.
  lemma TrailingIsRefused(parse: ChunkParser, records: seq<Bytes>, indices: seq<nat>, chunks: seq<ParsedChunk>,
                          more: Bytes)
    requires 1 <= |records| <= BATCH_LIMIT && Parses(parse, records, indices, chunks) && OneGeneration(chunks)
    requires more != []
    ensures ParseBatch(parse, Batch(records) + more, indices) == Err(TrailingBytes)
  {
    var b := Batch(records) + more;
    HeaderReads(b, records, more);
    assert [] + chunks == chunks;
    FramedThenMore(parse, b, 8, records, indices, [], chunks, more);
  }

  lemma HeaderReads(b: Bytes, records: seq<Bytes>, more: Bytes)
    requires |records| < 0x1_0000_0000 && b == Batch(records) + more
    ensures |b| >= 8 && BigAt32(b, 0) == BATCH_MAGIC && BigAt32(b, 4) == |records| && b[8..] == Framed(records) + more
  {
    ThreeParts(b, Big32(BATCH_MAGIC), Big32(|records|), Framed(records), more);
    Big32Reads(b, 0, BATCH_MAGIC);
    Big32Reads(b, 4, |records|);
  }

  lemma ThreeParts(b: Bytes, magic: Bytes, count: Bytes, framed: Bytes, more: Bytes)
    requires |magic| == |count| == 4 && b == magic + count + framed + more
    ensures |b| >= 8 && b[0..4] == magic && b[4..8] == count && b[8..] == framed + more
  {
  }

  lemma {:induction false} FramedThenMore(parse: ChunkParser, b: Bytes, offset: nat, records: seq<Bytes>,
                                          indices: seq<nat>, before: seq<ParsedChunk>, chunks: seq<ParsedChunk>,
                                          more: Bytes)
    requires offset <= |b| && b[offset..] == Framed(records) + more && more != []
    requires Parses(parse, records, indices, chunks) && OneGeneration(before + chunks)
    ensures ParseFrom(parse, b, offset, indices, before) == Err(TrailingBytes)
    decreases |records|
  {
    if records != [] {
      var record, chunk := records[0], chunks[0];
      assert ParsesAs(parse, record, indices[0], chunk);
      assert b[offset..] == Big32(|record|) + record + (Framed(records[1..]) + more);
      FramedHead(b, offset, record, Framed(records[1..]) + more);
      ChunkJoins(before, chunks);
      FramedThenMore(parse, b, offset + 4 + |record|, records[1..], indices[1..], before + [chunk], chunks[1..], more);
    }
  }

  lemma ChunkJoins(before: seq<ParsedChunk>, chunks: seq<ParsedChunk>)
    requires chunks != [] && OneGeneration(before + chunks)
    ensures SameGeneration(before, chunks[0]) && before + chunks == (before + [chunks[0]]) + chunks[1..]
  {
    assert before == [] || (before + chunks)[0] == before[0];
    assert (before + chunks)[|before|] == chunks[0];
  }

  // A batch of no records, of more than 16, or of another number than asked for is refused for its count.
  lemma WrongCountIsRefused(parse: ChunkParser, records: seq<Bytes>, indices: seq<nat>)
    requires |records| < 0x1_0000_0000 && (records == [] || |records| > 16 || |records| != |indices|)
    ensures ParseBatch(parse, Batch(records), indices) == Err(InvalidCount)
  {
    assert Batch(records) + [] == Batch(records);
    HeaderReads(Batch(records), records, []);
  }

  // A batch cut short anywhere is refused: in its header, in a length, or in a record.
  lemma CutShortIsRefused(parse: ChunkParser, records: seq<Bytes>, indices: seq<nat>, chunks: seq<ParsedChunk>, n: nat)
    requires 1 <= |records| <= BATCH_LIMIT && Parses(parse, records, indices, chunks) && OneGeneration(chunks)
    requires n < |Batch(records)|
    ensures ParseBatch(parse, Batch(records)[..n], indices)
            == Err(if n < 8 then InvalidHeader
                   else if CutsLength(records, n - 8) then TruncatedLength
                   else InvalidLength)
  {
    if n >= 8 {
      var b := Batch(records)[..n];
      HeaderReads(Batch(records), records, []);
      assert b[0..4] == Batch(records)[0..4] && b[4..8] == Batch(records)[4..8];
      Big32Reads(b, 0, BATCH_MAGIC);
      Big32Reads(b, 4, |records|);
      assert b[8..] == Framed(records)[..n - 8];
      FramedCutShort(parse, b, 8, records, indices, [], chunks, n - 8);
    }
  }

  // Keeping this many bytes of framed records ends within one of their lengths.
  predicate CutsLength(records: seq<Bytes>, n: nat) {
    records != [] && (n < 4 || (n >= 4 + |records[0]| && CutsLength(records[1..], n - 4 - |records[0]|)))
  }

  lemma {:induction false} FramedCutShort(parse: ChunkParser, b: Bytes, offset: nat, records: seq<Bytes>,
                                          indices: seq<nat>, before: seq<ParsedChunk>, chunks: seq<ParsedChunk>, n: nat)
    requires offset <= |b| && n < |Framed(records)| && b[offset..] == Framed(records)[..n]
    requires Parses(parse, records, indices, chunks) && OneGeneration(before + chunks)
    ensures ParseFrom(parse, b, offset, indices, before)
            == Err(if CutsLength(records, n) then TruncatedLength else InvalidLength)
    decreases |records|
  {
    var record, chunk := records[0], chunks[0];
    assert ParsesAs(parse, record, indices[0], chunk);
    if n >= 4 {
      assert b[offset..offset + 4] == b[offset..][..4] == Big32(|record|);
      Big32Reads(b, offset, |record|);
      if n >= 4 + |record| {
        assert b[offset..] == Big32(|record|) + record + Framed(records[1..])[..n - 4 - |record|];
        FramedHead(b, offset, record, Framed(records[1..])[..n - 4 - |record|]);
        ChunkJoins(before, chunks);
        FramedCutShort(parse, b, offset + 4 + |record|, records[1..], indices[1..], before + [chunk], chunks[1..],
                       n - 4 - |record|);
      }
    }
  }

  // Records that parse, in one of which the index or the generation is not the
  // one asked for, are refused for their identity.
  lemma StrangerIsRefused(parse: ChunkParser, records: seq<Bytes>, chunks: seq<ParsedChunk>, indices: seq<nat>)
    requires 1 <= |records| <= BATCH_LIMIT && |indices| == |chunks| == |records|
    requires forall i :: 0 <= i < |records| ==> ParsesAs(parse, records[i], chunks[i].geometry.index, chunks[i])
    ensures ParseBatch(parse, Batch(records), indices)
            == if OneGeneration(chunks) && Indexed(chunks, indices) then Ok(chunks) else Err(IdentityMismatch)
  {
    HeaderReads(Batch(records) + [], records, []);
    assert Batch(records) + [] == Batch(records) && Framed(records) + [] == Framed(records) && [] + chunks == chunks;
    FramedStrangers(parse, Batch(records), 8, records, indices, [], chunks);
  }

  lemma {:induction false} FramedStrangers(parse: ChunkParser, b: Bytes, offset: nat, records: seq<Bytes>,
                                           indices: seq<nat>, before: seq<ParsedChunk>, chunks: seq<ParsedChunk>)
    requires offset <= |b| && b[offset..] == Framed(records) && |indices| == |chunks| == |records|
    requires forall i :: 0 <= i < |records| ==> ParsesAs(parse, records[i], chunks[i].geometry.index, chunks[i])
    requires OneGeneration(before)
    ensures ParseFrom(parse, b, offset, indices, before)
            == if OneGeneration(before + chunks) && Indexed(chunks, indices) then Ok(before + chunks)
               else Err(IdentityMismatch)
    decreases |records|
  {
    if records == [] {
      assert before + chunks == before;
    } else {
      var record, chunk := records[0], chunks[0];
      assert ParsesAs(parse, record, chunk.geometry.index, chunk);
      FramedHead(b, offset, record, Framed(records[1..]));
      assert before + chunks == (before + [chunk]) + chunks[1..];
      OneMore(before, chunk, chunks[1..]);
      IndexedMore(chunks, indices);
      if SameGeneration(before, chunk) && chunk.geometry.index == indices[0] {
        FramedStrangers(parse, b, offset + 4 + |record|, records[1..], indices[1..], before + [chunk], chunks[1..]);
      }
    }
  }

  // Each chunk has the index asked for.
  predicate Indexed(chunks: seq<ParsedChunk>, indices: seq<nat>)
    requires |chunks| == |indices|
  {
    forall i :: 0 <= i < |indices| ==> chunks[i].geometry.index == indices[i]
  }

  lemma IndexedMore(chunks: seq<ParsedChunk>, indices: seq<nat>)
    requires |chunks| == |indices| > 0
    ensures Indexed(chunks, indices) <==> chunks[0].geometry.index == indices[0] && Indexed(chunks[1..], indices[1..])
  {
    if chunks[0].geometry.index == indices[0] && Indexed(chunks[1..], indices[1..]) {
      forall i | 0 <= i < |indices| ensures chunks[i].geometry.index == indices[i] {
        assert i > 0 ==> chunks[1..][i - 1] == chunks[i] && indices[1..][i - 1] == indices[i];
      }
    }
  }

  lemma OneMore(before: seq<ParsedChunk>, chunk: ParsedChunk, rest: seq<ParsedChunk>)
    requires OneGeneration(before)
    ensures OneGeneration(before + [chunk]) <==> SameGeneration(before, chunk)
    ensures OneGeneration(before + [chunk] + rest) ==> SameGeneration(before, chunk)
  {
    var all := before + [chunk] + rest;
    assert all[|before|] == chunk && (before + [chunk])[|before|] == chunk;
    if before != [] { assert all[0] == before[0] && (before + [chunk])[0] == before[0]; }
    if SameGeneration(before, chunk) {
      forall i, j | 0 <= i < j < |before + [chunk]|
        ensures (before + [chunk])[i].frame.generation == (before + [chunk])[j].frame.generation
      {
        assert i == 0 || before[0].frame.generation == before[i].frame.generation;
      }
    }
  }

  // ----- From a retained frame to the receiver -----

  function RecordsOf(retained: RetainedFrame): RecordSource {
    (index: nat) => if index < |retained.chunks| && retained.chunks[index].Valid()
             then Some(RecordOf(retained.summary.encoding, retained.chunks[index])) else None
  }

  function Parser(sha: Digest): ChunkParser {
    b => ParseChunk(sha, b)
  }

  function Expected(sha: Digest, f: FrameIdentity, chunk: Chunk): ParsedChunk {
    ParsedChunk(f, chunk.geometry, HEADER_BYTES + 2 * |chunk.codes|, sha(Payload(chunk.codes)),
                DrawsNothing(chunk.codes), chunk.codes)
  }

  // The chunks a receiver should get for a run of indices.
  function ExpectedAt(sha: Digest, f: FrameIdentity, chunks: seq<Chunk>,
                      indices: seq<nat>): (expected: seq<ParsedChunk>)
    requires forall i :: 0 <= i < |indices| ==> indices[i] < |chunks|
    ensures |expected| == |indices|
  {
    seq(|indices|, i requires 0 <= i < |indices| => Expected(sha, f, chunks[indices[i]]))
  }

  ghost predicate Sends(parse: ChunkParser, source: RecordSource, index: nat, chunk: ParsedChunk) {
    source(index).Some? && ParsesAs(parse, source(index).value, index, chunk)
  }

  ghost predicate SendsAll(parse: ChunkParser, source: RecordSource, indices: seq<nat>, chunks: seq<ParsedChunk>) {
    |chunks| == |indices| && forall i :: 0 <= i < |indices| ==> Sends(parse, source, indices[i], chunks[i])
  }

  lemma RetainedSends(sha: Digest, f: FrameIdentity, g: Grid, chunks: seq<Chunk>, frame: Frame, retained: RetainedFrame,
                      i: nat)
    requires NationalFrame(f) && FrameOf(sha, f, g, chunks, frame) && KeepsFrame(frame, retained) && i < |chunks|
    ensures Sends(Parser(sha), RecordsOf(retained), i, Expected(sha, f, chunks[i]))
  {
    RetainedSource(sha, f, g, chunks, frame, retained, i);
    ChunkIsWellFormed(f, g, chunks, i);
    RecordSends(sha, f, chunks[i], RecordsOf(retained), i);
  }

  lemma RetainedSource(sha: Digest, f: FrameIdentity, g: Grid, chunks: seq<Chunk>, frame: Frame,
                       retained: RetainedFrame, i: nat)
    requires NationalFrame(f) && FrameOf(sha, f, g, chunks, frame) && KeepsFrame(frame, retained) && i < |chunks|
    ensures RecordsOf(retained)(i) == Some(Record(sha, f, chunks[i])) && chunks[i].geometry.index == i
  {
    RetainedRecords(sha, f, g, chunks, frame, retained, i);
  }

  lemma RecordSends(sha: Digest, f: FrameIdentity, chunk: Chunk, source: RecordSource, i: nat)
    requires IsDigest(sha) && WellFormed(f, chunk) && chunk.geometry.index == i
    requires source(i) == Some(Record(sha, f, chunk))
    ensures Sends(Parser(sha), source, i, Expected(sha, f, chunk))
  {
    RecordParses(sha, f, chunk);
  }

  lemma SourceParses(parse: ChunkParser, source: RecordSource, indices: seq<nat>, chunks: seq<ParsedChunk>)
    requires SendsAll(parse, source, indices, chunks)
    ensures forall i :: 0 <= i < |indices| ==> Fault(source, indices[i]).None?
    ensures forall i :: 0 <= i < |indices| ==> source(indices[i]).Some?
    ensures Parses(parse, RecordsAt(source, indices), indices, chunks)
  {
    forall i | 0 <= i < |indices| ensures Fault(source, indices[i]).None? && source(indices[i]).Some? {
      assert Sends(parse, source, indices[i], chunks[i]);
    }
  }

  // Records that all parse, from one generation, make a batch that parses to the same chunks.
  lemma SourceRoundTrip(parse: ChunkParser, source: RecordSource, indices: seq<nat>, chunks: seq<ParsedChunk>)
    requires 1 <= |indices| <= BATCH_LIMIT && OneGeneration(chunks)
    requires SendsAll(parse, source, indices, chunks)
    ensures FirstFault(source, indices).None? && forall i :: 0 <= i < |indices| ==> source(indices[i]).Some?
    ensures ParseBatch(parse, Batch(RecordsAt(source, indices)), indices) == Ok(chunks)
  {
    SourceParses(parse, source, indices, chunks);
    NoFault(source, indices);
    BatchParses(parse, RecordsAt(source, indices), indices, chunks);
  }

  lemma RetainedSendsAll(sha: Digest, f: FrameIdentity, g: Grid, chunks: seq<Chunk>, frame: Frame,
                         retained: RetainedFrame, indices: seq<nat>)
    requires NationalFrame(f) && FrameOf(sha, f, g, chunks, frame) && KeepsFrame(frame, retained)
    requires forall i :: 0 <= i < |indices| ==> indices[i] < |chunks|
    ensures SendsAll(Parser(sha), RecordsOf(retained), indices, ExpectedAt(sha, f, chunks, indices))
  {
    var expected, parse, source := ExpectedAt(sha, f, chunks, indices), Parser(sha), RecordsOf(retained);
    forall i | 0 <= i < |indices| ensures Sends(parse, source, indices[i], expected[i]) {
      RetainedSends(sha, f, g, chunks, frame, retained, indices[i]);
    }
  }

  lemma ExpectedGeneration(sha: Digest, f: FrameIdentity, chunks: seq<Chunk>, indices: seq<nat>)
    requires forall i :: 0 <= i < |indices| ==> indices[i] < |chunks|
    ensures OneGeneration(ExpectedAt(sha, f, chunks, indices))
  {
  }

  // Any 1 to 16 chunks of a retained frame reach the receiver as they were cut, in the order asked for.
  lemma BatchRoundTrip(sha: Digest, f: FrameIdentity, g: Grid, chunks: seq<Chunk>, frame: Frame,
                       retained: RetainedFrame, indices: seq<nat>)
    requires NationalFrame(f) && FrameOf(sha, f, g, chunks, frame) && KeepsFrame(frame, retained)
    requires 1 <= |indices| <= 16 && forall i :: 0 <= i < |indices| ==> indices[i] < |chunks|
    ensures FirstFault(RecordsOf(retained), indices).None?
    ensures forall i :: 0 <= i < |indices| ==> RecordsOf(retained)(indices[i]).Some?
    ensures ParseBatch(Parser(sha), Batch(RecordsAt(RecordsOf(retained), indices)), indices)
            == Ok(ExpectedAt(sha, f, chunks, indices))
  {
    RetainedSendsAll(sha, f, g, chunks, frame, retained, indices);
    ExpectedGeneration(sha, f, chunks, indices);
    SourceRoundTrip(Parser(sha), RecordsOf(retained), indices, ExpectedAt(sha, f, chunks, indices));
  }
}
