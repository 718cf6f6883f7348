// Frames as the backend keeps them: chunks that draw nothing as bitmaps, and
// points looked up in them (src-tauri/src/packed_grid.rs, `RetainedPackedGrid`;
// src-tauri/src/national_history.rs, `lookup_retained_point`).
module RetainedGrid {
  import opened Common
  import opened Arithmetic
  import opened WireBytes
  import opened NumericPyramid
  import opened PackedGrid
  import opened ChunkRecords

  // ----- Cells of a chunk that draws nothing -----

  // A 64-bit word, as the set of its bits that are set.
  type Word = set<nat>

  datatype EmptyCells =
    | Uniform(code: Code, count: nat)     // every cell holds this code
    | Missing(bits: seq<Word>, count: nat) // a bit per cell, set where it is missing
  {
    predicate Valid() {
      Missing? ==> |bits| == CeilDiv(count, 64)
    }

    function CodeOf(encoding: ValueEncoding, cell: nat): Option<Code>
      requires Valid()
    {
      if cell >= count then None
      else if Uniform? then Some(code)
      else if cell % 64 in bits[cell / 64] then Some(encoding.missing)
      else Some(encoding.noCoverage)
    }

    function Codes(encoding: ValueEncoding): (codes: seq<Code>)
      requires Valid()
      ensures |codes| == count
    {
      seq(count, i requires 0 <= i < count => CodeOf(encoding, i).value)
    }
  }

  predicate IsEmptyCode(encoding: ValueEncoding, code: Code) {
    code == encoding.missing || code == encoding.noCoverage
  }

  predicate AllEmpty(encoding: ValueEncoding, codes: seq<Code>) {
    forall i :: 0 <= i < |codes| ==> IsEmptyCode(encoding, codes[i])
  }

  predicate AllSame(codes: seq<Code>) {
    forall i :: 0 <= i < |codes| ==> codes[i] == codes[0]
  }

  // A bit for each cell read so far, set where it is missing, and none beyond.
  ghost predicate Marks(encoding: ValueEncoding, bits: seq<Word>, codes: seq<Code>) {
    && |bits| == CeilDiv(|codes|, 64)
    && (forall i: nat :: i < |codes| ==> (i % 64 in bits[i / 64] <==> codes[i] == encoding.missing))
    && (forall w: nat, p: nat :: w < |bits| && p in bits[w] ==> p < 64 && 64 * w + p < |codes|)
  }

  function Marked(bits: seq<Word>, count: nat, missing: bool): (r: seq<Word>)
    requires |bits| == CeilDiv(count, 64)
  {
    var room := if count % 64 == 0 then bits + [{}] else bits;
    if missing then room[|room| - 1 := room[|room| - 1] + {count % 64}] else room
  }

  lemma MarksNext(encoding: ValueEncoding, bits: seq<Word>, codes: seq<Code>, code: Code)
    requires Marks(encoding, bits, codes)
    ensures Marks(encoding, Marked(bits, |codes|, code == encoding.missing), codes + [code])
  {
    var n := |codes|;
    var next := Marked(bits, n, code == encoding.missing);
    assert |next| - 1 == n / 64;
    forall i: nat | i < n + 1 ensures i % 64 in next[i / 64] <==> (codes + [code])[i] == encoding.missing {
      if i < n {
        if i / 64 == n / 64 { assert i % 64 != n % 64; }
      } else if n % 64 != 0 && n % 64 in bits[n / 64] {
        assert false;
      }
    }
  }

  // What one pass over codes has gathered.
  ghost predicate Scanned(encoding: ValueEncoding, codes: seq<Code>, bits: seq<Word>, first: Option<Code>,
                          uniform: bool) {
    && AllEmpty(encoding, codes) && Marks(encoding, bits, codes)
    && first == (if codes == [] then None else Some(codes[0]))
    && (uniform <==> AllSame(codes))
  }

  lemma ScannedNext(encoding: ValueEncoding, codes: seq<Code>, bits: seq<Word>, first: Option<Code>, uniform: bool,
                    code: Code)
    requires Scanned(encoding, codes, bits, first, uniform) && IsEmptyCode(encoding, code)
    ensures var start := if first.None? then code else first.value;
            Scanned(encoding, codes + [code], Marked(bits, |codes|, code == encoding.missing), Some(start),
                    uniform && start == code)
  {
    MarksNext(encoding, bits, codes, code);
    assert AllSame(codes + [code]) <==> AllSame(codes) && (codes == [] || codes[0] == code) by {
      assert forall i :: 0 <= i < |codes| ==> (codes + [code])[i] == codes[i];
      assert (codes + [code])[|codes|] == code;
    }
  }

  function Summarised(bits: seq<Word>, first: Option<Code>, uniform: bool, count: nat): EmptyCells {
    if uniform && first.Some? then Uniform(first.value, count) else EmptyCells.Missing(bits, count)
  }

  lemma ScannedDone(encoding: ValueEncoding, codes: seq<Code>, bits: seq<Word>, first: Option<Code>, uniform: bool)
    requires Scanned(encoding, codes, bits, first, uniform)
    ensures var cells := Summarised(bits, first, uniform, |codes|);
            cells.Valid() && cells.Codes(encoding) == codes && (cells.Uniform? <==> codes != [] && AllSame(codes))
  {
    var cells := Summarised(bits, first, uniform, |codes|);
    forall i: nat | i < |codes| ensures cells.CodeOf(encoding, i) == Some(codes[i]) {
      assert IsEmptyCode(encoding, codes[i]);
    }
  }

  method Mark(bits: seq<Word>, count: nat, missing: bool) returns (r: seq<Word>)
    requires |bits| == CeilDiv(count, 64)
    ensures r == Marked(bits, count, missing)
  {
    r := bits;
    if count % 64 == 0 { r := r + [{}]; }
    if missing { r := r[|r| - 1 := r[|r| - 1] + {count % 64}]; }
  }

  // Summarises codes in one pass; a measured value among them is an error.
  method FromCodes(encoding: ValueEncoding, codes: seq<Code>) returns (r: Result<EmptyCells, PackedGridError>)
    ensures r.Err? <==> !AllEmpty(encoding, codes)
    ensures r.Ok? ==> r.value.Valid() && r.value.Codes(encoding) == codes
    ensures r.Ok? ==> (r.value.Uniform? <==> codes != [] && AllSame(codes))
  {
    var bits: seq<Word>, first: Option<Code>, uniform := [], None, true;
    for count := 0 to |codes|
      invariant Scanned(encoding, codes[..count], bits, first, uniform)
    {
      var code := codes[count];
      if !IsEmptyCode(encoding, code) { return Err(PackedGridError.InvalidChunk); }
      ScannedNext(encoding, codes[..count], bits, first, uniform, code);
      assert codes[..count + 1] == codes[..count] + [code];
      if first.None? { first := Some(code); }
      uniform := uniform && first.value == code;
      bits := Mark(bits, count, code == encoding.missing);
    }
    assert codes[..|codes|] == codes;
    ScannedDone(encoding, codes, bits, first, uniform);
    r := Ok(Summarised(bits, first, uniform, |codes|));
  }

  // ----- One retained chunk -----

  datatype RetainedChunk = Encoded(bytes: Bytes) | Empty(header: Bytes, cells: EmptyCells) {
    predicate Valid() {
      Empty? ==> |header| == HEADER_BYTES && cells.Valid()
    }

    // What the chunk holds at a cell of its halo, if it has that cell.
    function RawCode(encoding: ValueEncoding, cell: nat): Option<Code>
      requires Valid()
    {
      if Empty? then cells.CodeOf(encoding, cell)
      else if HEADER_BYTES + 2 * cell + 2 <= |bytes| then Some(BigAt16(bytes, HEADER_BYTES + 2 * cell))
      else None
    }
  }

  // A chunk is kept for a record: whole, or as its header and its codes.
  ghost predicate Keeps(encoding: ValueEncoding, record: Bytes, drawsNothing: bool, chunk: RetainedChunk) {
    && chunk.Valid()
    && if !drawsNothing then chunk == Encoded(record)
       else
         && chunk.Empty? && |record| >= HEADER_BYTES && chunk.header == record[..HEADER_BYTES]
         && chunk.cells.Codes(encoding) == CodesOf(record[HEADER_BYTES..])
  }

  method RetainChunk(encoding: ValueEncoding, record: Bytes, drawsNothing: bool)
    returns (r: Result<RetainedChunk, PackedGridError>)
    ensures r.Err? <==>
              drawsNothing && (|record| < HEADER_BYTES || !AllEmpty(encoding, CodesOf(record[HEADER_BYTES..])))
    ensures r.Ok? ==> Keeps(encoding, record, drawsNothing, r.value)
  {
    if !drawsNothing { return Ok(Encoded(record)); }
    if |record| < HEADER_BYTES { return Err(PackedGridError.InvalidChunk); }
    var cells := FromCodes(encoding, CodesOf(record[HEADER_BYTES..]));
    if cells.Err? { return Err(cells.error); }
    r := Ok(Empty(record[..HEADER_BYTES], cells.value));
  }

  // What a kept chunk takes.
  function RetainedBytes(chunk: RetainedChunk): nat {
    match chunk
    case Encoded(bytes) => |bytes|
    case Empty(_, Uniform(_, _)) => HEADER_BYTES + 2
    case Empty(_, Missing(bits, _)) => HEADER_BYTES + 8 * |bits|
  }

  // A chunk that draws nothing keeps a bit for each 16 of its payload.
  lemma KeptIsSmall(encoding: ValueEncoding, record: Bytes, drawsNothing: bool, chunk: RetainedChunk)
    requires Keeps(encoding, record, drawsNothing, chunk)
    ensures !drawsNothing ==> RetainedBytes(chunk) == |record|
    ensures drawsNothing ==> RetainedBytes(chunk) <= HEADER_BYTES + (|record| - HEADER_BYTES) / 16 + 8
  {
    if drawsNothing {
      assert |chunk.cells.Codes(encoding)| == |CodesOf(record[HEADER_BYTES..])| == (|record| - HEADER_BYTES) / 2;
      WordsFor(chunk.cells.count, |record| - HEADER_BYTES);
    }
  }

  lemma WordsFor(count: nat, payload: nat)
    requires count == payload / 2
    ensures 8 * CeilDiv(count, 64) <= payload / 16 + 8
  {
  }

  // Both forms answer every cell as the record itself does.
  lemma RawCodeOfRecord(encoding: ValueEncoding, record: Bytes, drawsNothing: bool, chunk: RetainedChunk, cell: nat)
    requires Keeps(encoding, record, drawsNothing, chunk)
    ensures chunk.RawCode(encoding, cell)
            == if HEADER_BYTES + 2 * cell + 2 <= |record| then Some(BigAt16(record, HEADER_BYTES + 2 * cell)) else None
  {
    if drawsNothing {
      var payload := record[HEADER_BYTES..];
      assert |CodesOf(payload)| == |payload| / 2;
      if 2 * cell + 2 <= |payload| {
        assert chunk.cells.Codes(encoding)[cell] == CodesOf(payload)[cell] == CodeAt(payload, cell);
        assert payload[2 * cell] == record[HEADER_BYTES + 2 * cell]
               && payload[2 * cell + 1] == record[HEADER_BYTES + 2 * cell + 1];
      }
    }
  }

  // The record a kept chunk stands for.
  function RecordOf(encoding: ValueEncoding, chunk: RetainedChunk): Bytes
    requires chunk.Valid()
  {
    if chunk.Encoded? then chunk.bytes else chunk.header + Payload(chunk.cells.Codes(encoding))
  }

  method ChunkRecord(encoding: ValueEncoding, chunk: RetainedChunk) returns (record: Bytes)
    requires chunk.Valid()
    ensures record == RecordOf(encoding, chunk)
  {
    if chunk.Encoded? { return chunk.bytes; }
    ghost var codes := chunk.cells.Codes(encoding);
    record := chunk.header;
    for cell := 0 to chunk.cells.count
      invariant record == chunk.header + Payload(codes[..cell])
    {
      PayloadNext(chunk.header, codes, cell);
      record := record + Big16(chunk.cells.CodeOf(encoding, cell).value);
    }
    assert codes[..chunk.cells.count] == codes;
  }

  lemma PayloadNext(front: Bytes, codes: seq<Code>, i: nat)
    requires i < |codes|
    ensures front + Payload(codes[..i]) + Big16(codes[i]) == front + Payload(codes[..i + 1])
  {
    assert codes[..i + 1][..i] == codes[..i];
  }

  // A kept chunk rebuilds its record byte for byte, unless it was given an odd
  // byte at the end of a chunk that draws nothing.
  lemma RebuildsRecord(encoding: ValueEncoding, record: Bytes, drawsNothing: bool, chunk: RetainedChunk)
    requires Keeps(encoding, record, drawsNothing, chunk)
    ensures RecordOf(encoding, chunk) == record <==> !drawsNothing || |record| % 2 == 0
  {
    if drawsNothing {
      var payload := record[HEADER_BYTES..];
      SameParity(|record|, |payload|);
      if |payload| % 2 == 0 {
        PayloadOfCodes(payload);
        assert record == record[..HEADER_BYTES] + payload;
      } else {
        assert |RecordOf(encoding, chunk)| == HEADER_BYTES + 2 * |CodesOf(payload)|;
      }
    }
  }

  lemma SameParity(record: nat, payload: nat)
    requires record == HEADER_BYTES + payload
    ensures record % 2 == payload % 2 && payload == 2 * (payload / 2) + payload % 2
  {
  }

  // ----- Frames -----

  // Where a level's cell centres lie: row 0 is the northernmost.
  datatype Transform = Transform(firstLongitude: real, firstLatitude: real, longitudeStep: real, latitudeStep: real)

  datatype Descriptor = Descriptor(geometry: Geometry, encodedLength: nat, hash: Bytes, drawsNothing: bool)

  datatype Summary = Summary(frame: FrameIdentity, transform: Transform, interior: nat, encoding: ValueEncoding,
                             chunks: seq<Descriptor>)

  datatype Frame = Frame(summary: Summary, records: seq<Bytes>)

  datatype RetainedFrame = RetainedFrame(summary: Summary, chunks: seq<RetainedChunk>) {
    ghost predicate Valid() {
      && (forall i :: 0 <= i < |chunks| ==> chunks[i].Valid())
      && (forall i :: 0 <= i < |summary.chunks| ==>
          summary.chunks[i].geometry.x.halo <= summary.chunks[i].geometry.x.interior
          && summary.chunks[i].geometry.y.halo <= summary.chunks[i].geometry.y.interior)
      && summary.transform.longitudeStep > 0.0 && summary.transform.latitudeStep > 0.0
    }
  }

  function DescriptorOf(sha: Digest, chunk: Chunk): Descriptor {
    Descriptor(chunk.geometry, HEADER_BYTES + 2 * |chunk.codes|, sha(Payload(chunk.codes)), DrawsNothing(chunk.codes))
  }

  // The frame holds a record and a descriptor for each chunk of a grid, in index order.
  ghost predicate FrameOf(sha: Digest, f: FrameIdentity, g: Grid, chunks: seq<Chunk>, frame: Frame)
    requires NationalFrame(f)
  {
    && IsDigest(sha) && LevelChunks(f, g, chunks)
    && frame.summary.frame == f && frame.summary.interior == CHUNK_INTERIOR
    && frame.summary.encoding == NATIONAL_ENCODING
    && |frame.records| == |chunks| && Encodes(sha, f, chunks, frame.records, frame.summary.chunks)
  }

  // ----- Encoding a level of the pyramid -----

  // The level's first cell centre is the centre of a factor x factor block of base cells.
  function TransformAt(base: Transform, factor: nat): (t: Transform)
    requires factor > 0
    ensures factor == 1 ==> t == base
  {
    Transform(base.firstLongitude + base.longitudeStep * (factor - 1) as real / 2.0,
              base.firstLatitude - base.latitudeStep * (factor - 1) as real / 2.0,
              base.longitudeStep * factor as real, base.latitudeStep * factor as real)
  }

  function Centre(first: real, step: real, i: nat): real {
    first + i as real * step
  }

  // A level's cell centre is midway between the first and the last base centres
  // of its block, on both axes.
  lemma LevelCentres(base: Transform, factor: nat, i: nat, last: nat)
    requires factor > 0 && last == factor * i + factor - 1
    ensures var t := TransformAt(base, factor);
            && 2.0 * Centre(t.firstLongitude, t.longitudeStep, i)
               == Centre(base.firstLongitude, base.longitudeStep, factor * i)
                  + Centre(base.firstLongitude, base.longitudeStep, last)
            && 2.0 * Centre(t.firstLatitude, -t.latitudeStep, i)
               == Centre(base.firstLatitude, -base.latitudeStep, factor * i)
                  + Centre(base.firstLatitude, -base.latitudeStep, last)
  {
    BlockCentre(base.longitudeStep, factor, i, last);
    BlockCentre(-base.latitudeStep, factor, i, last);
    assert (-base.latitudeStep) * factor as real == -(base.latitudeStep * factor as real);
  }

  lemma BlockCentre(step: real, factor: nat, i: nat, last: nat)
    requires factor > 0 && last == factor * i + factor - 1
    ensures i as real * (step * factor as real) == (factor * i) as real * step
    ensures last as real * step == (factor * i) as real * step + step * (factor - 1) as real
  {
    assert (factor * i) as real == factor as real * i as real;
    assert last as real == (factor * i) as real + (factor - 1) as real;
  }

  // The levels of a national grid, up to any factor.
  ghost predicate NationalPyramid(base: Grid, levels: map<nat, Grid>) {
    && base.width == NATIONAL_WIDTH && base.height == NATIONAL_HEIGHT && WellShaped(base)
    && exists below: nat :: LevelsBelow(NATIONAL_ENCODING, base, levels, below)
  }

  lemma SmallPowers(n: nat)
    requires IsPowerOfTwo(n) && n < 17
    ensures n in {1, 2, 4, 8, 16}
  {
    assert !IsPowerOfTwo(3) && !IsPowerOfTwo(5) && !IsPowerOfTwo(7) && !IsPowerOfTwo(9);
    if n % 2 == 0 && n > 1 { assert IsPowerOfTwo(n / 2); SmallPowers(n / 2); }
  }

  lemma LevelPresents(base: Grid, levels: map<nat, Grid>, factor: nat)
    requires NationalPyramid(base, levels) && factor in levels && factor <= 16
    ensures Presents(factor, levels[factor].width, levels[factor].height) && WellShaped(levels[factor])
    ensures 0 < levels[factor].width <= 7000 && 0 < levels[factor].height <= 3500
  {
    var below: nat :| LevelsBelow(NATIONAL_ENCODING, base, levels, below);
    SmallPowers(factor);
    assert ReducedBy(NATIONAL_ENCODING, base, factor, levels[factor]);
  }

  lemma ChunkIsWellFormed(f: FrameIdentity, g: Grid, chunks: seq<Chunk>, i: nat)
    requires NationalFrame(f) && LevelChunks(f, g, chunks) && i < |chunks|
    ensures WellFormed(f, chunks[i])
  {
    assert HaloOf(g, chunks[i]);
  }

  // The records and descriptors of the first chunks.
  ghost predicate Encodes(sha: Digest, f: FrameIdentity, chunks: seq<Chunk>, records: seq<Bytes>,
                          descriptors: seq<Descriptor>)
    requires NationalFrame(f) && IsDigest(sha)
  {
    && |records| == |descriptors| <= |chunks|
    && forall i :: 0 <= i < |records| ==> EncodedAs(sha, f, chunks[i], records[i], descriptors[i])
  }

  ghost predicate EncodedAs(sha: Digest, f: FrameIdentity, chunk: Chunk, record: Bytes, descriptor: Descriptor)
    requires NationalFrame(f) && IsDigest(sha)
  {
    record == Record(sha, f, chunk) && descriptor == DescriptorOf(sha, chunk)
  }

  // The chunks of a national level, each well formed.
  ghost predicate LevelChunks(f: FrameIdentity, g: Grid, chunks: seq<Chunk>) {
    && WellShaped(g) && g.width == f.width > 0 && g.height == f.height > 0
    && ChunksOf(g, chunks) && |chunks| == ChunkCount(f.width, f.height)
  }

  method EncodeOne(sha: Digest, f: FrameIdentity, chunk: Chunk) returns (record: Bytes, descriptor: Descriptor)
    requires IsDigest(sha) && WellFormed(f, chunk)
    ensures EncodedAs(sha, f, chunk, record, descriptor)
  {
    NationalBounds(f, chunk);
    var r := EncodeChunk(sha, f, chunk);
    if r.Err? { assert false; }
    record, descriptor := r.value, DescriptorOf(sha, chunk);
  }

  method EncodeChunks(sha: Digest, f: FrameIdentity, ghost g: Grid, chunks: seq<Chunk>)
    returns (records: seq<Bytes>, descriptors: seq<Descriptor>)
    requires IsDigest(sha) && NationalFrame(f) && LevelChunks(f, g, chunks)
    ensures |records| == |chunks| && Encodes(sha, f, chunks, records, descriptors)
  {
    records, descriptors := [], [];
    for i := 0 to |chunks|
      invariant |records| == i && Encodes(sha, f, chunks, records, descriptors)
    {
      ChunkIsWellFormed(f, g, chunks, i);
      var record, descriptor := EncodeOne(sha, f, chunks[i]);
      records, descriptors := records + [record], descriptors + [descriptor];
    }
  }

  // Every record is parsed again and compared with the frame and its descriptor: no comparison fails.
  method ValidateRecords(sha: Digest, f: FrameIdentity, ghost g: Grid, ghost chunks: seq<Chunk>,
                         records: seq<Bytes>, descriptors: seq<Descriptor>)
    returns (valid: bool)
    requires IsDigest(sha) && NationalFrame(f) && LevelChunks(f, g, chunks)
    requires |records| == |chunks| && Encodes(sha, f, chunks, records, descriptors)
    ensures valid
  {
    valid := true;
    for i := 0 to |records|
      invariant valid
    {
      ChunkIsWellFormed(f, g, chunks, i);
      RecordParses(sha, f, chunks[i]);
      var parsed := ParseChunk(sha, records[i]);
      valid := valid && parsed.Ok? && parsed.value.frame == f
               && descriptors[i] == Descriptor(parsed.value.geometry, parsed.value.encodedLength, parsed.value.hash,
                                               parsed.value.empty);
    }
  }

  // A level of the national pyramid encodes into the frame of its grid; one coarser than 16 is refused.
  method EncodeFrame(sha: Digest, generation: nat, time: int, content: Bytes, transform: Transform,
                     ghost base: Grid, levels: map<nat, Grid>, factor: nat)
    returns (r: Result<Frame, PackedGridError>, ghost f: FrameIdentity, ghost chunks: seq<Chunk>)
    requires IsDigest(sha) && generation < TWO_64 && 0 < time < TWO_63 && |content| == 32
    requires NationalPyramid(base, levels)
    ensures r.Ok? <==> generation > 0 && factor in levels && factor <= 16
    ensures r.Ok? ==> f == FrameIdentity(generation, time, content, factor, levels[factor].width, levels[factor].height)
    ensures r.Ok? ==> NationalFrame(f) && FrameOf(sha, f, levels[factor], chunks, r.value)
    ensures r.Ok? ==> r.value.summary.transform == TransformAt(transform, factor)
  {
    f, chunks := FrameIdentity(generation, time, content, factor, 0, 0), [];
    if generation == 0 { return Err(Bounds), f, chunks; }
    if factor !in levels { return Err(PackedGridError.InvalidLevel), f, chunks; }
    // The source encodes a coarser level as well and then refuses it when it validates the result.
    if factor > 16 { return Err(PackedGridError.InvalidChunk), f, chunks; }
    LevelPresents(base, levels, factor);
    var level := levels[factor];
    var identity := FrameIdentity(generation, time, content, factor, level.width, level.height);
    var cut := ChunkLevel(level);
    if cut.Err? { assert false; }
    f, chunks := identity, cut.value;
    var records, descriptors := EncodeChunks(sha, identity, level, cut.value);
    var valid := ValidateRecords(sha, identity, level, cut.value, records, descriptors);
    if !valid { assert false; }
    r := Ok(Frame(Summary(identity, TransformAt(transform, factor), CHUNK_INTERIOR, NATIONAL_ENCODING, descriptors),
                  records));
  }

  // ----- Retaining -----

  ghost predicate KeepsFrame(frame: Frame, retained: RetainedFrame) {
    && retained.summary == frame.summary && |retained.chunks| == |frame.records| == |frame.summary.chunks|
    && forall i :: 0 <= i < |frame.records| ==>
                     Keeps(frame.summary.encoding, frame.records[i], frame.summary.chunks[i].drawsNothing,
                           retained.chunks[i])
  }

  // A record can be kept unless it is flagged and holds a measured value or no whole header.
  predicate Keepable(encoding: ValueEncoding, record: Bytes, drawsNothing: bool) {
    drawsNothing ==> |record| >= HEADER_BYTES && AllEmpty(encoding, CodesOf(record[HEADER_BYTES..]))
  }

  ghost predicate KeepableFrame(frame: Frame) {
    && |frame.records| == |frame.summary.chunks|
    && forall i :: 0 <= i < |frame.records| ==>
                     Keepable(frame.summary.encoding, frame.records[i], frame.summary.chunks[i].drawsNothing)
  }

  method Retain(frame: Frame) returns (r: Result<RetainedFrame, PackedGridError>)
    requires |frame.records| == |frame.summary.chunks|
    ensures r.Ok? <==> KeepableFrame(frame)
    ensures r.Ok? ==> KeepsFrame(frame, r.value)
  {
    var kept: seq<RetainedChunk> := [];
    for i := 0 to |frame.records|
      invariant |kept| == i
      invariant forall k :: 0 <= k < i ==>
                  Keepable(frame.summary.encoding, frame.records[k], frame.summary.chunks[k].drawsNothing)
      invariant forall k :: 0 <= k < i ==>
                  Keeps(frame.summary.encoding, frame.records[k], frame.summary.chunks[k].drawsNothing, kept[k])
    {
      var chunk := RetainChunk(frame.summary.encoding, frame.records[i], frame.summary.chunks[i].drawsNothing);
      if chunk.Err? { return Err(chunk.error); }
      kept := kept + [chunk.value];
    }
    r := Ok(RetainedFrame(frame.summary, kept));
  }

  lemma RecordKeeps(sha: Digest, f: FrameIdentity, chunk: Chunk)
    requires IsDigest(sha) && NationalFrame(f)
    ensures Keepable(NATIONAL_ENCODING, Record(sha, f, chunk), DrawsNothing(chunk.codes))
  {
    assert Record(sha, f, chunk)[HEADER_BYTES..] == Payload(chunk.codes);
    CodesReadBack(chunk.codes);
  }

  // An encoded frame can always be retained.
  lemma FrameKeeps(sha: Digest, f: FrameIdentity, g: Grid, chunks: seq<Chunk>, frame: Frame)
    requires NationalFrame(f) && FrameOf(sha, f, g, chunks, frame)
    ensures KeepableFrame(frame)
  {
    forall i | 0 <= i < |frame.records|
      ensures Keepable(frame.summary.encoding, frame.records[i], frame.summary.chunks[i].drawsNothing)
    {
      RecordKeeps(sha, f, chunks[i]);
    }
  }

  lemma FrameRecord(sha: Digest, f: FrameIdentity, g: Grid, chunks: seq<Chunk>, frame: Frame, i: nat)
    requires NationalFrame(f) && FrameOf(sha, f, g, chunks, frame) && i < |chunks|
    ensures frame.summary.encoding == NATIONAL_ENCODING && frame.records[i] == Record(sha, f, chunks[i])
    ensures frame.summary.chunks[i].drawsNothing == DrawsNothing(chunks[i].codes)
    ensures frame.summary.chunks[i].geometry == chunks[i].geometry
  {
  }

  // A descriptor gives the length of its record and the hash of the record's payload.
  lemma DescriptorOfRecord(sha: Digest, f: FrameIdentity, g: Grid, chunks: seq<Chunk>, frame: Frame, i: nat)
    requires NationalFrame(f) && FrameOf(sha, f, g, chunks, frame) && i < |chunks|
    ensures frame.summary.chunks[i].encodedLength == |frame.records[i]| == HEADER_BYTES + 2 * |chunks[i].codes|
    ensures frame.summary.chunks[i].hash == sha(frame.records[i][HEADER_BYTES..])
  {
    assert EncodedAs(sha, f, chunks[i], frame.records[i], frame.summary.chunks[i]);
    assert Record(sha, f, chunks[i])[HEADER_BYTES..] == Payload(chunks[i].codes);
  }

  lemma KeptRecord(record: Bytes, n: nat, drawsNothing: bool, kept: RetainedChunk)
    requires |record| == HEADER_BYTES + 2 * n && Keeps(NATIONAL_ENCODING, record, drawsNothing, kept)
    ensures RecordOf(NATIONAL_ENCODING, kept) == record
  {
    EvenTwice(|record|, HEADER_BYTES / 2 + n);
    RebuildsRecord(NATIONAL_ENCODING, record, drawsNothing, kept);
  }

  // Every record of a retained frame is rebuilt byte for byte.
  lemma RetainedRecords(sha: Digest, f: FrameIdentity, g: Grid, chunks: seq<Chunk>, frame: Frame,
                        retained: RetainedFrame, i: nat)
    requires NationalFrame(f) && FrameOf(sha, f, g, chunks, frame) && KeepsFrame(frame, retained) && i < |chunks|
    ensures RecordOf(NATIONAL_ENCODING, retained.chunks[i]) == Record(sha, f, chunks[i])
  {
    FrameRecord(sha, f, g, chunks, frame, i);
    KeptRecord(frame.records[i], |chunks[i].codes|, frame.summary.chunks[i].drawsNothing, retained.chunks[i]);
  }

  // ----- From a decoded grid to a retained frame -----

  lemma KeptFrameIsValid(sha: Digest, f: FrameIdentity, g: Grid, chunks: seq<Chunk>, frame: Frame,
                         retained: RetainedFrame)
    requires NationalFrame(f) && FrameOf(sha, f, g, chunks, frame) && KeepsFrame(frame, retained)
    requires frame.summary.transform.longitudeStep > 0.0 && frame.summary.transform.latitudeStep > 0.0
    ensures retained.Valid()
  {
    forall i | 0 <= i < |frame.summary.chunks|
      ensures frame.summary.chunks[i].geometry.x.halo <= frame.summary.chunks[i].geometry.x.interior
              && frame.summary.chunks[i].geometry.y.halo <= frame.summary.chunks[i].geometry.y.interior
    {
      FrameRecord(sha, f, g, chunks, frame, i);
      assert chunks[i].geometry == GeometryAt(g.width, g.height, i);
    }
  }

  lemma StepsStayPositive(base: Transform, factor: nat)
    requires factor > 0 && base.longitudeStep > 0.0 && base.latitudeStep > 0.0
    ensures TransformAt(base, factor).longitudeStep > 0.0 && TransformAt(base, factor).latitudeStep > 0.0
  {
  }

  // Preparing a frame of a decoded national grid for the history: its levels,
  // the records of one of them, and their retained form. It succeeds exactly
  // for a level the pyramid has, of at most 16, and the frame retained is that
  // level's; the native level is the decoded grid itself.
  method PrepareFrame(sha: Digest, generation: nat, time: int, content: Bytes, transform: Transform, base: Grid,
                      maxFactor: Code, factor: nat)
    returns (r: Result<RetainedFrame, PackedGridError>, ghost f: FrameIdentity, ghost level: Grid,
             ghost chunks: seq<Chunk>,
             ghost frame: Frame)
    requires IsDigest(sha) && generation < TWO_64 && 0 < time < TWO_63 && |content| == 32
    requires base.width == NATIONAL_WIDTH && base.height == NATIONAL_HEIGHT && WellShaped(base)
    requires transform.longitudeStep > 0.0 && transform.latitudeStep > 0.0
    ensures r.Ok? <==>
              generation > 0 && IsPowerOfTwo(maxFactor) && IsPowerOfTwo(factor) && factor <= maxFactor && factor <= 16
    ensures r.Ok? ==> r.value.Valid() && r.value.summary == frame.summary && frame.summary.frame == f
    ensures r.Ok? ==> f.generation == generation && f.time == time && f.content == content && f.factor == factor
    ensures r.Ok? ==> NationalFrame(f) && FrameOf(sha, f, level, chunks, frame) && KeepsFrame(frame, r.value)
    ensures r.Ok? ==> ReducedBy(NATIONAL_ENCODING, base, factor, level) && (factor == 1 ==> level == base)
    ensures r.Ok? ==> frame.summary.transform == TransformAt(transform, factor)
  {
    f, level, chunks := FrameIdentity(generation, time, content, factor, 0, 0), base, [];
    frame := Frame(Summary(f, transform, 0, NATIONAL_ENCODING, []), []);
    var pyramid := FromDecoded(NATIONAL_ENCODING, base, maxFactor);
    if pyramid.Err? { return Err(PackedGridError.InvalidLevel), f, level, chunks, frame; }
    assert LevelsBelow(NATIONAL_ENCODING, base, pyramid.value, maxFactor + 1);
    var encoded;
    encoded, f, chunks := EncodeFrame(sha, generation, time, content, transform, base, pyramid.value, factor);
    if encoded.Err? { return Err(encoded.error), f, level, chunks, frame; }
    level, frame := pyramid.value[factor], encoded.value;
    if factor == 1 { NativeIsBase(NATIONAL_ENCODING, base, level); }
    FrameKeeps(sha, f, level, chunks, frame);
    var kept := Retain(encoded.value);
    if kept.Err? { assert false; }
    StepsStayPositive(transform, factor);
    KeptFrameIsValid(sha, f, level, chunks, frame, kept.value);
    r := Ok(kept.value);
  }

  // A grid reduced by 1 is the grid.
  lemma NativeIsBase(encoding: ValueEncoding, base: Grid, level: Grid)
    requires ReducedBy(encoding, base, 1, level)
    ensures level == base
  {
    forall i | 0 <= i < |base.codes| ensures level.codes[i] == base.codes[i] {
      var x, y := i % base.width, i / base.width;
      CellOfIndex(base, i);
      CellOfIndex(level, i);
      assert StrongestInBlock(encoding, base, 1, x, y, Cell(level, x, y));
    }
  }

  // ----- Looking a point up -----

  datatype Lookup =
    | Found(row: nat, column: nat, raw: Code, status: Status, value: Option<real>)
    | OutsideCoverage
    | PointInvalid

  // Rounds half away from zero.
  function Round(x: real): int {
    if x >= 0.0 then (x + 0.5).Floor else -((0.5 - x).Floor)
  }

  lemma RoundInRange(x: real, n: nat)
    ensures 0 <= Round(x) < n <==> -0.5 < x < n as real - 0.5
  {
  }

  // A national raw code in dBZ: a tenth of the code above -999.
  function DecodeRaw(encoding: ValueEncoding, raw: Code): Option<real> {
    if StatusOf(encoding, raw).Valid? then Some((-9990.0 + raw as real) / 10.0) else None
  }

  // What a code of no value would decode to: -99 where nothing is measured, -999 outside coverage.
  lemma SentinelsMean(raw: Code)
    ensures DecodeRaw(NATIONAL_ENCODING, raw).None? <==> (raw as real - 9990.0) / 10.0 in {-99.0, -999.0}
    ensures StatusOf(NATIONAL_ENCODING, raw).Missing? <==> (raw as real - 9990.0) / 10.0 == -99.0
    ensures StatusOf(NATIONAL_ENCODING, raw).NoCoverage? <==> (raw as real - 9990.0) / 10.0 == -999.0
  {
  }

  function ColumnOf(t: Transform, longitude: real): int
    requires t.longitudeStep > 0.0
  {
    Round((longitude - t.firstLongitude) / t.longitudeStep)
  }

  function RowOf(t: Transform, latitude: real): int
    requires t.latitudeStep > 0.0
  {
    Round((t.firstLatitude - latitude) / t.latitudeStep)
  }

  function LookupDecoded(g: Grid, encoding: ValueEncoding, t: Transform, longitude: real, latitude: real): Lookup
    requires t.longitudeStep > 0.0 && t.latitudeStep > 0.0
  {
    var column, row := ColumnOf(t, longitude), RowOf(t, latitude);
    if column < 0 || row < 0 || column >= g.width || row >= g.height then OutsideCoverage
    else if row * g.width + column >= |g.codes| then PointInvalid
    else
      var raw := g.codes[row * g.width + column];
      Found(row, column, raw, StatusOf(encoding, raw), DecodeRaw(encoding, raw))
  }

  function ChunkAt(width: nat, interior: nat, column: nat, row: nat): nat
    requires interior > 0
  {
    Index(Quotient(column, interior), Quotient(row, interior), CeilDiv(width, interior))
  }

  // The code a chunk of a frame holds for a grid cell, if its interior has it.
  function CodeInChunk(retained: RetainedFrame, index: nat, column: nat, row: nat): Option<Code>
    requires retained.Valid()
  {
    if index >= |retained.summary.chunks| then None
    else
      var x, y := retained.summary.chunks[index].geometry.x, retained.summary.chunks[index].geometry.y;
      if !InInterior(x, column) || !InInterior(y, row) || index >= |retained.chunks| then None
      else retained.chunks[index].RawCode(retained.summary.encoding, Index(column - x.halo, row - y.halo, x.haloLength))
  }

  function LookupRetained(retained: RetainedFrame, longitude: real, latitude: real): Lookup
    requires retained.Valid()
  {
    var s := retained.summary;
    if s.frame.factor != 1 then PointInvalid
    else
      var column, row := ColumnOf(s.transform, longitude), RowOf(s.transform, latitude);
      if column < 0 || row < 0 || column >= s.frame.width || row >= s.frame.height then OutsideCoverage
      else if s.interior == 0 then PointInvalid
      else
        var raw := CodeInChunk(retained, ChunkAt(s.frame.width, s.interior, column, row), column, row);
        if raw.None? then PointInvalid
        else Found(row, column, raw.value, StatusOf(s.encoding, raw.value), DecodeRaw(s.encoding, raw.value))
  }

  // A grid cell's code within the chunk that has it in its interior.
  lemma CodeOfCell(f: FrameIdentity, g: Grid, chunks: seq<Chunk>, column: nat, row: nat)
    requires LevelChunks(f, g, chunks) && column < g.width && row < g.height
    ensures var index := ChunkIndexOf(g.width, column, row);
            && index < |chunks|
            && var t, s := chunks[index].geometry.x, chunks[index].geometry.y;
            && InInterior(t, column) && InInterior(s, row) && t.halo <= column && s.halo <= row
            && var cell := Index(column - t.halo, row - s.halo, t.haloLength);
            && cell < |chunks[index].codes| && chunks[index].codes[cell] == Cell(g, column, row)
  {
    var index := ChunkIndexOf(g.width, column, row);
    CellIndexOnGrid(g.width, g.height, column, row);
    ChunkHoldsCell(g.width, g.height, column, row, index);
    assert HaloOf(g, chunks[index]);
  }

  lemma RetainedCode(sha: Digest, f: FrameIdentity, chunk: Chunk, record: Bytes, kept: RetainedChunk, cell: nat)
    requires IsDigest(sha) && NationalFrame(f) && record == Record(sha, f, chunk) && cell < |chunk.codes|
    requires Keeps(NATIONAL_ENCODING, record, DrawsNothing(chunk.codes), kept)
    ensures kept.RawCode(NATIONAL_ENCODING, cell) == Some(chunk.codes[cell])
  {
    RecordCode(sha, f, chunk, cell);
    RawCodeOfRecord(NATIONAL_ENCODING, record, DrawsNothing(chunk.codes), kept, cell);
  }

  // The retained cell at a row and column is the grid's.
  lemma RetainedCell(sha: Digest, f: FrameIdentity, g: Grid, chunks: seq<Chunk>, frame: Frame, retained: RetainedFrame,
                     column: nat, row: nat)
    requires NationalFrame(f) && FrameOf(sha, f, g, chunks, frame) && KeepsFrame(frame, retained)
    requires column < f.width && row < f.height && retained.Valid()
    ensures CodeInChunk(retained, ChunkIndexOf(f.width, column, row), column, row) == Some(Cell(g, column, row))
  {
    var index := ChunkIndexOf(f.width, column, row);
    CodeOfCell(f, g, chunks, column, row);
    var t, s := chunks[index].geometry.x, chunks[index].geometry.y;
    FrameRecord(sha, f, g, chunks, frame, index);
    RetainedCode(sha, f, chunks[index], frame.records[index], retained.chunks[index],
                 Index(column - t.halo, row - s.halo, t.haloLength));
    HeldInChunk(retained, index, t, s, column, row);
  }

  lemma HeldInChunk(retained: RetainedFrame, index: nat, t: Tile, s: Tile, column: nat, row: nat)
    requires retained.Valid() && index < |retained.summary.chunks| && index < |retained.chunks|
    requires retained.summary.chunks[index].geometry.x == t && retained.summary.chunks[index].geometry.y == s
    requires InInterior(t, column) && InInterior(s, row) && t.halo <= column && s.halo <= row
    ensures CodeInChunk(retained, index, column, row)
            == retained.chunks[index].RawCode(retained.summary.encoding,
                                              Index(column - t.halo, row - s.halo, t.haloLength))
  {
  }

  lemma RecordCode(sha: Digest, f: FrameIdentity, chunk: Chunk, cell: nat)
    requires IsDigest(sha) && NationalFrame(f) && cell < |chunk.codes|
    ensures BigAt16(Record(sha, f, chunk), HEADER_BYTES + 2 * cell) == chunk.codes[cell]
  {
    CodeReadsBack(chunk.codes, cell);
    var record, payload := Record(sha, f, chunk), Payload(chunk.codes);
    assert record[HEADER_BYTES..] == payload;
    assert payload[2 * cell] == record[HEADER_BYTES + 2 * cell]
           && payload[2 * cell + 1] == record[HEADER_BYTES + 2 * cell + 1];
  }

  // A native frame answers every point as the flat grid does, and never with PointInvalid.
  lemma LookupsAgree(sha: Digest, f: FrameIdentity, g: Grid, chunks: seq<Chunk>, frame: Frame, retained: RetainedFrame,
                     longitude: real, latitude: real)
    requires NationalFrame(f) && f.factor == 1 && FrameOf(sha, f, g, chunks, frame) && KeepsFrame(frame, retained)
    requires retained.Valid()
    ensures LookupRetained(retained, longitude, latitude)
            == LookupDecoded(g, NATIONAL_ENCODING, frame.summary.transform, longitude, latitude)
    ensures !LookupRetained(retained, longitude, latitude).PointInvalid?
  {
    var t := frame.summary.transform;
    var column, row := ColumnOf(t, longitude), RowOf(t, latitude);
    if 0 <= column < f.width && 0 <= row < f.height {
      RetainedCell(sha, f, g, chunks, frame, retained, column, row);
      assert ChunkAt(f.width, CHUNK_INTERIOR, column, row) == ChunkIndexOf(f.width, column, row);
      IndexInGrid(column, row, g.width, g.height);
    }
  }

  // A frame refuses points exactly when it does not hold the native level.
  lemma PointsNeedNative(sha: Digest, f: FrameIdentity, g: Grid, chunks: seq<Chunk>, frame: Frame,
                         retained: RetainedFrame, longitude: real, latitude: real)
    requires NationalFrame(f) && FrameOf(sha, f, g, chunks, frame) && KeepsFrame(frame, retained)
    requires retained.Valid()
    ensures LookupRetained(retained, longitude, latitude).PointInvalid? <==> f.factor != 1
  {
    if f.factor == 1 { LookupsAgree(sha, f, g, chunks, frame, retained, longitude, latitude); }
  }

  // Only points within half a cell of a centre on both axes are covered.
  lemma CoveredPoints(g: Grid, encoding: ValueEncoding, t: Transform, longitude: real, latitude: real)
    requires t.longitudeStep > 0.0 && t.latitudeStep > 0.0
    ensures LookupDecoded(g, encoding, t, longitude, latitude).OutsideCoverage? <==>
            !( -0.5 < (longitude - t.firstLongitude) / t.longitudeStep < g.width as real - 0.5
              && -0.5 < (t.firstLatitude - latitude) / t.latitudeStep < g.height as real - 0.5)
  {
    RoundInRange((longitude - t.firstLongitude) / t.longitudeStep, g.width);
    RoundInRange((t.firstLatitude - latitude) / t.latitudeStep, g.height);
  }
}
