// PackedGrid v1 chunk records: their bytes, and parsing them
// (src-tauri/src/packed_grid.rs, `encode_chunk`; src/packed-grid/packedGrid.ts, `parsePackedGridChunk`).
module ChunkRecords {
  import opened Common
  import opened Arithmetic
  import opened WireBytes
  import opened NumericPyramid
  import opened PackedGrid

  const NATIONAL_WIDTH: nat := 7000
  const NATIONAL_HEIGHT: nat := 3500
  const REFERENCE_BITS: nat := 0xC61C_1800  // -9990 as a 32-bit float
  const MISSING_RAW: Code := 9000
  const NO_COVERAGE_RAW: Code := 0
  const NATIONAL_ENCODING: ValueEncoding := ValueEncoding(MISSING_RAW, NO_COVERAGE_RAW)

  // SHA-256, of which only the digest's length matters here.
  type Digest = Bytes -> Bytes

  ghost predicate IsDigest(sha: Digest) {
    forall b: Bytes :: |sha(b)| == 32
  }

  datatype FrameIdentity = FrameIdentity(generation: nat, time: int, content: Bytes, factor: nat, width: nat,
                                         height: nat)

  // A presentation factor and the dimensions the national grid has at it.
  predicate Presents(factor: nat, width: nat, height: nat) {
    factor in {1, 2, 4, 8, 16} && width == CeilDiv(NATIONAL_WIDTH, factor) && height == CeilDiv(NATIONAL_HEIGHT, factor)
  }

  // A frame of the national grid at one presentation factor.
  ghost predicate NationalFrame(f: FrameIdentity) {
    && 0 < f.generation < TWO_64 && 0 < f.time < TWO_63 && |f.content| == 32
    && Presents(f.factor, f.width, f.height)
  }

  predicate DrawsNothing(codes: seq<Code>) {
    forall i :: 0 <= i < |codes| ==> codes[i] == MISSING_RAW || codes[i] == NO_COVERAGE_RAW
  }

  // The codes as big-endian pairs.
  function Payload(codes: seq<Code>): (b: Bytes)
    ensures |b| == 2 * |codes|
  {
    if codes == [] then [] else Payload(codes[..|codes| - 1]) + Big16(codes[|codes| - 1])
  }

  lemma {:induction false} PayloadPair(codes: seq<Code>, i: nat)
    requires i < |codes|
    ensures Payload(codes)[2 * i..2 * i + 2] == Big16(codes[i])
  {
    if i < |codes| - 1 { PayloadPair(codes[..|codes| - 1], i); }
  }

  function CodeAt(payload: Bytes, i: nat): Code
    requires 2 * i + 2 <= |payload|
  {
    BigAt16(payload, 2 * i)
  }

  function CodesOf(payload: Bytes): (codes: seq<Code>) {
    seq(|payload| / 2, i requires 0 <= i < |payload| / 2 => CodeAt(payload, i))
  }

  lemma CodeReadsBack(codes: seq<Code>, i: nat)
    requires i < |codes|
    ensures CodeAt(Payload(codes), i) == codes[i]
  {
    PayloadPair(codes, i);
    Big16Reads(Payload(codes), 2 * i, codes[i]);
  }

  lemma CodesReadBack(codes: seq<Code>)
    ensures CodesOf(Payload(codes)) == codes
  {
    forall i | 0 <= i < |codes| ensures CodeAt(Payload(codes), i) == codes[i] {
      CodeReadsBack(codes, i);
    }
  }

  lemma LastCode(payload: Bytes)
    requires payload != [] && |payload| % 2 == 0
    ensures |payload| >= 2 && |payload[..|payload| - 2]| % 2 == 0
    ensures CodesOf(payload) == CodesOf(payload[..|payload| - 2]) + [CodeAt(payload, |payload| / 2 - 1)]
    ensures Big16(CodeAt(payload, |payload| / 2 - 1)) == payload[|payload| - 2..]
  {
    var n := |payload| / 2 - 1;
    assert |payload| == 2 * n + 2;
    Big16IsCanonical(payload, 2 * n);
    assert forall i | 0 <= i < n :: CodeAt(payload[..2 * n], i) == CodeAt(payload, i);
  }

  lemma {:induction false} PayloadOfCodes(payload: Bytes)
    requires |payload| % 2 == 0
    ensures Payload(CodesOf(payload)) == payload
  {
    if payload != [] {
      var before := payload[..|payload| - 2];
      LastCode(payload);
      PayloadOfCodes(before);
      assert CodesOf(payload)[..|CodesOf(payload)| - 1] == CodesOf(before);
      assert payload == before + payload[|payload| - 2..];
    }
  }

  // ----- The record -----

  // The header's fields in order; bytes 114-115 and 168-175 are reserved.
  function IdentityFields(f: FrameIdentity, total: nat): (fields: seq<Field>)
    requires |f.content| == 32 && -TWO_63 <= f.time < TWO_63
  {
    [
      Field(0, [0x4d, 0x47, 0x43, 0x4b]),  // "MGCK"
      Field(4, Big16(1)),
      Field(6, Big16(2)),
      Field(8, Big32(HEADER_BYTES)),
      Field(12, Big32(total)),
      Field(16, Big64(f.generation)),
      Field(24, Big64(Unsigned64(f.time))),
      Field(32, f.content),
      Field(64, [1, 1, 1, 1]),
      Field(68, Big32(f.width)),
      Field(72, Big32(f.height)),
      Field(76, Big16(f.factor)),
      Field(78, Big16(CHUNK_INTERIOR))]
  }

  function GeometryFields(g: Geometry): (fields: seq<Field>)
  {
    [
      Field(80, Big32(g.index)),
      Field(84, Big16(g.x.chunk)),
      Field(86, Big16(g.y.chunk)),
      Field(88, Big32(g.x.interior)),
      Field(92, Big32(g.y.interior)),
      Field(96, Big16(g.x.interiorLength)),
      Field(98, Big16(g.y.interiorLength)),
      Field(100, Big32(g.x.halo)),
      Field(104, Big32(g.y.halo)),
      Field(108, Big16(g.x.haloLength)),
      Field(110, Big16(g.y.haloLength))]
  }

  function EncodingFields(empty: bool, payloadLength: nat, hash: Bytes): (fields: seq<Field>)
    requires |hash| == 32
  {
    [
      Field(112, [16, if empty then 1 else 0]),
      Field(116, Big32(REFERENCE_BITS)),
      Field(120, Big16(0)),
      Field(122, Big16(1)),
      Field(124, Big16(MISSING_RAW)),
      Field(126, Big16(NO_COVERAGE_RAW)),
      Field(128, Big32(HEADER_BYTES)),
      Field(132, Big32(payloadLength)),
      Field(136, hash)]
  }

  lemma IdentityFieldsFit(f: FrameIdentity, total: nat)
    requires |f.content| == 32 && -TWO_63 <= f.time < TWO_63
    ensures FitIn(IdentityFields(f, total), 0, 80) && InOrder(IdentityFields(f, total))
  {
    AdjacentInOrder(IdentityFields(f, total));
  }

  lemma GeometryFieldsFit(g: Geometry)
    ensures FitIn(GeometryFields(g), 80, 112) && InOrder(GeometryFields(g))
  {
    AdjacentInOrder(GeometryFields(g));
  }

  lemma EncodingFieldsFit(empty: bool, payloadLength: nat, hash: Bytes)
    requires |hash| == 32
    ensures var fields := EncodingFields(empty, payloadLength, hash);
            && FitIn(fields, 112, 168) && InOrder(fields)
            && forall i :: 0 <= i < |fields| ==> fields[i].End() <= 114 || 116 <= fields[i].offset
  {
    AdjacentInOrder(EncodingFields(empty, payloadLength, hash));
  }

  function HeaderFields(f: FrameIdentity, g: Geometry, payloadLength: nat, empty: bool,
                        hash: Bytes): (fields: seq<Field>)
    requires |f.content| == 32 && |hash| == 32 && -TWO_63 <= f.time < TWO_63
  {
    IdentityFields(f, HEADER_BYTES + payloadLength) + GeometryFields(g) + EncodingFields(empty, payloadLength, hash)
  }

  lemma HeaderFieldsFit(f: FrameIdentity, g: Geometry, payloadLength: nat, empty: bool, hash: Bytes)
    requires |f.content| == 32 && |hash| == 32 && -TWO_63 <= f.time < TWO_63
    ensures var fields := HeaderFields(f, g, payloadLength, empty, hash);
            && FitIn(fields, 0, 168) && InOrder(fields)
            && (forall i :: 0 <= i < |fields| ==> fields[i].End() <= 114 || 116 <= fields[i].offset)
  {
    IdentityFieldsFit(f, HEADER_BYTES + payloadLength);
    GeometryFieldsFit(g);
    EncodingFieldsFit(empty, payloadLength, hash);
    var i, j := IdentityFields(f, HEADER_BYTES + payloadLength), GeometryFields(g);
    var k := EncodingFields(empty, payloadLength, hash);
    TwoInOrder(i, j, 0, 80, 112);
    TwoInOrder(i + j, k, 0, 112, 168);
  }

  lemma TwoInOrder(i: seq<Field>, j: seq<Field>, from: nat, seam: nat, to: nat)
    requires InOrder(i) && InOrder(j) && FitIn(i, from, seam) && FitIn(j, seam, to) && seam <= to && from <= seam
    ensures InOrder(i + j) && FitIn(i + j, from, to)
  {
    var all := i + j;
    forall n | 0 <= n < |all| ensures from <= all[n].offset && all[n].End() <= to {
      assert all[n] == if n < |i| then i[n] else j[n - |i|];
    }
  }

  function Header(f: FrameIdentity, g: Geometry, payloadLength: nat, empty: bool, hash: Bytes): (header: Bytes)
    requires |f.content| == 32 && |hash| == 32 && -TWO_63 <= f.time < TWO_63
    ensures |header| == HEADER_BYTES
  {
    HeaderFieldsFit(f, g, payloadLength, empty, hash);
    PutAll(Zeros(HEADER_BYTES), HeaderFields(f, g, payloadLength, empty, hash))
  }

  // A chunk's record under either flag.
  function Flagged(sha: Digest, f: FrameIdentity, chunk: Chunk, empty: bool): (record: Bytes)
    requires |f.content| == 32 && -TWO_63 <= f.time < TWO_63 && |sha(Payload(chunk.codes))| == 32
    ensures |record| == HEADER_BYTES + 2 * |chunk.codes|
  {
    var payload := Payload(chunk.codes);
    Header(f, chunk.geometry, |payload|, empty, sha(payload)) + payload
  }

  function Record(sha: Digest, f: FrameIdentity, chunk: Chunk): (record: Bytes)
    requires |f.content| == 32 && -TWO_63 <= f.time < TWO_63 && |sha(Payload(chunk.codes))| == 32
    ensures |record| == HEADER_BYTES + 2 * |chunk.codes|
  {
    Flagged(sha, f, chunk, DrawsNothing(chunk.codes))
  }

  // Writes a pair of bytes for each code, from an offset to the end of the buffer.
  method WritePayload(bytes: array<Byte>, from: nat, codes: seq<Code>)
    requires from + 2 * |codes| == bytes.Length
    modifies bytes
    ensures bytes[..] == old(bytes[..from]) + Payload(codes)
  {
    ghost var front, rest := bytes[..from], bytes[from..];
    assert bytes[..] == front + rest;
    for i := 0 to |codes|
      invariant bytes[..] == front + Payload(codes[..i]) + rest[2 * i..]
    {
      WriteField(bytes, Field(from + 2 * i, Big16(codes[i])));
      PairLands(front, codes, i, rest);
    }
    assert codes[..|codes|] == codes;
  }

  lemma PairLands(front: Bytes, codes: seq<Code>, i: nat, rest: Bytes)
    requires i < |codes| && |rest| == 2 * |codes|
    ensures Put(front + Payload(codes[..i]) + rest[2 * i..], Field(|front| + 2 * i, Big16(codes[i])))
            == front + Payload(codes[..i + 1]) + rest[2 * (i + 1)..]
  {
    assert codes[..i + 1][..i] == codes[..i];
  }

  // Writes a chunk's record into a zeroed buffer: the header's fields, then the codes.
  method EncodeChunk(sha: Digest, f: FrameIdentity, chunk: Chunk) returns (r: Result<Bytes, PackedGridError>)
    requires IsDigest(sha) && |f.content| == 32 && -TWO_63 <= f.time < TWO_63
    ensures r.Err? <==> HEADER_BYTES + 2 * |chunk.codes| > CHUNK_LIMIT
    ensures r.Ok? ==> r.value == Record(sha, f, chunk)
  {
    var n := 2 * |chunk.codes|;
    if HEADER_BYTES + n > CHUNK_LIMIT { return Err(Bounds); }
    var bytes := new Byte[HEADER_BYTES + n](_ => 0);
    var empty, hash := DrawsNothing(chunk.codes), sha(Payload(chunk.codes));
    HeaderFieldsFit(f, chunk.geometry, n, empty, hash);
    WriteHeader(bytes, HeaderFields(f, chunk.geometry, n, empty, hash));
    WritePayload(bytes, HEADER_BYTES, chunk.codes);
    r := Ok(bytes[..]);
  }

  method WriteHeader(bytes: array<Byte>, fields: seq<Field>)
    requires HEADER_BYTES <= bytes.Length && AllZero(bytes[..]) && FitIn(fields, 0, HEADER_BYTES)
    modifies bytes
    ensures bytes[..HEADER_BYTES] == PutAll(Zeros(HEADER_BYTES), fields)
  {
    assert bytes[..] == Zeros(HEADER_BYTES) + bytes[HEADER_BYTES..];
    PutAllIn(Zeros(HEADER_BYTES), bytes[HEADER_BYTES..], fields);
    WriteFields(bytes, fields);
  }

  // ----- Parsing -----

  datatype ParseError =
    | TruncatedHeader | PayloadTooLarge | InvalidMagic | UnsupportedVersion | InvalidRecordKind | InvalidHeaderLength
    | TotalLengthMismatch | InvalidSource | InvalidGrid | InvalidEncoding | InvalidChunkBounds | HashMismatch

  datatype ParsedChunk = ParsedChunk(frame: FrameIdentity, geometry: Geometry, encodedLength: nat, hash: Bytes,
                                     empty: bool, codes: seq<Code>)

  function GeometryIn(b: Bytes): Geometry
    requires |b| >= HEADER_BYTES
  {
    Geometry(BigAt32(b, 80),
             Tile(BigAt16(b, 84), BigAt32(b, 88), BigAt16(b, 96), BigAt32(b, 100), BigAt16(b, 108)),
             Tile(BigAt16(b, 86), BigAt32(b, 92), BigAt16(b, 98), BigAt32(b, 104), BigAt16(b, 110)))
  }

  // Whether a descriptor is the one its index implies.
  predicate DescriptorHolds(g: Geometry, encodedLength: nat, width: nat, height: nat) {
    && width > 0 && height > 0 && g.index < ChunkCount(width, height) && g == GeometryAt(width, height, g.index)
    && encodedLength == HEADER_BYTES + g.x.haloLength * g.y.haloLength * 2
  }

  predicate GridHolds(b: Bytes)
    requires |b| >= HEADER_BYTES
  {
    Presents(BigAt16(b, 76), BigAt32(b, 68), BigAt32(b, 72)) && BigAt16(b, 78) == CHUNK_INTERIOR
  }

  predicate EncodingHolds(b: Bytes)
    requires |b| >= HEADER_BYTES
  {
    && b[112] == 16 && BigAt32(b, 116) == REFERENCE_BITS && BigAt16(b, 120) == 0 && BigAt16(b, 122) == 1
    && BigAt16(b, 124) == MISSING_RAW && BigAt16(b, 126) == NO_COVERAGE_RAW
  }

  function EnvelopeError(b: Bytes): Option<ParseError> {
    if |b| < HEADER_BYTES then Some(TruncatedHeader)
    else if |b| > CHUNK_LIMIT then Some(PayloadTooLarge)
    else if b[..4] != [0x4d, 0x47, 0x43, 0x4b] then Some(InvalidMagic)
    else if BigAt16(b, 4) != 1 then Some(UnsupportedVersion)
    else if BigAt16(b, 6) != 2 then Some(InvalidRecordKind)
    else if BigAt32(b, 8) != HEADER_BYTES then Some(InvalidHeaderLength)
    else if BigAt32(b, 12) != |b| then Some(TotalLengthMismatch)
    else None
  }

  function FrameError(b: Bytes): Option<ParseError>
    requires |b| >= HEADER_BYTES
  {
    if BigAt64(b, 16) == 0 || Signed64(BigAt64(b, 24)) <= 0 || b[64..68] != [1, 1, 1, 1] then Some(InvalidSource)
    else if !GridHolds(b) then Some(InvalidGrid)
    else if !EncodingHolds(b) then Some(InvalidEncoding)
    else None
  }

  function BoundsError(b: Bytes): Option<ParseError>
    requires |b| >= HEADER_BYTES
  {
    if BigAt32(b, 128) != HEADER_BYTES || BigAt32(b, 132) % 2 != 0 || HEADER_BYTES + BigAt32(b, 132) != |b|
    then Some(InvalidChunkBounds)
    else if b[113] > 1 || !AllZero(b[114..116]) || !AllZero(b[168..HEADER_BYTES]) then Some(InvalidRecordKind)
    else if !DescriptorHolds(GeometryIn(b), |b|, BigAt32(b, 68), BigAt32(b, 72)) then Some(InvalidChunkBounds)
    else None
  }

  // The first header check that fails.
  function HeaderError(b: Bytes): (e: Option<ParseError>)
    ensures e.None? ==> |b| >= HEADER_BYTES
  {
    if EnvelopeError(b).Some? then EnvelopeError(b)
    else if FrameError(b).Some? then FrameError(b)
    else BoundsError(b)
  }

  function ParseChunk(sha: Digest, b: Bytes): Result<ParsedChunk, ParseError> {
    if HeaderError(b).Some? then Err(HeaderError(b).value)
    else
      var payload, g := b[HEADER_BYTES..], GeometryIn(b);
      if g.x.haloLength * g.y.haloLength * 2 != |payload| then Err(InvalidChunkBounds)
      else if sha(payload) != b[136..168] then Err(HashMismatch)
      else
        var codes := CodesOf(payload);
        if b[113] == 1 && !DrawsNothing(codes) then Err(InvalidEncoding)
        else Ok(ParsedChunk(
          FrameIdentity(BigAt64(b, 16), Signed64(BigAt64(b, 24)), b[32..64], BigAt16(b, 76), BigAt32(b, 68),
                        BigAt32(b, 72)),
          g, |b|, sha(payload), b[113] == 1, codes))
  }

  // ----- What is written parses back -----

  lemma HeaderReads(f: FrameIdentity, g: Geometry, empty: bool, hash: Bytes, rest: Bytes)
    requires |f.content| == 32 && |hash| == 32 && -TWO_63 <= f.time < TWO_63
    ensures var b := Header(f, g, |rest|, empty, hash) + rest;
            Tables(b, f, g, empty, |rest|, hash)
  {
    var header, zeros := Header(f, g, |rest|, empty, hash), Zeros(HEADER_BYTES);
    var b := header + rest;
    var i, j, k := IdentityFields(f, |b|), GeometryFields(g), EncodingFields(empty, |rest|, hash);
    HeaderFieldsFit(f, g, |rest|, empty, hash);
    FieldsReadBack(zeros, i + j + k);
    SplitReads(header, rest, i, j, k);
    GapsStay(zeros, i + j + k, 114, 116);
    GapsStay(zeros, i + j + k, 168, HEADER_BYTES);
    assert b[114..116] == zeros[114..116] && b[168..HEADER_BYTES] == zeros[168..HEADER_BYTES];
  }

  lemma SplitReads(header: Bytes, rest: Bytes, i: seq<Field>, j: seq<Field>, k: seq<Field>)
    requires Reads(header, i + j + k)
    ensures Reads(header + rest, i) && Reads(header + rest, j) && Reads(header + rest, k)
  {
    var all, b := i + j + k, header + rest;
    forall n | 0 <= n < |all| ensures ReadsField(b, all[n]) {
      assert ReadsField(header, all[n]);
      assert b[all[n].offset..all[n].End()] == header[all[n].offset..all[n].End()];
    }
    assert forall n :: 0 <= n < |i| ==> i[n] == all[n];
    assert forall n :: 0 <= n < |j| ==> j[n] == all[|i| + n];
    assert forall n :: 0 <= n < |k| ==> k[n] == all[|i| + |j| + n];
  }

  // Every number fits its field.
  ghost predicate Narrow(f: FrameIdentity, g: Geometry) {
    && |f.content| == 32 && f.generation < TWO_64 && -TWO_63 <= f.time < TWO_63
    && f.factor < 0x1_0000 && f.width < 0x1_0000 && f.height < 0x1_0000
    && g.index < 0x1_0000 && NarrowTile(g.x) && NarrowTile(g.y)
  }

  predicate NarrowTile(t: Tile) {
    t.chunk < 0x1_0000 && t.interior < 0x1_0000 && t.interiorLength < 0x1_0000
    && t.halo < 0x1_0000 && t.haloLength < 0x1_0000
  }

  // The header's fields as the parser reads them.
  predicate HasEnvelope(b: Bytes)
    requires |b| >= HEADER_BYTES
  {
    && b[..4] == [0x4d, 0x47, 0x43, 0x4b] && BigAt16(b, 4) == 1 && BigAt16(b, 6) == 2 && BigAt32(b, 8) == HEADER_BYTES
    && BigAt32(b, 12) == |b|
  }

  predicate HasSource(b: Bytes, f: FrameIdentity)
    requires |b| >= HEADER_BYTES
  {
    && BigAt64(b, 16) == f.generation && Signed64(BigAt64(b, 24)) == f.time
    && b[32..64] == f.content && b[64..68] == [1, 1, 1, 1]
  }

  predicate HasGrid(b: Bytes, f: FrameIdentity)
    requires |b| >= HEADER_BYTES
  {
    BigAt32(b, 68) == f.width && BigAt32(b, 72) == f.height && BigAt16(b, 76) == f.factor
    && BigAt16(b, 78) == CHUNK_INTERIOR
  }

  predicate HasEncoding(b: Bytes, empty: bool, n: nat, hash: Bytes)
    requires |b| >= HEADER_BYTES
  {
    && b[112] == 16 && b[113] == (if empty then 1 else 0) && BigAt32(b, 116) == REFERENCE_BITS
    && BigAt16(b, 120) == 0 && BigAt16(b, 122) == 1 && BigAt16(b, 124) == MISSING_RAW
    && BigAt16(b, 126) == NO_COVERAGE_RAW
    && BigAt32(b, 128) == HEADER_BYTES && BigAt32(b, 132) == n && b[136..168] == hash
  }

  lemma EnvelopeReads(f: FrameIdentity, g: Geometry, b: Bytes)
    requires Narrow(f, g) && HEADER_BYTES <= |b| <= CHUNK_LIMIT && Reads(b, IdentityFields(f, |b|))
    ensures HasEnvelope(b)
  {
    var fields := IdentityFields(f, |b|);
    DataIn(b, fields, 0);
    Big16In(b, fields, 1, 4, 1);
    Big16In(b, fields, 2, 6, 2);
    Big32In(b, fields, 3, 8, HEADER_BYTES);
    Big32In(b, fields, 4, 12, |b|);
  }

  lemma SourceReads(f: FrameIdentity, g: Geometry, b: Bytes)
    requires Narrow(f, g) && HEADER_BYTES <= |b| && Reads(b, IdentityFields(f, |b|))
    ensures HasSource(b, f)
  {
    var fields := IdentityFields(f, |b|);
    Big64In(b, fields, 5, 16, f.generation);
    Big64In(b, fields, 6, 24, Unsigned64(f.time));
    DataIn(b, fields, 7);
    DataIn(b, fields, 8);
  }

  lemma GridReads(f: FrameIdentity, g: Geometry, b: Bytes)
    requires Narrow(f, g) && HEADER_BYTES <= |b| && Reads(b, IdentityFields(f, |b|))
    ensures HasGrid(b, f)
  {
    var fields := IdentityFields(f, |b|);
    Big32In(b, fields, 9, 68, f.width);
    Big32In(b, fields, 10, 72, f.height);
    Big16In(b, fields, 11, 76, f.factor);
    Big16In(b, fields, 12, 78, CHUNK_INTERIOR);
  }

  lemma GeometryReads(f: FrameIdentity, g: Geometry, b: Bytes)
    requires Narrow(f, g) && HEADER_BYTES <= |b| && Reads(b, GeometryFields(g))
    ensures GeometryIn(b) == g
  {
    var fields := GeometryFields(g);
    Big32In(b, fields, 0, 80, g.index);
    Big16In(b, fields, 1, 84, g.x.chunk);
    Big16In(b, fields, 2, 86, g.y.chunk);
    Big32In(b, fields, 3, 88, g.x.interior);
    Big32In(b, fields, 4, 92, g.y.interior);
    Big16In(b, fields, 5, 96, g.x.interiorLength);
    Big16In(b, fields, 6, 98, g.y.interiorLength);
    Big32In(b, fields, 7, 100, g.x.halo);
    Big32In(b, fields, 8, 104, g.y.halo);
    Big16In(b, fields, 9, 108, g.x.haloLength);
    Big16In(b, fields, 10, 110, g.y.haloLength);
  }

  lemma EncodingReads(empty: bool, hash: Bytes, b: Bytes, n: nat)
    requires |hash| == 32 && HEADER_BYTES + n == |b| <= CHUNK_LIMIT && Reads(b, EncodingFields(empty, n, hash))
    ensures HasEncoding(b, empty, n, hash)
  {
    var fields := EncodingFields(empty, n, hash);
    DataIn(b, fields, 0);
    Big32In(b, fields, 1, 116, REFERENCE_BITS);
    Big16In(b, fields, 2, 120, 0);
    Big16In(b, fields, 3, 122, 1);
    Big16In(b, fields, 4, 124, MISSING_RAW);
    Big16In(b, fields, 5, 126, NO_COVERAGE_RAW);
    Big32In(b, fields, 6, 128, HEADER_BYTES);
    Big32In(b, fields, 7, 132, n);
    DataIn(b, fields, 8);
    assert b[112] == b[112..114][0] && b[113] == b[112..114][1];
  }

  lemma EvenTwice(n: nat, k: nat)
    requires n == 2 * k
    ensures n % 2 == 0
  {
  }

  lemma BoundsAccepted(f: FrameIdentity, g: Geometry, empty: bool, hash: Bytes, b: Bytes, cells: nat)
    requires HEADER_BYTES + 2 * cells == |b| && |hash| == 32 && HeaderHolds(b, f, g, empty, 2 * cells, hash)
    requires DescriptorHolds(g, |b|, f.width, f.height)
    ensures BoundsError(b).None?
  {
    assert DescriptorHolds(GeometryIn(b), |b|, BigAt32(b, 68), BigAt32(b, 72));
    EvenTwice(BigAt32(b, 132), cells);
    assert b[113] <= 1 && AllZero(b[114..116]) && AllZero(b[168..HEADER_BYTES]);
  }

  lemma HeaderAccepted(f: FrameIdentity, g: Geometry, empty: bool, hash: Bytes, b: Bytes, cells: nat)
    requires NationalFrame(f) && HEADER_BYTES + 2 * cells == |b| <= CHUNK_LIMIT
    requires HeaderHolds(b, f, g, empty, 2 * cells, hash) && |hash| == 32
    requires DescriptorHolds(g, |b|, f.width, f.height)
    ensures HeaderError(b).None?
  {
    assert EnvelopeError(b).None?;
    assert GridHolds(b);
    assert EncodingHolds(b);
    assert FrameError(b).None?;
    BoundsAccepted(f, g, empty, hash, b, cells);
  }

  // A chunk of a national frame, with the geometry its index implies.
  ghost predicate WellFormed(f: FrameIdentity, chunk: Chunk) {
    && NationalFrame(f) && chunk.geometry.index < ChunkCount(f.width, f.height)
    && chunk.geometry == GeometryAt(f.width, f.height, chunk.geometry.index)
    && |chunk.codes| == chunk.geometry.x.haloLength * chunk.geometry.y.haloLength
  }

  lemma NationalBounds(f: FrameIdentity, chunk: Chunk)
    requires WellFormed(f, chunk)
    ensures Narrow(f, chunk.geometry) && |chunk.codes| <= 258 * 258
    ensures DescriptorHolds(chunk.geometry, HEADER_BYTES + 2 * |chunk.codes|, f.width, f.height)
  {
    CeilDivBounds(NATIONAL_WIDTH, f.factor);
    CeilDivBounds(NATIONAL_HEIGHT, f.factor);
    var across, down, g := ChunksAcross(f.width), ChunksAcross(f.height), chunk.geometry;
    assert across <= 28 && down <= 14;
    MulMonotone(across, 28, down);
    IndexOnGrid(f.width, f.height, g.index);
    MulMonotone(g.x.haloLength, 258, g.y.haloLength);
    DivFloor(g.index, across);
  }

  // Parsing a chunk's record gives back the chunk and the frame it belongs to.
  lemma RecordParses(sha: Digest, f: FrameIdentity, chunk: Chunk)
    requires IsDigest(sha) && WellFormed(f, chunk) && -TWO_63 <= f.time < TWO_63
    ensures var record := Record(sha, f, chunk);
            && |record| <= CHUNK_LIMIT
            && ParseChunk(sha, record) == Ok(ParsedChunk(f, chunk.geometry, |record|, sha(Payload(chunk.codes)),
                                                         DrawsNothing(chunk.codes), chunk.codes))
  {
    FlaggedParses(sha, f, chunk, DrawsNothing(chunk.codes));
  }

  lemma FlaggedParses(sha: Digest, f: FrameIdentity, chunk: Chunk, empty: bool)
    requires IsDigest(sha) && WellFormed(f, chunk) && (empty ==> DrawsNothing(chunk.codes))
    ensures var record := Flagged(sha, f, chunk, empty);
            && |record| <= CHUNK_LIMIT
            && ParseChunk(sha, record) == Ok(ParsedChunk(f, chunk.geometry, |record|, sha(Payload(chunk.codes)), empty,
                                                         chunk.codes))
  {
    var payload, g := Payload(chunk.codes), chunk.geometry;
    var record := Flagged(sha, f, chunk, empty);
    NationalBounds(f, chunk);
    RecordReads(sha, f, chunk, empty);
    assert record[HEADER_BYTES..] == payload;
    CodesReadBack(chunk.codes);
  }

  // The three tables and the reserved bytes of a record.
  ghost predicate Tables(b: Bytes, f: FrameIdentity, g: Geometry, empty: bool, n: nat, hash: Bytes)
    requires |f.content| == 32 && |hash| == 32 && -TWO_63 <= f.time < TWO_63 && |b| == HEADER_BYTES + n
  {
    && Reads(b, IdentityFields(f, |b|)) && Reads(b, GeometryFields(g)) && Reads(b, EncodingFields(empty, n, hash))
    && AllZero(b[114..116]) && AllZero(b[168..HEADER_BYTES])
  }

  predicate HeaderHolds(b: Bytes, f: FrameIdentity, g: Geometry, empty: bool, n: nat, hash: Bytes)
    requires |b| >= HEADER_BYTES
  {
    && HasEnvelope(b) && HasSource(b, f) && HasGrid(b, f) && GeometryIn(b) == g && HasEncoding(b, empty, n, hash)
    && AllZero(b[114..116]) && AllZero(b[168..HEADER_BYTES])
  }

  lemma TablesHold(b: Bytes, f: FrameIdentity, g: Geometry, empty: bool, n: nat, hash: Bytes)
    requires Narrow(f, g) && |hash| == 32 && |b| == HEADER_BYTES + n <= CHUNK_LIMIT && Tables(b, f, g, empty, n, hash)
    ensures HeaderHolds(b, f, g, empty, n, hash)
  {
    EnvelopeReads(f, g, b);
    SourceReads(f, g, b);
    GridReads(f, g, b);
    GeometryReads(f, g, b);
    EncodingReads(empty, hash, b, n);
  }

  lemma RecordReads(sha: Digest, f: FrameIdentity, chunk: Chunk, empty: bool)
    requires IsDigest(sha) && NationalFrame(f) && Narrow(f, chunk.geometry) && |chunk.codes| <= 258 * 258
    requires DescriptorHolds(chunk.geometry, HEADER_BYTES + 2 * |chunk.codes|, f.width, f.height)
    ensures var b := Flagged(sha, f, chunk, empty);
            && HeaderError(b).None?
            && HeaderHolds(b, f, chunk.geometry, empty, 2 * |chunk.codes|, sha(Payload(chunk.codes)))
  {
    var payload, g := Payload(chunk.codes), chunk.geometry;
    var hash := sha(payload);
    var b := Header(f, g, |payload|, empty, hash) + payload;
    HeaderReads(f, g, empty, hash, payload);
    assert |payload| == 2 * |chunk.codes|;
    TablesHold(b, f, g, empty, |payload|, hash);
    HeaderAccepted(f, g, empty, hash, b, |chunk.codes|);
  }

  // ----- What parses was written -----

  lemma IdentityReadsBack(b: Bytes, f: FrameIdentity)
    requires HEADER_BYTES <= |b| <= CHUNK_LIMIT && |f.content| == 32 && -TWO_63 <= f.time < TWO_63
    requires HasEnvelope(b) && HasSource(b, f) && HasGrid(b, f)
    ensures Reads(b, IdentityFields(f, |b|))
  {
    Big16IsCanonical(b, 4);
    Big16IsCanonical(b, 6);
    Big32IsCanonical(b, 8);
    Big32IsCanonical(b, 12);
    Big64IsCanonical(b, 16);
    Big64IsCanonical(b, 24);
    Big32IsCanonical(b, 68);
    Big32IsCanonical(b, 72);
    Big16IsCanonical(b, 76);
    Big16IsCanonical(b, 78);
  }

  lemma GeometryReadsBack(b: Bytes)
    requires |b| >= HEADER_BYTES
    ensures Reads(b, GeometryFields(GeometryIn(b)))
  {
    Big32IsCanonical(b, 80);
    Big16IsCanonical(b, 84);
    Big16IsCanonical(b, 86);
    Big32IsCanonical(b, 88);
    Big32IsCanonical(b, 92);
    Big16IsCanonical(b, 96);
    Big16IsCanonical(b, 98);
    Big32IsCanonical(b, 100);
    Big32IsCanonical(b, 104);
    Big16IsCanonical(b, 108);
    Big16IsCanonical(b, 110);
  }

  // The encoding table with its reserved bytes as fields of zeros.
  function EncodingTiles(empty: bool, payloadLength: nat, hash: Bytes): (fields: seq<Field>)
    requires |hash| == 32
  {
    [
      Field(112, [16, if empty then 1 else 0]),
      Field(114, Zeros(2)),
      Field(116, Big32(REFERENCE_BITS)),
      Field(120, Big16(0)),
      Field(122, Big16(1)),
      Field(124, Big16(MISSING_RAW)),
      Field(126, Big16(NO_COVERAGE_RAW)),
      Field(128, Big32(HEADER_BYTES)),
      Field(132, Big32(payloadLength)),
      Field(136, hash),
      Field(168, Zeros(8))]
  }

  lemma EncodingReadsBack(b: Bytes, empty: bool, n: nat, hash: Bytes)
    requires |b| >= HEADER_BYTES && |hash| == 32 && HasEncoding(b, empty, n, hash)
    requires AllZero(b[114..116]) && AllZero(b[168..HEADER_BYTES])
    ensures Reads(b, EncodingTiles(empty, n, hash))
  {
    Big32IsCanonical(b, 116);
    Big16IsCanonical(b, 120);
    Big16IsCanonical(b, 122);
    Big16IsCanonical(b, 124);
    Big16IsCanonical(b, 126);
    Big32IsCanonical(b, 128);
    Big32IsCanonical(b, 132);
    assert b[112..114] == [16, if empty then 1 else 0] && b[114..116] == Zeros(2) && b[168..HEADER_BYTES] == Zeros(8);
  }

  lemma HeaderTiled(f: FrameIdentity, total: nat, g: Geometry, empty: bool, n: nat, hash: Bytes)
    requires |f.content| == 32 && -TWO_63 <= f.time < TWO_63 && |hash| == 32
    ensures Tiled(IdentityFields(f, total), 0, 80) && Tiled(GeometryFields(g), 80, 112)
    ensures Tiled(EncodingTiles(empty, n, hash), 112, HEADER_BYTES)
  {
    AdjacentTiled(IdentityFields(f, total), 0, 80);
    AdjacentTiled(GeometryFields(g), 80, 112);
    AdjacentTiled(EncodingTiles(empty, n, hash), 112, HEADER_BYTES);
  }

  // Two records whose headers read alike have the same header bytes.
  lemma HeaderIsDetermined(b: Bytes, c: Bytes, f: FrameIdentity, g: Geometry, empty: bool, n: nat, hash: Bytes)
    requires HEADER_BYTES <= |b| == |c| <= CHUNK_LIMIT && |f.content| == 32 && -TWO_63 <= f.time < TWO_63
    requires |hash| == 32 && HeaderHolds(b, f, g, empty, n, hash) && HeaderHolds(c, f, g, empty, n, hash)
    ensures b[..HEADER_BYTES] == c[..HEADER_BYTES]
  {
    IdentityReadsBack(b, f);
    IdentityReadsBack(c, f);
    GeometryReadsBack(b);
    GeometryReadsBack(c);
    EncodingReadsBack(b, empty, n, hash);
    EncodingReadsBack(c, empty, n, hash);
    HeaderTiled(f, |b|, g, empty, n, hash);
    TilesDetermine(b, c, IdentityFields(f, |b|), 0, 80);
    TilesDetermine(b, c, GeometryFields(g), 80, 112);
    TilesDetermine(b, c, EncodingTiles(empty, n, hash), 112, HEADER_BYTES);
    ThreeSlices(b);
    ThreeSlices(c);
  }

  lemma ThreeSlices(b: Bytes)
    requires |b| >= HEADER_BYTES
    ensures b[..HEADER_BYTES] == b[0..80] + b[80..112] + b[112..HEADER_BYTES]
  {
  }

  // What a record that parses gives back is a chunk of a national frame.
  lemma ParsedIsWellFormed(sha: Digest, b: Bytes)
    requires IsDigest(sha) && ParseChunk(sha, b).Ok?
    ensures var p := ParseChunk(sha, b).value;
            && |b| <= CHUNK_LIMIT && p.encodedLength == |b| == HEADER_BYTES + 2 * |p.codes|
            && WellFormed(p.frame, Chunk(p.geometry, p.codes))
            && Payload(p.codes) == b[HEADER_BYTES..] && p.hash == sha(Payload(p.codes))
            && (p.empty ==> DrawsNothing(p.codes))
  {
    var payload, g := b[HEADER_BYTES..], GeometryIn(b);
    EvenTwice(|payload|, g.x.haloLength * g.y.haloLength);
    PayloadOfCodes(payload);
  }

  lemma ParsedHolds(sha: Digest, b: Bytes)
    requires IsDigest(sha) && ParseChunk(sha, b).Ok?
    ensures var p := ParseChunk(sha, b).value;
            HeaderHolds(b, p.frame, p.geometry, p.empty, 2 * |p.codes|, p.hash)
  {
    var payload, g := b[HEADER_BYTES..], GeometryIn(b);
    EvenTwice(|payload|, g.x.haloLength * g.y.haloLength);
  }

  // Only records parse: an accepted buffer is, byte for byte, the record of the
  // chunk it gives back, under the flag it carries. Only a chunk that draws
  // nothing can be flagged so; it is also accepted unflagged.
  lemma ParsedIsRecord(sha: Digest, b: Bytes)
    requires IsDigest(sha) && ParseChunk(sha, b).Ok?
    ensures var p := ParseChunk(sha, b).value;
            var chunk := Chunk(p.geometry, p.codes);
            && WellFormed(p.frame, chunk) && (p.empty ==> DrawsNothing(p.codes))
            && b == Flagged(sha, p.frame, chunk, p.empty)
  {
    var p := ParseChunk(sha, b).value;
    ParsedIsWellFormed(sha, b);
    ParsedHolds(sha, b);
    NationalBounds(p.frame, Chunk(p.geometry, p.codes));
    RecordReads(sha, p.frame, Chunk(p.geometry, p.codes), p.empty);
    SameRecord(b, Flagged(sha, p.frame, Chunk(p.geometry, p.codes), p.empty), p, 2 * |p.codes|);
  }

  lemma SameRecord(b: Bytes, record: Bytes, p: ParsedChunk, n: nat)
    requires HEADER_BYTES <= |b| == |record| <= CHUNK_LIMIT && b[HEADER_BYTES..] == record[HEADER_BYTES..]
    requires |p.frame.content| == 32 && -TWO_63 <= p.frame.time < TWO_63 && |p.hash| == 32
    requires HeaderHolds(b, p.frame, p.geometry, p.empty, n, p.hash)
    requires HeaderHolds(record, p.frame, p.geometry, p.empty, n, p.hash)
    ensures b == record
  {
    HeaderIsDetermined(b, record, p.frame, p.geometry, p.empty, n, p.hash);
    assert b == b[..HEADER_BYTES] + b[HEADER_BYTES..] && record == record[..HEADER_BYTES] + record[HEADER_BYTES..];
  }

  // So a buffer parses exactly when it is a well-formed chunk's record, and no
  // two buffers parse alike.
  lemma ParsesExactly(sha: Digest, b: Bytes, f: FrameIdentity, chunk: Chunk, empty: bool)
    requires IsDigest(sha) && WellFormed(f, chunk) && (empty ==> DrawsNothing(chunk.codes))
    ensures b == Flagged(sha, f, chunk, empty) <==>
            && ParseChunk(sha, b).Ok?
            && var p := ParseChunk(sha, b).value;
               p.frame == f && Chunk(p.geometry, p.codes) == chunk && p.empty == empty
  {
    FlaggedParses(sha, f, chunk, empty);
    if ParseChunk(sha, b).Ok? { ParsedIsRecord(sha, b); }
  }
}
