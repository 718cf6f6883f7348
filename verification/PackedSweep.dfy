// Encoding and validating PackedSweep v1 buffers (src-tauri/src/packed_sweep.rs).
module PackedSweep {
  import opened Common
  import opened WireBytes
  import opened SweepLayout

  // SHA-256, of which only the digest's length matters here.
  type Digest = Bytes -> Hash

  // ----- What a buffer says -----

  function RawWidth(wordBits: Byte): nat {
    if wordBits == 8 then 1 else 2
  }

  function LayoutOf(s: Sweep): Layout {
    Layout(|s.radials|, |s.values|, RawWidth(s.wordBits))
  }

  predicate Dimensioned(s: Sweep) {
    && 1 <= |s.radials| <= MAX_RADIALS && 1 <= s.gateCount <= MAX_GATES
    && |s.values| == |s.radials| * s.gateCount && |s.values| <= MAX_CELLS
    && |s.statuses| == |s.raws| == |s.values|
  }

  // What the layout alone asks of a sweep.
  predicate Encodable(s: Sweep) {
    && Dimensioned(s) && |s.icao| == 4 && s.wordBits in {8, 16}
    && (s.wordBits == 8 ==> forall i :: 0 <= i < |s.raws| ==> s.raws[i] < 0x100)
  }

  function KindFields(s: Sweep, total: U32): (fields: seq<Field>) {
    [
      Field(0, MAGIC),
      Field(8, Little32(ENDIAN_MARKER)),
      Field(12, Little16(1)),
      Field(14, Little16(HEADER_BYTES)),
      Field(16, Little32(total)),
      Field(20, Little32(RawWidth(s.wordBits))),  // flag 1 for 8-bit raw codes, 2 for 16-bit
      Field(24, Little16(s.product)),
      Field(26, Little16(s.source)),
      Field(28, [0, 0, 0, 0]),
      Field(32, Little64(s.generation))]
  }

  function ShapeFields(s: Sweep): (fields: seq<Field>)
    requires Encodable(s)
  {
    [
      Field(40, s.normalizedHash[..16]),
      Field(56, s.icao),
      Field(60, [s.elevationNumber, s.wordBits, 1, 1]),
      Field(64, Little16(s.vcp)),
      Field(66, [0, 0]),
      Field(68, Little32(|s.radials|)),
      Field(72, Little32(s.gateCount)),
      Field(76, Little32(|s.values|)),
      Field(80, Little32(s.gateSpacing)),
      Field(84, Little32(s.firstGate))]
  }

  function MetadataFields(s: Sweep): (fields: seq<Field>) {
    [
      Field(88, Little32(s.latitude)),
      Field(92, Little32(s.longitude)),
      Field(96, Little16(Unsigned16(s.altitude))),
      Field(98, Little16(s.tower)),
      Field(100, Little32(s.elevation)),
      Field(104, Little32(s.scale)),
      Field(108, Little32(s.offset))]
  }

  function TimeFields(s: Sweep): (fields: seq<Field>) {
    [
      Field(112, Little64(Unsigned64(s.volumeStart))),
      Field(120, Little64(Unsigned64(s.volumeEnd))),
      Field(128, Little64(Unsigned64(s.sweepStart))),
      Field(136, Little64(Unsigned64(s.sweepEnd))),
      Field(144, s.sourceHash),
      Field(176, s.normalizedHash)]
  }

  ghost predicate Bounded(l: Layout) {
    l.radials <= MAX_RADIALS && l.cells <= MAX_CELLS && l.rawWidth in {1, 2}
  }

  function SectionTable(l: Layout): (fields: seq<Field>) {
    [
      Field(240, Little32(HEADER_BYTES)),
      Field(244, Little32(RADIAL_BYTES * l.radials)),
      Field(248, Little32(l.ValueOffset())),
      Field(252, Little32(4 * l.cells)),
      Field(256, Little32(l.StatusOffset())),
      Field(260, Little32(l.cells)),
      Field(264, Little32(l.RawOffset())),
      Field(268, Little32(l.RawLength())),
      Field(272, Zeros(48))]
  }

  function ArrayFields(s: Sweep): (fields: seq<Field>)
    requires Encodable(s)
  {
    var l := LayoutOf(s);
    [
      Field(HEADER_BYTES, RadialSection(s.radials)),
      Field(l.RadialEnd(), Zeros(l.ValueOffset() - l.RadialEnd())),
      Field(l.ValueOffset(), Words32(s.values)),
      Field(l.ValueEnd(), Zeros(l.StatusOffset() - l.ValueEnd())),
      Field(l.StatusOffset(), s.statuses),
      Field(l.StatusEnd(), Zeros(l.RawOffset() - l.StatusEnd())),
      Field(l.RawOffset(), RawSection(l.rawWidth, s.raws)),
      Field(l.RawEnd(), Zeros(l.Total() - l.RawEnd()))]
  }

  // Everything before the wire hash, and everything after it.
  function Front(s: Sweep): (fields: seq<Field>)
    requires Encodable(s)
  {
    LayoutFits(LayoutOf(s));
    KindFields(s, LayoutOf(s).Total()) + ShapeFields(s) + (MetadataFields(s) + TimeFields(s))
  }

  function Back(s: Sweep): (fields: seq<Field>)
    requires Encodable(s)
  {
    SectionTable(LayoutOf(s)) + ArrayFields(s)
  }

  lemma HeaderTiled(s: Sweep, total: U32)
    requires Encodable(s)
    ensures Tiled(KindFields(s, total), 0, 40) && Tiled(ShapeFields(s), 40, 88)
    ensures Tiled(MetadataFields(s), 88, 112) && Tiled(TimeFields(s), 112, WIRE_HASH)
  {
    AdjacentTiled(KindFields(s, total), 0, 40);
    AdjacentTiled(ShapeFields(s), 40, 88);
    AdjacentTiled(MetadataFields(s), 88, 112);
    AdjacentTiled(TimeFields(s), 112, WIRE_HASH);
  }

  lemma FrontTiled(s: Sweep)
    requires Encodable(s)
    ensures Tiled(Front(s), 0, WIRE_HASH)
  {
    LayoutFits(LayoutOf(s));
    HeaderTiled(s, LayoutOf(s).Total());
    TiledJoins(KindFields(s, LayoutOf(s).Total()), ShapeFields(s), 0, 40, 88);
    TiledJoins(MetadataFields(s), TimeFields(s), 88, 112, WIRE_HASH);
    TiledJoins(KindFields(s, LayoutOf(s).Total()) + ShapeFields(s), MetadataFields(s) + TimeFields(s), 0, 88,
               WIRE_HASH);
  }

  lemma ArraysTiled(s: Sweep)
    requires Encodable(s)
    ensures Tiled(ArrayFields(s), HEADER_BYTES, LayoutOf(s).Total())
  {
    LayoutFits(LayoutOf(s));
    AdjacentTiled(ArrayFields(s), HEADER_BYTES, LayoutOf(s).Total());
  }

  // The sections lie side by side and leave no byte out.
  lemma BackTiled(s: Sweep)
    requires Encodable(s)
    ensures Tiled(Back(s), WIRE_HASH_END, LayoutOf(s).Total())
  {
    AdjacentTiled(SectionTable(LayoutOf(s)), WIRE_HASH_END, HEADER_BYTES);
    ArraysTiled(s);
    TiledJoins(SectionTable(LayoutOf(s)), ArrayFields(s), WIRE_HASH_END, HEADER_BYTES, LayoutOf(s).Total());
  }

  // ----- The buffer of a sweep -----

  lemma AllFit(s: Sweep)
    requires Encodable(s)
    ensures HEADER_BYTES <= LayoutOf(s).Total() < MAX_BYTES
    ensures FitIn(Front(s) + Back(s), 0, LayoutOf(s).Total()) && InOrder(Front(s) + Back(s))
    ensures FitIn(Front(s), 0, WIRE_HASH) && FitIn(Back(s), WIRE_HASH_END, LayoutOf(s).Total())
  {
    LayoutFits(LayoutOf(s));
    FrontTiled(s);
    BackTiled(s);
    TiledFits(Front(s), 0, WIRE_HASH);
    TiledFits(Back(s), WIRE_HASH_END, LayoutOf(s).Total());
    TwoInOrder(Front(s), Back(s), LayoutOf(s).Total());
  }

  lemma TwoInOrder(i: seq<Field>, j: seq<Field>, to: nat)
    requires InOrder(i) && InOrder(j) && FitIn(i, 0, WIRE_HASH) && FitIn(j, WIRE_HASH_END, to) && WIRE_HASH_END <= to
    ensures InOrder(i + j) && FitIn(i + j, 0, to)
  {
  }

  function Body(s: Sweep): (b: Bytes)
    requires Encodable(s)
    ensures |b| == LayoutOf(s).Total() && HEADER_BYTES <= |b| < MAX_BYTES
  {
    AllFit(s);
    PutAll(Zeros(LayoutOf(s).Total()), Front(s) + Back(s))
  }

  function WireHash(sha: Digest, b: Bytes): Hash
    requires |b| >= HEADER_BYTES
  {
    sha(b[..WIRE_HASH] + b[WIRE_HASH_END..])
  }

  function Encoded(sha: Digest, s: Sweep): (b: Bytes)
    requires Encodable(s)
    ensures |b| == LayoutOf(s).Total() && HEADER_BYTES <= |b| < MAX_BYTES
  {
    Put(Body(s), Field(WIRE_HASH, WireHash(sha, Body(s))))
  }

  // Every field is where its table says, and the hash covers the rest.
  ghost predicate Carries(sha: Digest, b: Bytes, s: Sweep)
    requires Encodable(s)
  {
    && |b| == LayoutOf(s).Total() && |b| >= HEADER_BYTES && Reads(b, Front(s)) && Reads(b, Back(s))
    && b[WIRE_HASH..WIRE_HASH_END] == WireHash(sha, b)
  }

  lemma HashLeavesRest(b: Bytes, hash: Hash)
    requires |b| >= HEADER_BYTES
    ensures var c := Put(b, Field(WIRE_HASH, hash));
            && c[..WIRE_HASH] == b[..WIRE_HASH] && c[WIRE_HASH_END..] == b[WIRE_HASH_END..]
            && c[WIRE_HASH..WIRE_HASH_END] == hash
  {
  }

  lemma ReadsAfterHash(b: Bytes, hash: Hash, fields: seq<Field>)
    requires |b| >= HEADER_BYTES && Reads(b, fields)
    requires forall i :: 0 <= i < |fields| ==> fields[i].End() <= WIRE_HASH || WIRE_HASH_END <= fields[i].offset
    ensures Reads(Put(b, Field(WIRE_HASH, hash)), fields)
  {
    forall i | 0 <= i < |fields| ensures ReadsField(Put(b, Field(WIRE_HASH, hash)), fields[i]) {
      assert ReadsField(b, fields[i]);
      PutElsewhere(b, Field(WIRE_HASH, hash), fields[i].offset, fields[i].End());
    }
  }

  lemma ReadsSplit(b: Bytes, i: seq<Field>, j: seq<Field>)
    ensures Reads(b, i + j) <==> Reads(b, i) && Reads(b, j)
  {
    var all := i + j;
    assert (forall n :: 0 <= n < |i| ==> all[n] == i[n]) && (forall n :: 0 <= n < |j| ==> all[|i| + n] == j[n]);
    if Reads(b, all) {
      forall n | 0 <= n < |j| ensures ReadsField(b, j[n]) { assert ReadsField(b, all[|i| + n]); }
    }
  }

  lemma EncodedCarries(sha: Digest, s: Sweep)
    requires Encodable(s)
    ensures Carries(sha, Encoded(sha, s), s)
  {
    var body := Body(s);
    var hash := WireHash(sha, body);
    AllFit(s);
    FieldsReadBack(Zeros(LayoutOf(s).Total()), Front(s) + Back(s));
    ReadsSplit(body, Front(s), Back(s));
    ReadsAfterHash(body, hash, Front(s));
    ReadsAfterHash(body, hash, Back(s));
    HashLeavesRest(body, hash);
  }

  // Only one buffer carries a sweep.
  lemma CarrierIsUnique(sha: Digest, b: Bytes, c: Bytes, s: Sweep)
    requires Encodable(s) && Carries(sha, b, s) && Carries(sha, c, s)
    ensures b == c
  {
    FrontTiled(s);
    BackTiled(s);
    TilesDetermine(b, c, Front(s), 0, WIRE_HASH);
    TilesDetermine(b, c, Back(s), WIRE_HASH_END, |b|);
    assert b[..WIRE_HASH] == b[0..WIRE_HASH] && c[..WIRE_HASH] == c[0..WIRE_HASH];
    assert b[WIRE_HASH_END..] == b[WIRE_HASH_END..|b|] && c[WIRE_HASH_END..] == c[WIRE_HASH_END..|c|];
    assert b == b[..WIRE_HASH] + b[WIRE_HASH..WIRE_HASH_END] + b[WIRE_HASH_END..];
    assert c == c[..WIRE_HASH] + c[WIRE_HASH..WIRE_HASH_END] + c[WIRE_HASH_END..];
  }

  // ----- Reading a buffer -----

  function LayoutIn(b: Bytes): Layout
    requires |b| >= HEADER_BYTES
  {
    Layout(LittleAt32(b, 68), LittleAt32(b, 76), RawWidth(b[61]))
  }

  // The buffer is as long as the arrays its header announces.
  predicate FitsArrays(b: Bytes) {
    && |b| >= HEADER_BYTES && LittleAt32(b, 68) <= MAX_RADIALS && LittleAt32(b, 76) <= MAX_CELLS
    && LayoutIn(b).Total() == |b|
  }

  function Decode(b: Bytes): (s: Sweep)
    requires FitsArrays(b)
    ensures LayoutOf(s) == LayoutIn(b)
  {
    var l := LayoutIn(b);
    LayoutFits(l);
    Sweep(
      LittleAt64(b, 32), LittleAt16(b, 24), LittleAt16(b, 26), b[56..60], b[60], b[61], LittleAt16(b, 64),
      LittleAt32(b, 72), LittleAt32(b, 80), LittleAt32(b, 84), LittleAt32(b, 88), LittleAt32(b, 92),
      Signed16(LittleAt16(b, 96)), LittleAt16(b, 98), LittleAt32(b, 100), LittleAt32(b, 104), LittleAt32(b, 108),
      Signed64(LittleAt64(b, 112)), Signed64(LittleAt64(b, 120)), Signed64(LittleAt64(b, 128)),
      Signed64(LittleAt64(b, 136)), b[144..176], b[176..208],
      RadialsAt(b, HEADER_BYTES, l.radials), Words32At(b, l.ValueOffset(), l.cells),
      b[l.StatusOffset()..l.StatusOffset() + l.cells], RawsAt(b, l.RawOffset(), l.cells, l.rawWidth))
  }

  // The header as the validator reads it, for a sweep.
  predicate HasKind(b: Bytes, s: Sweep)
    requires |b| >= HEADER_BYTES
  {
    && b[0..8] == MAGIC && LittleAt32(b, 8) == ENDIAN_MARKER && LittleAt16(b, 12) == 1
    && LittleAt16(b, 14) == HEADER_BYTES
    && LittleAt32(b, 16) == |b| && LittleAt32(b, 20) == RawWidth(s.wordBits) && LittleAt16(b, 24) == s.product
    && LittleAt16(b, 26) == s.source && b[28..32] == [0, 0, 0, 0] && LittleAt64(b, 32) == s.generation
  }

  predicate HasShape(b: Bytes, s: Sweep)
    requires |b| >= HEADER_BYTES && Encodable(s)
  {
    && b[40..56] == s.normalizedHash[..16] && b[56..60] == s.icao && b[60..64] == [s.elevationNumber, s.wordBits, 1, 1]
    && LittleAt16(b, 64) == s.vcp && b[66..68] == [0, 0] && LittleAt32(b, 68) == |s.radials|
    && LittleAt32(b, 72) == s.gateCount
    && LittleAt32(b, 76) == |s.values| && LittleAt32(b, 80) == s.gateSpacing && LittleAt32(b, 84) == s.firstGate
  }

  predicate HasMetadata(b: Bytes, s: Sweep)
    requires |b| >= HEADER_BYTES
  {
    && LittleAt32(b, 88) == s.latitude && LittleAt32(b, 92) == s.longitude && Signed16(LittleAt16(b, 96)) == s.altitude
    && LittleAt16(b, 98) == s.tower && LittleAt32(b, 100) == s.elevation && LittleAt32(b, 104) == s.scale
    && LittleAt32(b, 108) == s.offset
  }

  predicate HasTimes(b: Bytes, s: Sweep)
    requires |b| >= HEADER_BYTES
  {
    && Signed64(LittleAt64(b, 112)) == s.volumeStart && Signed64(LittleAt64(b, 120)) == s.volumeEnd
    && Signed64(LittleAt64(b, 128)) == s.sweepStart && Signed64(LittleAt64(b, 136)) == s.sweepEnd
    && b[144..176] == s.sourceHash && b[176..208] == s.normalizedHash
  }

  predicate HasSections(b: Bytes, l: Layout)
    requires |b| >= HEADER_BYTES
  {
    && LittleAt32(b, 240) == HEADER_BYTES && LittleAt32(b, 244) == RADIAL_BYTES * l.radials
    && LittleAt32(b, 248) == l.ValueOffset() && LittleAt32(b, 252) == 4 * l.cells
    && LittleAt32(b, 256) == l.StatusOffset() && LittleAt32(b, 260) == l.cells
    && LittleAt32(b, 264) == l.RawOffset() && LittleAt32(b, 268) == l.RawLength() && AllZero(b[272..320])
  }

  predicate HasArrays(b: Bytes, s: Sweep)
    requires Encodable(s) && |b| == LayoutOf(s).Total()
  {
    var l := LayoutOf(s);
    LayoutFits(l);
    && RadialsAt(b, HEADER_BYTES, l.radials) == s.radials && RadialsReserved(b, HEADER_BYTES, l.radials)
    && AllZero(b[l.RadialEnd()..l.ValueOffset()]) && Words32At(b, l.ValueOffset(), l.cells) == s.values
    && AllZero(b[l.ValueEnd()..l.StatusOffset()]) && b[l.StatusOffset()..l.StatusEnd()] == s.statuses
    && AllZero(b[l.StatusEnd()..l.RawOffset()]) && RawsAt(b, l.RawOffset(), l.cells, l.rawWidth) == s.raws
    && AllZero(b[l.RawEnd()..l.Total()])
  }

  lemma KindReads(b: Bytes, s: Sweep)
    requires HEADER_BYTES <= |b| < MAX_BYTES
    ensures Reads(b, KindFields(s, |b|)) <==> HasKind(b, s)
  {
    var f := KindFields(s, |b|);
    Little32Field(b, 8, ENDIAN_MARKER);
    Little16Field(b, 12, 1);
    Little16Field(b, 14, HEADER_BYTES);
    Little32Field(b, 16, |b|);
    Little32Field(b, 20, RawWidth(s.wordBits));
    Little16Field(b, 24, s.product);
    Little16Field(b, 26, s.source);
    Little64Field(b, 32, s.generation);
    ReadsTen(b, f);
  }

  lemma ShapeReads(b: Bytes, s: Sweep)
    requires |b| >= HEADER_BYTES && Encodable(s)
    ensures Reads(b, ShapeFields(s)) <==> HasShape(b, s)
  {
    Little16Field(b, 64, s.vcp);
    Little32Field(b, 68, |s.radials|);
    Little32Field(b, 72, s.gateCount);
    Little32Field(b, 76, |s.values|);
    Little32Field(b, 80, s.gateSpacing);
    Little32Field(b, 84, s.firstGate);
    ReadsTen(b, ShapeFields(s));
  }

  lemma ReadsTen(b: Bytes, f: seq<Field>)
    requires |f| == 10
    ensures Reads(b, f) <==>
            && ReadsField(b, f[0]) && ReadsField(b, f[1]) && ReadsField(b, f[2]) && ReadsField(b, f[3])
            && ReadsField(b, f[4])
            && ReadsField(b, f[5]) && ReadsField(b, f[6]) && ReadsField(b, f[7]) && ReadsField(b, f[8])
            && ReadsField(b, f[9])
  {
  }

  lemma Signed16Is(v: U16, i: I16)
    ensures Signed16(v) == i <==> v == Unsigned16(i)
  {
  }

  lemma MetadataReads(b: Bytes, s: Sweep)
    requires |b| >= HEADER_BYTES
    ensures Reads(b, MetadataFields(s)) <==> HasMetadata(b, s)
  {
    Little32Field(b, 88, s.latitude);
    Little32Field(b, 92, s.longitude);
    Little16Field(b, 96, Unsigned16(s.altitude));
    Signed16Is(LittleAt16(b, 96), s.altitude);
    Little16Field(b, 98, s.tower);
    Little32Field(b, 100, s.elevation);
    Little32Field(b, 104, s.scale);
    Little32Field(b, 108, s.offset);
    ReadsSeven(b, MetadataFields(s));
  }

  lemma ReadsSeven(b: Bytes, f: seq<Field>)
    requires |f| == 7
    ensures Reads(b, f) <==>
            && ReadsField(b, f[0]) && ReadsField(b, f[1]) && ReadsField(b, f[2]) && ReadsField(b, f[3])
            && ReadsField(b, f[4])
            && ReadsField(b, f[5]) && ReadsField(b, f[6])
  {
  }

  lemma TimesRead(b: Bytes, s: Sweep)
    requires |b| >= HEADER_BYTES
    ensures Reads(b, TimeFields(s)) <==> HasTimes(b, s)
  {
    var f := TimeFields(s);
    TimeReads(b, 112, s.volumeStart);
    TimeReads(b, 120, s.volumeEnd);
    TimeReads(b, 128, s.sweepStart);
    TimeReads(b, 136, s.sweepEnd);
    assert Reads(b, f) <==> ReadsField(b, f[0]) && ReadsField(b, f[1]) && ReadsField(b, f[2]) && ReadsField(b, f[3])
                            && ReadsField(b, f[4]) && ReadsField(b, f[5]);
  }

  lemma TimeReads(b: Bytes, offset: nat, time: I64)
    requires offset + 8 <= |b|
    ensures ReadsField(b, Field(offset, Little64(Unsigned64(time)))) <==> Signed64(LittleAt64(b, offset)) == time
  {
    Little64Field(b, offset, Unsigned64(time));
    SignedIs(LittleAt64(b, offset), time);
  }

  lemma ZerosRead(b: Bytes, from: nat, to: nat)
    requires from <= to <= |b|
    ensures ReadsField(b, Field(from, Zeros(to - from))) <==> AllZero(b[from..to])
  {
    if AllZero(b[from..to]) { assert b[from..to] == Zeros(to - from); }
  }

  lemma SectionsRead(b: Bytes, l: Layout)
    requires |b| >= HEADER_BYTES && Bounded(l)
    ensures Reads(b, SectionTable(l)) <==> HasSections(b, l)
  {
    var f := SectionTable(l);
    LayoutFits(l);
    Little32Field(b, 240, HEADER_BYTES);
    Little32Field(b, 244, RADIAL_BYTES * l.radials);
    Little32Field(b, 248, l.ValueOffset());
    Little32Field(b, 252, 4 * l.cells);
    Little32Field(b, 256, l.StatusOffset());
    Little32Field(b, 260, l.cells);
    Little32Field(b, 264, l.RawOffset());
    Little32Field(b, 268, l.RawLength());
    ZerosRead(b, 272, 320);
    assert Reads(b, f) <==> ReadsField(b, f[0]) && ReadsField(b, f[1]) && ReadsField(b, f[2]) && ReadsField(b, f[3])
                            && ReadsField(b, f[4]) && ReadsField(b, f[5]) && ReadsField(b, f[6]) && ReadsField(b, f[7])
                            && ReadsField(b, f[8]);
  }

  lemma ReadsEight(b: Bytes, f: seq<Field>)
    requires |f| == 8
    ensures Reads(b, f) <==>
            && ReadsField(b, f[0]) && ReadsField(b, f[1]) && ReadsField(b, f[2]) && ReadsField(b, f[3])
            && ReadsField(b, f[4])
            && ReadsField(b, f[5]) && ReadsField(b, f[6]) && ReadsField(b, f[7])
  {
  }

  lemma FrontPaddingReads(b: Bytes, s: Sweep)
    requires Encodable(s) && |b| == LayoutOf(s).Total()
    ensures var f, l := ArrayFields(s), LayoutOf(s);
            && l.RadialEnd() <= l.ValueOffset() <= l.ValueEnd() <= l.StatusOffset() <= |b|
            && (ReadsField(b, f[1]) <==> AllZero(b[l.RadialEnd()..l.ValueOffset()]))
            && (ReadsField(b, f[3]) <==> AllZero(b[l.ValueEnd()..l.StatusOffset()]))
  {
    var l := LayoutOf(s);
    LayoutFits(l);
    ZerosRead(b, l.RadialEnd(), l.ValueOffset());
    ZerosRead(b, l.ValueEnd(), l.StatusOffset());
  }

  lemma BackPaddingReads(b: Bytes, s: Sweep)
    requires Encodable(s) && |b| == LayoutOf(s).Total()
    ensures var f, l := ArrayFields(s), LayoutOf(s);
            && l.StatusEnd() <= l.RawOffset() <= l.RawEnd() <= l.Total()
            && (ReadsField(b, f[5]) <==> AllZero(b[l.StatusEnd()..l.RawOffset()]))
            && (ReadsField(b, f[7]) <==> AllZero(b[l.RawEnd()..l.Total()]))
  {
    var l := LayoutOf(s);
    LayoutFits(l);
    ZerosRead(b, l.StatusEnd(), l.RawOffset());
    ZerosRead(b, l.RawEnd(), l.Total());
  }

  lemma RadialsRead(b: Bytes, s: Sweep)
    requires Encodable(s) && |b| == LayoutOf(s).Total()
    ensures var f, l := ArrayFields(s), LayoutOf(s);
            && l.RadialEnd() <= |b|
            && (ReadsField(b, f[0]) <==>
                RadialsAt(b, HEADER_BYTES, l.radials) == s.radials && RadialsReserved(b, HEADER_BYTES, l.radials))
  {
    var l := LayoutOf(s);
    LayoutFits(l);
    RadialSectionReads(b, HEADER_BYTES, s.radials);
  }

  lemma ValuesRead(b: Bytes, s: Sweep)
    requires Encodable(s) && |b| == LayoutOf(s).Total()
    ensures var f, l := ArrayFields(s), LayoutOf(s);
            && l.ValueEnd() <= |b| && (ReadsField(b, f[2]) <==> Words32At(b, l.ValueOffset(), l.cells) == s.values)
  {
    var l := LayoutOf(s);
    LayoutFits(l);
    Words32Reads(b, l.ValueOffset(), s.values);
  }

  lemma CodesRead(b: Bytes, s: Sweep)
    requires Encodable(s) && |b| == LayoutOf(s).Total()
    ensures var f, l := ArrayFields(s), LayoutOf(s);
            && l.StatusEnd() <= |b| && l.RawEnd() <= |b|
            && (ReadsField(b, f[4]) <==> b[l.StatusOffset()..l.StatusEnd()] == s.statuses)
            && (ReadsField(b, f[6]) <==> RawsAt(b, l.RawOffset(), l.cells, l.rawWidth) == s.raws)
  {
    var l := LayoutOf(s);
    LayoutFits(l);
    RawSectionReads(b, l.RawOffset(), s.raws, l.rawWidth);
  }

  lemma ArraysRead(b: Bytes, s: Sweep)
    requires Encodable(s) && |b| == LayoutOf(s).Total()
    ensures Reads(b, ArrayFields(s)) <==> HasArrays(b, s)
  {
    FrontPaddingReads(b, s);
    BackPaddingReads(b, s);
    RadialsRead(b, s);
    ValuesRead(b, s);
    CodesRead(b, s);
    ReadsEight(b, ArrayFields(s));
  }

  // A buffer carries a sweep exactly when the validator reads it so.
  ghost predicate Has(sha: Digest, b: Bytes, s: Sweep)
    requires Encodable(s)
  {
    && |b| == LayoutOf(s).Total() && HEADER_BYTES <= |b| < MAX_BYTES && HasKind(b, s) && HasShape(b, s)
    && HasMetadata(b, s)
    && HasTimes(b, s) && HasSections(b, LayoutOf(s)) && HasArrays(b, s)
    && b[WIRE_HASH..WIRE_HASH_END] == WireHash(sha, b)
  }

  lemma CarriesIsHas(sha: Digest, b: Bytes, s: Sweep)
    requires Encodable(s)
    ensures Carries(sha, b, s) <==> Has(sha, b, s)
  {
    LayoutFits(LayoutOf(s));
    if |b| == LayoutOf(s).Total() {
      ReadsSplit(b, KindFields(s, |b|) + ShapeFields(s), MetadataFields(s) + TimeFields(s));
      ReadsSplit(b, KindFields(s, |b|), ShapeFields(s));
      ReadsSplit(b, MetadataFields(s), TimeFields(s));
      ReadsSplit(b, SectionTable(LayoutOf(s)), ArrayFields(s));
      KindReads(b, s);
      ShapeReads(b, s);
      MetadataReads(b, s);
      TimesRead(b, s);
      SectionsRead(b, LayoutOf(s));
      ArraysRead(b, s);
    }
  }
}
