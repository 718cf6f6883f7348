// PackedSweep v1 buffers: their sections and their bytes (src-tauri/src/packed_sweep.rs).
// Floating-point numbers are their 32-bit patterns.
module SweepLayout {
  import opened Common
  import opened WireBytes

  const HEADER_BYTES: nat := 320
  const RADIAL_BYTES: nat := 24
  const MAX_BYTES: nat := 32 * 1024 * 1024
  const MAX_RADIALS: nat := 2048
  const MAX_GATES: nat := 4096
  const MAX_CELLS: nat := 4194304
  const MAGIC: Bytes := [0x4d, 0x53, 0x54, 0x52, 0x53, 0x57, 0x50, 0x31]  // "MSTRSWP1"
  const ENDIAN_MARKER: nat := 0x0102_0304
  const WIRE_HASH: nat := 208
  const WIRE_HASH_END: nat := 240

  const STORM_RELATIVE_VELOCITY: nat := 3
  const LEVEL3_N0S: nat := 4

  type U16 = v: nat | v < 0x1_0000
  type U32 = v: nat | v < 0x1_0000_0000
  type U64 = v: nat | v < 0x1_0000_0000_0000_0000
  type I64 = v: int | -TWO_63 <= v < TWO_63
  type I16 = v: int | -0x8000 <= v < 0x8000
  type Hash = b: Bytes | |b| == 32 witness Zeros(32)

  function Unsigned16(i: I16): U16 { if i < 0 then i + 0x1_0000 else i }

  function Signed16(v: U16): (i: I16)
    ensures Unsigned16(i) == v
  {
    if v < 0x8000 then v else v - 0x1_0000
  }

  datatype Radial = Radial(number: U16, azimuth: U32, beamWidth: U32, elevation: U32, collectedAt: I64)

  // The fields of a sweep a buffer carries. A product of 1 to 3 and a source of
  // 1 to 4 are known; source 0 stands for any other name.
  datatype Sweep = Sweep(
    generation: U64, product: U16, source: U16, icao: Bytes, elevationNumber: Byte, wordBits: Byte, vcp: U16,
    gateCount: U32, gateSpacing: U32, firstGate: U32, latitude: U32, longitude: U32, altitude: I16, tower: U16,
    elevation: U32, scale: U32, offset: U32, volumeStart: I64, volumeEnd: I64, sweepStart: I64, sweepEnd: I64,
    sourceHash: Hash, normalizedHash: Hash, radials: seq<Radial>, values: seq<U32>, statuses: seq<Byte>,
    raws: seq<U16>)

  // ----- Sections -----

  function Align8(n: nat): (a: nat)
    ensures n <= a < n + 8 && a % 8 == 0
  {
    (n + 7) / 8 * 8
  }

  datatype Layout = Layout(radials: nat, cells: nat, rawWidth: nat) {
    function RadialEnd(): nat { HEADER_BYTES + RADIAL_BYTES * radials }
    function ValueOffset(): nat { Align8(RadialEnd()) }
    function ValueEnd(): nat { ValueOffset() + 4 * cells }
    function StatusOffset(): nat { Align8(ValueEnd()) }
    function StatusEnd(): nat { StatusOffset() + cells }
    function RawOffset(): nat { Align8(StatusEnd()) }
    function RawLength(): nat { if rawWidth == 1 then cells else 2 * cells }
    function RawEnd(): nat { RawOffset() + RawLength() }
    function Total(): nat { Align8(RawEnd()) }
  }

  // Within the bounds on radials and cells the sections follow one another,
  // aligned, and the whole stays under the limit: no length overflows.
  lemma LayoutFits(l: Layout)
    requires l.radials <= MAX_RADIALS && l.cells <= MAX_CELLS && l.rawWidth in {1, 2}
    ensures HEADER_BYTES <= l.RadialEnd() <= l.ValueOffset() <= l.ValueEnd() <= l.StatusOffset()
    ensures l.StatusOffset() <= l.StatusEnd() <= l.RawOffset() <= l.RawEnd() <= l.Total() < MAX_BYTES
    ensures l.ValueOffset() % 8 == 0 && l.StatusOffset() % 8 == 0 && l.RawOffset() % 8 == 0 && l.Total() % 8 == 0
  {
  }

  // ----- Arrays -----

  function RadialBytes(r: Radial): (b: Bytes)
    ensures |b| == RADIAL_BYTES
  {
    Little16(r.number) + [0, 0] + Little32(r.azimuth) + Little32(r.beamWidth) + Little32(r.elevation)
    + Little64(Unsigned64(r.collectedAt))
  }

  function RadialAt(b: Bytes, offset: nat): Radial
    requires offset + RADIAL_BYTES <= |b|
  {
    Radial(LittleAt16(b, offset), LittleAt32(b, offset + 4), LittleAt32(b, offset + 8), LittleAt32(b, offset + 12),
           Signed64(LittleAt64(b, offset + 16)))
  }

  lemma RadialField(b: Bytes, offset: nat, r: Radial)
    requires offset + RADIAL_BYTES <= |b|
    ensures b[offset..offset + RADIAL_BYTES] == RadialBytes(r) <==>
            RadialAt(b, offset) == r && ReservedAt(b, offset)
  {
    var fields := [Field(offset, Little16(r.number)), Field(offset + 2, [0, 0]), Field(offset + 4, Little32(r.azimuth)),
                   Field(offset + 8, Little32(r.beamWidth)), Field(offset + 12, Little32(r.elevation)),
                   Field(offset + 16, Little64(Unsigned64(r.collectedAt)))];
    Little16Field(b, offset, r.number);
    Little32Field(b, offset + 4, r.azimuth);
    Little32Field(b, offset + 8, r.beamWidth);
    Little32Field(b, offset + 12, r.elevation);
    Little64Field(b, offset + 16, Unsigned64(r.collectedAt));
    SignedIs(LittleAt64(b, offset + 16), r.collectedAt);
    SixSlices(b, offset, RadialBytes(r), fields);
  }

  lemma SignedIs(v: U64, i: I64)
    ensures Signed64(v) == i <==> v == Unsigned64(i)
  {
  }

  // A 24-byte record is its six slices.
  lemma SixSlices(b: Bytes, o: nat, r: Bytes, fields: seq<Field>)
    requires o + 24 <= |b| && |fields| == 6
    requires fields[0].offset == o && |fields[0].data| == 2 && fields[1].offset == o + 2 && |fields[1].data| == 2
    requires fields[2].offset == o + 4 && |fields[2].data| == 4 && fields[3].offset == o + 8 && |fields[3].data| == 4
    requires fields[4].offset == o + 12 && |fields[4].data| == 4 && fields[5].offset == o + 16 && |fields[5].data| == 8
    requires r == fields[0].data + fields[1].data + fields[2].data + fields[3].data + fields[4].data + fields[5].data
    ensures b[o..o + 24] == r <==>
            && ReadsField(b, fields[0]) && ReadsField(b, fields[1]) && ReadsField(b, fields[2])
            && ReadsField(b, fields[3]) && ReadsField(b, fields[4]) && ReadsField(b, fields[5])
  {
    var two := fields[0].data + fields[1].data;
    var three := two + fields[2].data;
    var four := three + fields[3].data;
    var five := four + fields[4].data;
    TwoSlices(b, o, o + 2, o + 4, fields[0].data, fields[1].data);
    TwoSlices(b, o, o + 4, o + 8, two, fields[2].data);
    TwoSlices(b, o, o + 8, o + 12, three, fields[3].data);
    TwoSlices(b, o, o + 12, o + 16, four, fields[4].data);
    TwoSlices(b, o, o + 16, o + 24, five, fields[5].data);
  }

  lemma TwoSlices(b: Bytes, from: nat, middle: nat, to: nat, p: Bytes, q: Bytes)
    requires from <= middle <= to <= |b| && |p| == middle - from
    ensures b[from..to] == p + q <==> b[from..middle] == p && b[middle..to] == q
  {
    assert b[from..to] == b[from..middle] + b[middle..to];
    SplitEqual(b[from..middle], b[middle..to], p, q);
  }

  function RadialSection(radials: seq<Radial>): (b: Bytes)
    ensures |b| == RADIAL_BYTES * |radials|
  {
    if radials == [] then [] else RadialSection(radials[..|radials| - 1]) + RadialBytes(radials[|radials| - 1])
  }

  function Words32(words: seq<U32>): (b: Bytes)
    ensures |b| == 4 * |words|
  {
    if words == [] then [] else Words32(words[..|words| - 1]) + Little32(words[|words| - 1])
  }

  function Words16(words: seq<U16>): (b: Bytes)
    ensures |b| == 2 * |words|
  {
    if words == [] then [] else Words16(words[..|words| - 1]) + Little16(words[|words| - 1])
  }

  function RawSection(rawWidth: nat, raws: seq<U16>): (b: Bytes) {
    if rawWidth == 1 then seq(|raws|, i requires 0 <= i < |raws| => raws[i] % 0x100) else Words16(raws)
  }

  function RadialsAt(b: Bytes, offset: nat, n: nat): (radials: seq<Radial>)
    requires offset + RADIAL_BYTES * n <= |b|
    ensures |radials| == n
  {
    seq(n, i requires 0 <= i < n => RadialAt(b, offset + RADIAL_BYTES * i))
  }

  predicate RadialsReserved(b: Bytes, offset: nat, n: nat)
    requires offset + RADIAL_BYTES * n <= |b|
  {
    forall i: nat :: i < n ==> ReservedAt(b, offset + RADIAL_BYTES * i)
  }

  predicate ReservedAt(b: Bytes, offset: nat)
    requires offset + RADIAL_BYTES <= |b|
  {
    b[offset + 2] == 0 && b[offset + 3] == 0
  }

  function Words32At(b: Bytes, offset: nat, n: nat): (words: seq<U32>)
    requires offset + 4 * n <= |b|
    ensures |words| == n
  {
    seq(n, i requires 0 <= i < n => LittleAt32(b, offset + 4 * i))
  }

  function RawsAt(b: Bytes, offset: nat, n: nat, rawWidth: nat): (raws: seq<U16>)
    requires offset + (if rawWidth == 1 then n else 2 * n) <= |b|
    ensures |raws| == n
  {
    seq(n, i requires 0 <= i < n => if rawWidth == 1 then b[offset + i] as int else LittleAt16(b, offset + 2 * i))
  }

  ghost predicate RadialsRead(b: Bytes, offset: nat, radials: seq<Radial>)
    requires offset + RADIAL_BYTES * |radials| <= |b|
  {
    RadialsAt(b, offset, |radials|) == radials && RadialsReserved(b, offset, |radials|)
  }

  // An array section holds an array exactly when it reads as it.
  lemma {:induction false} RadialSectionReads(b: Bytes, offset: nat, radials: seq<Radial>)
    requires offset + RADIAL_BYTES * |radials| <= |b|
    ensures b[offset..offset + RADIAL_BYTES * |radials|] == RadialSection(radials) <==> RadialsRead(b, offset, radials)
  {
    if radials != [] {
      var n := |radials| - 1;
      var end := offset + RADIAL_BYTES * n;
      RadialSectionReads(b, offset, radials[..n]);
      NextRadial(b, offset, radials, end);
      assert RadialSection(radials) == RadialSection(radials[..n]) + RadialBytes(radials[n]);
      assert offset + RADIAL_BYTES * |radials| == end + RADIAL_BYTES;
    }
  }

  lemma NextRadial(b: Bytes, offset: nat, radials: seq<Radial>, end: nat)
    requires radials != [] && end == offset + RADIAL_BYTES * (|radials| - 1) && end + RADIAL_BYTES <= |b|
    ensures b[offset..end + RADIAL_BYTES]
            == RadialSection(radials[..|radials| - 1]) + RadialBytes(radials[|radials| - 1]) <==>
            b[offset..end] == RadialSection(radials[..|radials| - 1])
            && RadialAt(b, end) == radials[|radials| - 1] && ReservedAt(b, end)
    ensures RadialsRead(b, offset, radials) <==>
            && RadialsRead(b, offset, radials[..|radials| - 1]) && RadialAt(b, end) == radials[|radials| - 1]
            && ReservedAt(b, end)
  {
    var n := |radials| - 1;
    TwoSlices(b, offset, end, end + RADIAL_BYTES, RadialSection(radials[..n]), RadialBytes(radials[n]));
    RadialField(b, end, radials[n]);
    RadialsSplit(b, offset, radials);
  }

  lemma RadialsSplit(b: Bytes, offset: nat, radials: seq<Radial>)
    requires radials != [] && offset + RADIAL_BYTES * |radials| <= |b|
    ensures var n := |radials| - 1;
            && (RadialsAt(b, offset, n + 1) == radials <==>
                RadialsAt(b, offset, n) == radials[..n] && RadialAt(b, offset + RADIAL_BYTES * n) == radials[n])
            && (RadialsReserved(b, offset, n + 1) <==>
                RadialsReserved(b, offset, n) && ReservedAt(b, offset + RADIAL_BYTES * n))
  {
    var n := |radials| - 1;
    var last := RadialAt(b, offset + RADIAL_BYTES * n);
    SplitEqual(RadialsAt(b, offset, n), [last], radials[..n], [radials[n]]);
    assert RadialsAt(b, offset, n + 1) == RadialsAt(b, offset, n) + [last];
    assert radials == radials[..n] + [radials[n]];
  }

  lemma SplitEqual<T>(a: seq<T>, b: seq<T>, c: seq<T>, d: seq<T>)
    requires |a| == |c|
    ensures a + b == c + d <==> a == c && b == d
  {
    if a + b == c + d {
      assert (a + b)[..|a|] == a && (c + d)[..|a|] == c && (a + b)[|a|..] == b && (c + d)[|a|..] == d;
    }
  }

  lemma Words32Split(b: Bytes, offset: nat, words: seq<U32>)
    requires words != [] && offset + 4 * |words| <= |b|
    ensures var n := |words| - 1;
            Words32At(b, offset, n + 1) == words <==>
              Words32At(b, offset, n) == words[..n] && LittleAt32(b, offset + 4 * n) == words[n]
  {
    var n := |words| - 1;
    var last := LittleAt32(b, offset + 4 * n);
    SplitEqual(Words32At(b, offset, n), [last], words[..n], [words[n]]);
    assert Words32At(b, offset, n + 1) == Words32At(b, offset, n) + [last];
    assert words == words[..n] + [words[n]];
  }

  lemma {:induction false} Words32Reads(b: Bytes, offset: nat, words: seq<U32>)
    requires offset + 4 * |words| <= |b|
    ensures b[offset..offset + 4 * |words|] == Words32(words) <==> Words32At(b, offset, |words|) == words
  {
    if words != [] {
      var n := |words| - 1;
      var end := offset + 4 * n;
      Words32Reads(b, offset, words[..n]);
      Little32Field(b, end, words[n]);
      TwoSlices(b, offset, end, end + 4, Words32(words[..n]), Little32(words[n]));
      Words32Split(b, offset, words);
      assert Words32(words) == Words32(words[..n]) + Little32(words[n]) && offset + 4 * |words| == end + 4;
    }
  }

  lemma Words16Split(b: Bytes, offset: nat, words: seq<U16>)
    requires words != [] && offset + 2 * |words| <= |b|
    ensures var n := |words| - 1;
            RawsAt(b, offset, n + 1, 2) == words <==>
              RawsAt(b, offset, n, 2) == words[..n] && LittleAt16(b, offset + 2 * n) == words[n]
  {
    var n := |words| - 1;
    var last: U16 := LittleAt16(b, offset + 2 * n);
    SplitEqual(RawsAt(b, offset, n, 2), [last], words[..n], [words[n]]);
    assert RawsAt(b, offset, n + 1, 2) == RawsAt(b, offset, n, 2) + [last];
    assert words == words[..n] + [words[n]];
  }

  lemma {:induction false} Words16Reads(b: Bytes, offset: nat, words: seq<U16>)
    requires offset + 2 * |words| <= |b|
    ensures b[offset..offset + 2 * |words|] == Words16(words) <==> RawsAt(b, offset, |words|, 2) == words
  {
    if words != [] {
      var n := |words| - 1;
      var end := offset + 2 * n;
      Words16Reads(b, offset, words[..n]);
      Little16Field(b, end, words[n]);
      TwoSlices(b, offset, end, end + 2, Words16(words[..n]), Little16(words[n]));
      Words16Split(b, offset, words);
      assert Words16(words) == Words16(words[..n]) + Little16(words[n]) && offset + 2 * |words| == end + 2;
    }
  }

  lemma RawSectionReads(b: Bytes, offset: nat, raws: seq<U16>, rawWidth: nat)
    requires rawWidth in {1, 2} && offset + (if rawWidth == 1 then |raws| else 2 * |raws|) <= |b|
    requires rawWidth == 1 ==> forall i :: 0 <= i < |raws| ==> raws[i] < 0x100
    ensures b[offset..offset + (if rawWidth == 1 then |raws| else 2 * |raws|)] == RawSection(rawWidth, raws) <==>
            RawsAt(b, offset, |raws|, rawWidth) == raws
  {
    if rawWidth == 1 {
      var slice := b[offset..offset + |raws|];
      assert forall i :: 0 <= i < |raws| ==> slice[i] == RawsAt(b, offset, |raws|, 1)[i];
      assert forall i :: 0 <= i < |raws| ==> RawSection(1, raws)[i] == raws[i];
    } else {
      Words16Reads(b, offset, raws);
    }
  }
}
