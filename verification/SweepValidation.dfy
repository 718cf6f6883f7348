// Which buffers the validator accepts: exactly those that encode a sweep the
// encoder takes (src-tauri/src/packed_sweep.rs).
module SweepValidation {
  import opened Common
  import opened WireBytes
  import opened SweepLayout
  import opened PackedSweep

  const SCHEMA_VERSION: nat := 1

  // What a floating-point pattern is good for, and the values raw codes stand for.
  datatype Rules = Rules(
    finite: U32 -> bool, latitude: U32 -> bool, longitude: U32 -> bool, elevation: U32 -> bool, azimuth: U32 -> bool,
    beamWidth: U32 -> bool, zero: U32 -> bool, asFloat: U16 -> U32, scaled: (U16, U32, U32) -> U32)

  datatype PackedSweepError =
    | TruncatedHeader | PayloadTooLarge | InvalidMagic | InvalidEndianMarker | UnsupportedVersion | InvalidHeaderLength
    | TotalLengthMismatch | InvalidFlags | InvalidProduct | InvalidSourceKind | InvalidEncoding | NonzeroReserved
    | InvalidSite | InvalidDimensions | InvalidMetadata | InvalidSection | ObservationIdMismatch | HashMismatch
    | InvalidRadial | InvalidGate | InvalidSweep

  // ----- Rules about a sweep -----

  predicate SourceMatches(product: U16, source: U16) {
    product == STORM_RELATIVE_VELOCITY <==> source == LEVEL3_N0S
  }

  predicate SiteHolds(icao: Bytes) {
    forall i :: 0 <= i < |icao| ==> 0x41 <= icao[i] <= 0x5a || 0x30 <= icao[i] <= 0x39
  }

  predicate HeaderHolds(rules: Rules, s: Sweep) {
    && 1 <= s.product <= 3 && 1 <= s.source <= 4 && SourceMatches(s.product, s.source) && SiteHolds(s.icao)
    && s.gateSpacing > 0
    && rules.latitude(s.latitude) && rules.longitude(s.longitude) && rules.elevation(s.elevation)
    && rules.finite(s.scale) && rules.finite(s.offset)
    && s.volumeStart <= s.volumeEnd && s.sweepStart <= s.sweepEnd
  }

  predicate RadialHolds(rules: Rules, r: Radial) {
    rules.azimuth(r.azimuth) && rules.beamWidth(r.beamWidth) && rules.elevation(r.elevation)
  }

  predicate RadialsHold(rules: Rules, radials: seq<Radial>) {
    forall i :: 0 <= i < |radials| ==> RadialHolds(rules, radials[i])
  }

  // Status 0 is valid, 1 below threshold, 2 range folded.
  predicate GateHolds(rules: Rules, product: U16, scale: U32, offset: U32, value: U32, status: Byte, raw: U16) {
    && rules.finite(value)
    && if product == STORM_RELATIVE_VELOCITY then
         raw <= 15 && status == (if raw == 0 then 1 else if raw == 15 then 2 else 0) && (status != 0 ==> value == 0)
       else if rules.zero(scale) then status == 0 && value == rules.asFloat(raw)
       else if raw == 0 then status == 1 && value == 0
       else if raw == 1 then status == 2 && value == 0
       else status == 0 && value == rules.scaled(raw, offset, scale)
  }

  predicate SameLengths(s: Sweep) {
    |s.values| == |s.statuses| == |s.raws|
  }

  predicate GateOf(rules: Rules, s: Sweep, i: nat)
    requires SameLengths(s) && i < |s.values|
  {
    GateHolds(rules, s.product, s.scale, s.offset, s.values[i], s.statuses[i], s.raws[i])
  }

  // A gate whose category must mean one value throughout the sweep.
  predicate Categorised(s: Sweep, i: nat)
    requires SameLengths(s) && i < |s.values|
  {
    s.product == STORM_RELATIVE_VELOCITY && s.statuses[i] == 0
  }

  ghost predicate Consistent(s: Sweep, n: nat)
    requires SameLengths(s) && n <= |s.values|
  {
    forall i: nat, j: nat :: i < n && j < n && Categorised(s, i) && Categorised(s, j) && s.raws[i] == s.raws[j] ==>
                               s.values[i] == s.values[j]
  }

  ghost predicate GatesHold(rules: Rules, s: Sweep)
    requires SameLengths(s)
  {
    (forall i: nat :: i < |s.values| ==> GateOf(rules, s, i)) && Consistent(s, |s.values|)
  }

  // A sweep that passes the checks made before encoding.
  ghost predicate Normalized(rules: Rules, s: Sweep) {
    Encodable(s) && HeaderHolds(rules, s) && RadialsHold(rules, s.radials) && GatesHold(rules, s)
  }

  // What a table of category values has seen of the first gates.
  ghost predicate Seen(s: Sweep, n: nat, table: seq<Option<U32>>)
    requires SameLengths(s) && n <= |s.values| && |table| == 16
  {
    && (forall i: nat :: i < n && Categorised(s, i) ==> s.raws[i] < 16 && table[s.raws[i]] == Some(s.values[i]))
    && (forall c: nat :: c < 16 && table[c].Some? ==> exists i: nat :: i < n && Categorised(s, i) && s.raws[i] == c)
  }

  lemma SeenNext(rules: Rules, s: Sweep, n: nat, table: seq<Option<U32>>)
    requires SameLengths(s) && n < |s.values| && |table| == 16 && Seen(s, n, table) && GateOf(rules, s, n)
    ensures Categorised(s, n) ==> s.raws[n] < 16
    ensures !Categorised(s, n) ==> Seen(s, n + 1, table)
    ensures Categorised(s, n) && (table[s.raws[n]].Some? ==> table[s.raws[n]].value == s.values[n]) ==>
              Seen(s, n + 1, table[s.raws[n] := Some(s.values[n])])
    ensures Categorised(s, n) && table[s.raws[n]].Some? && table[s.raws[n]].value != s.values[n] ==>
              !Consistent(s, |s.values|)
  {
    if Categorised(s, n) {
      var next := table[s.raws[n] := Some(s.values[n])];
      forall c: nat | c < 16 && next[c].Some?
        ensures exists i: nat :: i < n + 1 && Categorised(s, i) && s.raws[i] == c
      {
        if c != s.raws[n] {
          var i: nat :| i < n && Categorised(s, i) && s.raws[i] == c;
          assert i < n + 1;
        }
      }
    } else {
      forall c: nat | c < 16 && table[c].Some?
        ensures exists i: nat :: i < n + 1 && Categorised(s, i) && s.raws[i] == c
      {
        var i: nat :| i < n && Categorised(s, i) && s.raws[i] == c;
        assert i < n + 1;
      }
    }
  }

  // One pass over the gates, with a table of 16 category values.
  method CheckGates(rules: Rules, s: Sweep) returns (ok: bool)
    requires SameLengths(s)
    ensures ok <==> GatesHold(rules, s)
  {
    var table: seq<Option<U32>> := seq(16, _ => None);
    for i := 0 to |s.values|
      invariant |table| == 16 && Seen(s, i, table)
      invariant forall k: nat :: k < i ==> GateOf(rules, s, k)
    {
      if !GateOf(rules, s, i) { return false; }
      SeenNext(rules, s, i, table);
      if Categorised(s, i) {
        var slot := table[s.raws[i]];
        if slot.Some? && slot.value != s.values[i] { return false; }
        table := table[s.raws[i] := Some(s.values[i])];
      }
    }
    ok := true;
  }

  method CheckRadials(rules: Rules, radials: seq<Radial>) returns (ok: bool)
    ensures ok <==> RadialsHold(rules, radials)
  {
    for i := 0 to |radials|
      invariant RadialsHold(rules, radials[..i])
    {
      if !RadialHolds(rules, radials[i]) { return false; }
      assert radials[..i + 1] == radials[..i] + [radials[i]];
    }
    assert radials[..|radials|] == radials;
    ok := true;
  }

  // ----- Validation -----

  function EnvelopeError(b: Bytes): (e: Option<PackedSweepError>)
    ensures e.None? ==> HEADER_BYTES <= |b| <= MAX_BYTES
  {
    if |b| < HEADER_BYTES then Some(TruncatedHeader)
    else if |b| > MAX_BYTES then Some(PayloadTooLarge)
    else if b[0..8] != MAGIC then Some(InvalidMagic)
    else if LittleAt32(b, 8) != ENDIAN_MARKER then Some(InvalidEndianMarker)
    else if LittleAt16(b, 12) != 1 then Some(UnsupportedVersion)
    else if LittleAt16(b, 14) != HEADER_BYTES then Some(InvalidHeaderLength)
    else if LittleAt32(b, 16) != |b| then Some(TotalLengthMismatch)
    else None
  }

  function LabelError(b: Bytes): Option<PackedSweepError>
    requires |b| >= HEADER_BYTES
  {
    if LittleAt32(b, 20) !in {1, 2} then Some(InvalidFlags)
    else if LittleAt16(b, 24) !in {1, 2, 3} then Some(InvalidProduct)
    else if LittleAt16(b, 26) !in {1, 2, 3, 4} then Some(InvalidSourceKind)
    else if !SourceMatches(LittleAt16(b, 24), LittleAt16(b, 26)) then Some(InvalidMetadata)
    else if b[28..32] != [0, 0, 0, 0] || b[66..68] != [0, 0] || !AllZero(b[272..320]) then Some(NonzeroReserved)
    else if b[62] != 1 || b[63] != 1 then Some(InvalidEncoding)
    else if !((LittleAt32(b, 20) == 1 && b[61] == 8) || (LittleAt32(b, 20) == 2 && b[61] == 16))
    then Some(InvalidEncoding)
    else if !SiteHolds(b[56..60]) then Some(InvalidSite)
    else None
  }

  function DimensionError(b: Bytes): Option<PackedSweepError>
    requires |b| >= HEADER_BYTES
  {
    if LittleAt32(b, 68) == 0 || LittleAt32(b, 68) > MAX_RADIALS then Some(InvalidDimensions)
    else if LittleAt32(b, 72) == 0 || LittleAt32(b, 72) > MAX_GATES then Some(InvalidDimensions)
    else if LittleAt32(b, 68) * LittleAt32(b, 72) != LittleAt32(b, 76) || LittleAt32(b, 76) > MAX_CELLS
    then Some(InvalidDimensions)
    else if LittleAt32(b, 80) == 0 then Some(InvalidMetadata)
    else None
  }

  function MetadataError(rules: Rules, b: Bytes): Option<PackedSweepError>
    requires |b| >= HEADER_BYTES
  {
    if !rules.latitude(LittleAt32(b, 88)) || !rules.longitude(LittleAt32(b, 92)) || !rules.elevation(LittleAt32(b, 100))
       || !rules.finite(LittleAt32(b, 104)) || !rules.finite(LittleAt32(b, 108)) then Some(InvalidMetadata)
    else if Signed64(LittleAt64(b, 120)) < Signed64(LittleAt64(b, 112)) then Some(InvalidMetadata)
    else if Signed64(LittleAt64(b, 136)) < Signed64(LittleAt64(b, 128)) then Some(InvalidMetadata)
    else if b[40..56] != b[176..192] then Some(ObservationIdMismatch)
    else None
  }

  function SectionError(b: Bytes): Option<PackedSweepError>
    requires |b| >= HEADER_BYTES && LittleAt32(b, 68) <= MAX_RADIALS && LittleAt32(b, 76) <= MAX_CELLS
  {
    var l := LayoutIn(b);
    if LittleAt32(b, 240) != HEADER_BYTES || LittleAt32(b, 244) != RADIAL_BYTES * l.radials
       || LittleAt32(b, 248) != l.ValueOffset() || LittleAt32(b, 252) != 4 * l.cells
       || LittleAt32(b, 256) != l.StatusOffset() || LittleAt32(b, 260) != l.cells
       || LittleAt32(b, 264) != l.RawOffset() || LittleAt32(b, 268) != l.RawLength() then Some(InvalidSection)
    else if l.Total() != |b| then Some(InvalidSection)
    else if !PaddingIsZero(b) then Some(NonzeroReserved)
    else None
  }

  predicate PaddingIsZero(b: Bytes)
    requires FitsArrays(b)
  {
    var l := LayoutIn(b);
    LayoutFits(l);
    && AllZero(b[l.RadialEnd()..l.ValueOffset()]) && AllZero(b[l.ValueEnd()..l.StatusOffset()])
    && AllZero(b[l.StatusEnd()..l.RawOffset()]) && AllZero(b[l.RawEnd()..l.Total()])
  }

  // The first check that fails before the arrays are read.
  function HeaderError(rules: Rules, b: Bytes): (e: Option<PackedSweepError>)
    ensures e.None? ==> FitsArrays(b)
  {
    if EnvelopeError(b).Some? then EnvelopeError(b)
    else if LabelError(b).Some? then LabelError(b)
    else if DimensionError(b).Some? then DimensionError(b)
    else if MetadataError(rules, b).Some? then MetadataError(rules, b)
    else SectionError(b)
  }

  predicate ReservedIsZero(b: Bytes)
    requires FitsArrays(b)
  {
    LayoutFits(LayoutIn(b));
    RadialsReserved(b, HEADER_BYTES, LayoutIn(b).radials)
  }

  ghost predicate Accepted(sha: Digest, rules: Rules, b: Bytes) {
    && HeaderError(rules, b).None? && b[WIRE_HASH..WIRE_HASH_END] == WireHash(sha, b) && ReservedIsZero(b)
    && RadialsHold(rules, Decode(b).radials) && GatesHold(rules, Decode(b))
  }

  method ValidatePackedSweep(sha: Digest, rules: Rules, b: Bytes) returns (r: Result<Sweep, PackedSweepError>)
    ensures r.Ok? <==> Accepted(sha, rules, b)
    ensures r.Ok? ==> r.value == Decode(b)
    ensures HeaderError(rules, b).Some? ==> r == Err(HeaderError(rules, b).value)
    ensures HeaderError(rules, b).None? && r.Err? ==>
              r.error == (if b[WIRE_HASH..WIRE_HASH_END] != WireHash(sha, b) then HashMismatch
                          else if !(ReservedIsZero(b) && RadialsHold(rules, Decode(b).radials)) then InvalidRadial
                          else InvalidGate)
  {
    var e := HeaderError(rules, b);
    if e.Some? { return Err(e.value); }
    if WireHash(sha, b) != b[WIRE_HASH..WIRE_HASH_END] { return Err(HashMismatch); }
    if !ReservedIsZero(b) { return Err(InvalidRadial); }
    var s := Decode(b);
    var radials := CheckRadials(rules, s.radials);
    if !radials { return Err(InvalidRadial); }
    var gates := CheckGates(rules, s);
    if !gates { return Err(InvalidGate); }
    r := Ok(s);
  }

  // ----- What the rules mean -----

  // Some codes stand for no measurement: always in storm-relative velocity, and
  // wherever there is a scale to divide by.
  predicate Coded(rules: Rules, product: U16, scale: U32) {
    product == 3 || !rules.zero(scale)
  }

  // A gate below threshold or range folded is named by its code and has value 0;
  // any other has the value its code scales to. In storm-relative velocity,
  // where codes are 4-bit categories, that value is the sweep's to choose.
  lemma GateMeans(rules: Rules, product: U16, scale: U32, offset: U32, value: U32, status: Byte, raw: U16)
    ensures GateHolds(rules, product, scale, offset, value, status, raw) <==>
            && rules.finite(value) && (product == 3 ==> raw < 16) && status <= 2
            && (status == 1 <==> Coded(rules, product, scale) && raw == 0)
            && (status == 2 <==> Coded(rules, product, scale) && raw == if product == 3 then 15 else 1)
            && (status != 0 ==> value == 0)
            && (status == 0 && product != 3 ==>
                  value == if rules.zero(scale) then rules.asFloat(raw) else rules.scaled(raw, offset, scale))
  {
  }

  // Gates hold exactly when each does and equal codes have equal values, whatever the product.
  lemma GatesMean(rules: Rules, s: Sweep)
    requires SameLengths(s)
    ensures GatesHold(rules, s) <==>
            && (forall i: nat :: i < |s.values| ==> GateOf(rules, s, i))
            && forall i: nat, j: nat :: i < |s.raws| && j < |s.raws| && s.raws[i] == s.raws[j] ==>
                                          s.values[i] == s.values[j]
  {
    if GatesHold(rules, s) {
      forall i: nat, j: nat | i < |s.raws| && j < |s.raws| && s.raws[i] == s.raws[j]
        ensures s.values[i] == s.values[j]
      {
        assert GateOf(rules, s, i) && GateOf(rules, s, j);
      }
    }
  }

  // So the statuses of a sweep, and outside storm-relative velocity its values, follow from its codes.
  lemma CodesDetermine(rules: Rules, s: Sweep, t: Sweep)
    requires SameLengths(s) && SameLengths(t) && GatesHold(rules, s) && GatesHold(rules, t)
    requires s.product == t.product && s.scale == t.scale && s.offset == t.offset && s.raws == t.raws
    ensures s.statuses == t.statuses && (s.product != 3 ==> s.values == t.values)
  {
    forall i: nat | i < |s.raws|
      ensures s.statuses[i] == t.statuses[i] && (s.product != 3 ==> s.values[i] == t.values[i])
    {
      assert GateOf(rules, s, i) && GateOf(rules, t, i);
    }
  }

  // Storm-relative velocity comes from the N0S product and nothing else does; a
  // site is named by capital letters and digits.
  lemma LabelsMean(product: U16, source: U16, icao: Bytes)
    ensures SourceMatches(product, source) <==> (product == 3 && source == 4) || (product != 3 && source != 4)
    ensures SiteHolds(icao) <==>
            forall b :: b in icao ==> 'A' <= b as char <= 'Z' || '0' <= b as char <= '9'
  {
    if SiteHolds(icao) {
      forall b | b in icao ensures 'A' <= b as char <= 'Z' || '0' <= b as char <= '9' { }
    } else {
      var i :| 0 <= i < |icao| && !(0x41 <= icao[i] <= 0x5a || 0x30 <= icao[i] <= 0x39);
      assert icao[i] in icao;
    }
  }

  // The dimensions of an accepted header.
  lemma DimensionsMean(rules: Rules, b: Bytes)
    requires HeaderError(rules, b).None?
    ensures 1 <= LittleAt32(b, 68) <= 2048 && 1 <= LittleAt32(b, 72) <= 4096
    ensures LittleAt32(b, 76) == LittleAt32(b, 68) * LittleAt32(b, 72) <= 4_194_304
  {
  }

  // ----- Accepted buffers are encodings -----

  lemma AcceptedHas(sha: Digest, rules: Rules, b: Bytes)
    requires Accepted(sha, rules, b)
    ensures Normalized(rules, Decode(b)) && Has(sha, b, Decode(b))
  {
    LayoutFits(LayoutIn(b));
  }

  lemma DecodeOfHas(sha: Digest, b: Bytes, s: Sweep)
    requires Encodable(s) && Has(sha, b, s)
    ensures FitsArrays(b) && LayoutIn(b) == LayoutOf(s) && Decode(b) == s
  {
    LayoutFits(LayoutOf(s));
    SixtyToSixtyFour(b, s.elevationNumber, s.wordBits);
  }

  lemma SixtyToSixtyFour(b: Bytes, elevation: Byte, wordBits: Byte)
    requires |b| >= HEADER_BYTES && b[60..64] == [elevation, wordBits, 1, 1]
    ensures b[60] == elevation && b[61] == wordBits && b[62] == 1 && b[63] == 1
  {
    assert b[60] == b[60..64][0] && b[61] == b[60..64][1] && b[62] == b[60..64][2] && b[63] == b[60..64][3];
  }

  lemma LabelHolds(b: Bytes, s: Sweep)
    requires |b| >= HEADER_BYTES && Encodable(s) && HasKind(b, s) && HasShape(b, s) && AllZero(b[272..320])
    requires 1 <= s.product <= 3 && 1 <= s.source <= 4 && SourceMatches(s.product, s.source) && SiteHolds(s.icao)
    ensures LabelError(b).None?
  {
    SixtyToSixtyFour(b, s.elevationNumber, s.wordBits);
  }

  lemma DimensionsHold(b: Bytes, s: Sweep)
    requires |b| >= HEADER_BYTES && Encodable(s) && HasShape(b, s) && s.gateSpacing > 0
    ensures DimensionError(b).None?
  {
  }

  lemma MetadataHolds(rules: Rules, b: Bytes, s: Sweep)
    requires |b| >= HEADER_BYTES && Encodable(s) && HasShape(b, s) && HasMetadata(b, s) && HasTimes(b, s)
    requires HeaderHolds(rules, s)
    ensures MetadataError(rules, b).None?
  {
    assert b[176..208][..16] == b[176..192];
  }

  lemma SectionsHold(b: Bytes, s: Sweep)
    requires Encodable(s) && FitsArrays(b) && LayoutIn(b) == LayoutOf(s) && HasSections(b, LayoutOf(s))
    requires HasArrays(b, s)
    ensures SectionError(b).None? && ReservedIsZero(b)
  {
    LayoutFits(LayoutOf(s));
  }

  lemma HasDecodes(sha: Digest, rules: Rules, b: Bytes, s: Sweep)
    requires Normalized(rules, s) && Has(sha, b, s)
    ensures Accepted(sha, rules, b) && Decode(b) == s
  {
    DecodeOfHas(sha, b, s);
    LabelHolds(b, s);
    DimensionsHold(b, s);
    MetadataHolds(rules, b, s);
    SectionsHold(b, s);
  }

  // An encoded sweep is accepted and reads back unchanged.
  lemma EncodedIsAccepted(sha: Digest, rules: Rules, s: Sweep)
    requires Normalized(rules, s)
    ensures Accepted(sha, rules, Encoded(sha, s)) && Decode(Encoded(sha, s)) == s
  {
    EncodedCarries(sha, s);
    CarriesIsHas(sha, Encoded(sha, s), s);
    HasDecodes(sha, rules, Encoded(sha, s), s);
  }

  // An accepted buffer is the encoding of what it decodes to.
  lemma AcceptedIsEncoded(sha: Digest, rules: Rules, b: Bytes)
    requires Accepted(sha, rules, b)
    ensures Normalized(rules, Decode(b)) && b == Encoded(sha, Decode(b))
  {
    var s := Decode(b);
    AcceptedHas(sha, rules, b);
    CarriesIsHas(sha, b, s);
    EncodedCarries(sha, s);
    CarrierIsUnique(sha, b, Encoded(sha, s), s);
  }

  // So accepted buffers with the same fields are the same bytes.
  lemma AcceptedIsCanonical(sha: Digest, rules: Rules, b: Bytes, c: Bytes)
    requires Accepted(sha, rules, b) && Accepted(sha, rules, c) && Decode(b) == Decode(c)
    ensures b == c
  {
    AcceptedIsEncoded(sha, rules, b);
    AcceptedIsEncoded(sha, rules, c);
  }

  // ----- Encoding -----

  // What is checked before the radials and the gates.
  predicate Described(rules: Rules, schemaVersion: U16, s: Sweep) {
    && schemaVersion == SCHEMA_VERSION && Dimensioned(s) && |s.icao| == 4 && SiteHolds(s.icao) && s.gateSpacing > 0
    && SourceMatches(s.product, s.source)
    && rules.latitude(s.latitude) && rules.longitude(s.longitude) && rules.elevation(s.elevation)
    && rules.finite(s.scale) && rules.finite(s.offset)
    && s.volumeStart <= s.volumeEnd && s.sweepStart <= s.sweepEnd
  }

  // A raw code too large for its word.
  predicate Overflows(s: Sweep) {
    s.wordBits == 8 && exists i :: 0 <= i < |s.raws| && s.raws[i] > 0xff
  }

  // A sweep is normalized exactly if all of it holds, it names its source and its words are 8 or 16 bits.
  lemma NormalizedMeans(rules: Rules, s: Sweep)
    requires 1 <= s.product <= 3 && s.source <= 4
    ensures Normalized(rules, s) <==>
            && Described(rules, 1, s) && RadialsHold(rules, s.radials) && GatesHold(rules, s) && !Overflows(s)
            && s.wordBits in {8, 16} && s.source != 0
    ensures RadialsHold(rules, s.radials) <==>
            forall r :: r in s.radials ==>
                          rules.azimuth(r.azimuth) && rules.beamWidth(r.beamWidth) && rules.elevation(r.elevation)
    ensures !Overflows(s) <==> s.wordBits != 8 || forall raw :: raw in s.raws ==> raw < 256
  {
    forall i | 0 <= i < |s.radials| ensures s.radials[i] in s.radials { }
    forall i | 0 <= i < |s.raws| ensures s.raws[i] in s.raws { }
    if raw :| raw in s.raws && raw > 255 {
      var i :| 0 <= i < |s.raws| && s.raws[i] == raw;
    }
  }

  // The checks made before anything is written.
  method CheckNormalized(rules: Rules, schemaVersion: U16, s: Sweep) returns (e: Option<PackedSweepError>)
    requires 1 <= s.product <= 3 && s.source <= 4
    ensures e.None? <==> schemaVersion == SCHEMA_VERSION && Normalized(rules, s)
    ensures e == Some(InvalidRadial) <==> Described(rules, schemaVersion, s) && !RadialsHold(rules, s.radials)
    ensures e == Some(InvalidGate) <==>
            && Described(rules, schemaVersion, s) && RadialsHold(rules, s.radials)
            && (!GatesHold(rules, s) || Overflows(s))
    ensures e.Some? ==> e.value in {InvalidSweep, InvalidRadial, InvalidGate}
  {
    if !SourceMatches(s.product, s.source) || schemaVersion != SCHEMA_VERSION { return Some(InvalidSweep); }
    if !Dimensioned(s) { return Some(InvalidSweep); }
    if |s.icao| != 4 || !SiteHolds(s.icao) || s.gateSpacing == 0 { return Some(InvalidSweep); }
    if !rules.latitude(s.latitude) || !rules.longitude(s.longitude) || !rules.elevation(s.elevation)
       || !rules.finite(s.scale) || !rules.finite(s.offset) { return Some(InvalidSweep); }
    if s.volumeEnd < s.volumeStart || s.sweepEnd < s.sweepStart { return Some(InvalidSweep); }
    var radials := CheckRadials(rules, s.radials);
    if !radials { return Some(InvalidRadial); }
    var gates := CheckGates(rules, s);
    if !gates { return Some(InvalidGate); }
    if Overflows(s) { return Some(InvalidGate); }
    if s.wordBits !in {8, 16} || s.source == 0 { return Some(InvalidSweep); }
    e := None;
  }

  lemma {:induction false} PutAllJoins(record: Bytes, i: seq<Field>, j: seq<Field>)
    requires FitIn(i, 0, |record|) && FitIn(j, 0, |record|)
    ensures FitIn(i + j, 0, |record|) && PutAll(record, i + j) == PutAll(PutAll(record, i), j)
  {
    if j == [] {
      assert i + j == i;
    } else {
      var last := |j| - 1;
      PutAllJoins(record, i, j[..last]);
      assert (i + j)[..|i + j| - 1] == i + j[..last];
    }
  }

  method WriteSweep(sha: Digest, s: Sweep) returns (b: Bytes)
    requires Encodable(s)
    ensures b == Encoded(sha, s)
  {
    AllFit(s);
    var bytes := new Byte[LayoutOf(s).Total()](_ => 0);
    assert bytes[..] == Zeros(LayoutOf(s).Total());
    WriteFields(bytes, Front(s));
    WriteFields(bytes, Back(s));
    PutAllJoins(Zeros(LayoutOf(s).Total()), Front(s), Back(s));
    WriteField(bytes, Field(WIRE_HASH, WireHash(sha, bytes[..])));
    b := bytes[..];
  }

  // Encoding succeeds exactly for a normalized sweep, and always within the size limit; the result is accepted.
  method EncodePackedSweep(sha: Digest, rules: Rules, schemaVersion: U16, s: Sweep)
    returns (r: Result<Bytes, PackedSweepError>)
    requires 1 <= s.product <= 3 && s.source <= 4
    ensures r.Ok? <==> schemaVersion == SCHEMA_VERSION && Normalized(rules, s)
    ensures r == Err(InvalidRadial) <==> Described(rules, schemaVersion, s) && !RadialsHold(rules, s.radials)
    ensures r == Err(InvalidGate) <==>
            && Described(rules, schemaVersion, s) && RadialsHold(rules, s.radials)
            && (!GatesHold(rules, s) || Overflows(s))
    ensures r.Err? ==> r.error in {InvalidSweep, InvalidRadial, InvalidGate}
    ensures r.Ok? ==>
              r.value == Encoded(sha, s) && |r.value| < MAX_BYTES
              && Accepted(sha, rules, r.value) && Decode(r.value) == s
  {
    var e := CheckNormalized(rules, schemaVersion, s);
    if e.Some? { return Err(e.value); }
    LayoutFits(LayoutOf(s));
    if LayoutOf(s).Total() > MAX_BYTES { assert false; }
    var b := WriteSweep(sha, s);
    EncodedIsAccepted(sha, rules, s);
    var valid := ValidatePackedSweep(sha, rules, b);
    if valid.Err? { assert false; }
    r := Ok(b);
  }
}
