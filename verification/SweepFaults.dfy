// How the validator names what is wrong: a buffer that differs from one with a
// good header in one field is refused for that field (src-tauri/src/packed_sweep.rs,
// `validate_packed_sweep`).
module SweepFaults {
  import opened Common
  import opened WireBytes
  import opened SweepLayout
  import opened PackedSweep
  import opened SweepValidation

  lemma EnvelopeSame(b: Bytes, c: Bytes)
    requires |b| == |c| >= HEADER_BYTES && Same(b, c, 0, 20)
    ensures EnvelopeError(c) == EnvelopeError(b)
  {
    SameSlice(b, c, 0, 8);
  }

  lemma LabelSame(b: Bytes, c: Bytes)
    requires |b| == |c| >= HEADER_BYTES
    requires Same(b, c, 20, 32) && Same(b, c, 56, 64) && Same(b, c, 66, 68) && Same(b, c, 272, 320)
    ensures LabelError(c) == LabelError(b)
  {
    SameSlice(b, c, 28, 32);
    SameSlice(b, c, 66, 68);
    SameSlice(b, c, 56, 60);
    SameSlice(b, c, 272, 320);
  }

  lemma DimensionSame(b: Bytes, c: Bytes)
    requires |b| == |c| >= HEADER_BYTES && Same(b, c, 68, 84)
    ensures DimensionError(c) == DimensionError(b)
  {
  }

  lemma MetadataSame(rules: Rules, b: Bytes, c: Bytes)
    requires |b| == |c| >= HEADER_BYTES && Same(b, c, 88, 144) && Same(b, c, 40, 56) && Same(b, c, 176, 192)
    ensures MetadataError(rules, c) == MetadataError(rules, b)
  {
    SameSlice(b, c, 40, 56);
    SameSlice(b, c, 176, 192);
    SameNumber(b, c, 88);
    SameNumber(b, c, 92);
    SameNumber(b, c, 100);
    SameNumber(b, c, 104);
    SameNumber(b, c, 108);
    SameTimes(b, c);
  }

  lemma SameNumber(b: Bytes, c: Bytes, offset: nat)
    requires Same(b, c, offset, offset + 4)
    ensures LittleAt32(c, offset) == LittleAt32(b, offset)
  {
  }

  lemma SameTimes(b: Bytes, c: Bytes)
    requires Same(b, c, 112, 144)
    ensures LittleAt64(c, 112) == LittleAt64(b, 112) && LittleAt64(c, 120) == LittleAt64(b, 120)
    ensures LittleAt64(c, 128) == LittleAt64(b, 128) && LittleAt64(c, 136) == LittleAt64(b, 136)
  {
  }

  // A header in which the magic, the byte order, the version or a length is spoilt is refused for it.
  lemma SpoiltEnvelope(rules: Rules, b: Bytes, c: Bytes)
    requires HeaderError(rules, b).None?
    ensures Spoils(b, c, 0, 8) ==> HeaderError(rules, c) == Some(InvalidMagic)
    ensures Spoils(b, c, 8, 12) ==> HeaderError(rules, c) == Some(InvalidEndianMarker)
    ensures Spoils(b, c, 12, 14) ==> HeaderError(rules, c) == Some(UnsupportedVersion)
    ensures Spoils(b, c, 14, 16) ==> HeaderError(rules, c) == Some(InvalidHeaderLength)
    ensures Spoils(b, c, 16, 20) ==> HeaderError(rules, c) == Some(TotalLengthMismatch)
  {
    SpoiltNumber(b, c, 8);
    SpoiltNumber(b, c, 12);
    SpoiltNumber(b, c, 14);
    SpoiltNumber(b, c, 16);
    if |b| == |c| && Same(b, c, 0, 8) { SameSlice(b, c, 0, 8); }
  }

  // Cutting a header short, or adding to it, is a fault of its length.
  lemma LengthIsChecked(rules: Rules, b: Bytes, c: Bytes)
    requires HeaderError(rules, b).None? && |c| != |b| && Same(b, c, 0, if |c| < 20 then |c| else 20)
    ensures HeaderError(rules, c) == Some(if |c| < 320 then TruncatedHeader
                                          else if |c| > 33_554_432 then PayloadTooLarge else TotalLengthMismatch)
  {
    EnvelopeOfLength(b, c);
  }

  lemma EnvelopeOfLength(b: Bytes, c: Bytes)
    requires EnvelopeError(b).None? && |c| != |b| && Same(b, c, 0, if |c| < 20 then |c| else 20)
    ensures EnvelopeError(c) == Some(if |c| < 320 then TruncatedHeader
                                     else if |c| > 33_554_432 then PayloadTooLarge else TotalLengthMismatch)
  {
    if |c| >= HEADER_BYTES { SameSlice(b, c, 0, 8); }
  }

  // A spoilt label is named, or makes a header that contradicts itself or is another's.
  lemma SpoiltLabel(rules: Rules, b: Bytes, c: Bytes)
    requires HeaderError(rules, b).None?
    ensures Spoils(b, c, 20, 24) ==>
              HeaderError(rules, c) == Some(if LittleAt32(c, 20) in {1, 2} then InvalidEncoding else InvalidFlags)
    ensures Spoils(b, c, 61, 62) || Spoils(b, c, 62, 63) || Spoils(b, c, 63, 64) ==>
              HeaderError(rules, c) == Some(InvalidEncoding)
    ensures Spoils(b, c, 28, 32) || Spoils(b, c, 66, 68) || Spoils(b, c, 272, 320) ==>
              HeaderError(rules, c) == Some(NonzeroReserved)
  {
    if |b| == |c| && Same(b, c, 0, 20) {
      EnvelopeSame(b, c);
      SpoiltFlags(b, c);
      SpoiltReserved(b, c);
    }
  }

  lemma SpoiltFlags(b: Bytes, c: Bytes)
    requires |b| == |c| >= HEADER_BYTES && LabelError(b).None?
    ensures Spoils(b, c, 20, 24) ==>
              LabelError(c) == Some(if LittleAt32(c, 20) in {1, 2} then InvalidEncoding else InvalidFlags)
    ensures Spoils(b, c, 61, 62) || Spoils(b, c, 62, 63) || Spoils(b, c, 63, 64) ==>
              LabelError(c) == Some(InvalidEncoding)
  {
    SpoiltNumber(b, c, 20);
    if Same(b, c, 28, 32) { SameSlice(b, c, 28, 32); }
    if Same(b, c, 66, 68) { SameSlice(b, c, 66, 68); }
    if Same(b, c, 272, 320) { SameSlice(b, c, 272, 320); }
    assert b[61..62] == [b[61]] && b[62..63] == [b[62]] && b[63..64] == [b[63]];
    assert c[61..62] == [c[61]] && c[62..63] == [c[62]] && c[63..64] == [c[63]];
  }

  lemma SpoiltReserved(b: Bytes, c: Bytes)
    requires |b| == |c| >= HEADER_BYTES && LabelError(b).None?
    ensures Spoils(b, c, 28, 32) || Spoils(b, c, 66, 68) || Spoils(b, c, 272, 320) ==>
              LabelError(c) == Some(NonzeroReserved)
  {
    if AllZero(c[272..320]) { assert c[272..320] == b[272..320]; }
  }

  // Changing the product, the source or the site is refused unless the header then still holds.
  lemma ChangedLabel(rules: Rules, b: Bytes, c: Bytes)
    requires HeaderError(rules, b).None?
    ensures Spoils(b, c, 24, 26) ==>
              HeaderError(rules, c) == (if LittleAt16(c, 24) !in {1, 2, 3} then Some(InvalidProduct)
                 else if LittleAt16(b, 24) == 3 || LittleAt16(c, 24) == 3
                 then Some(InvalidMetadata) else None)
    ensures Spoils(b, c, 26, 28) ==>
              HeaderError(rules, c) == (if LittleAt16(c, 26) !in {1, 2, 3, 4} then Some(InvalidSourceKind)
                 else if LittleAt16(b, 26) == 4 || LittleAt16(c, 26) == 4
                 then Some(InvalidMetadata) else None)
    ensures Spoils(b, c, 56, 60) ==>
              HeaderError(rules, c) == if SiteHolds(c[56..60]) then None else Some(InvalidSite)
  {
    if |b| == |c| && Same(b, c, 0, 20) && Same(b, c, 60, |b|) {
      EnvelopeSame(b, c);
      ChangedKind(b, c);
      if Same(b, c, 40, 56) { RestSame(rules, b, c); }
    }
  }

  lemma ChangedKind(b: Bytes, c: Bytes)
    requires |b| == |c| >= HEADER_BYTES && LabelError(b).None? && Same(b, c, 60, |b|)
    ensures Spoils(b, c, 24, 26) ==>
              LabelError(c) == (if LittleAt16(c, 24) !in {1, 2, 3} then Some(InvalidProduct)
                 else if LittleAt16(b, 24) == 3 || LittleAt16(c, 24) == 3
                 then Some(InvalidMetadata) else None)
    ensures Spoils(b, c, 26, 28) ==>
              LabelError(c) == (if LittleAt16(c, 26) !in {1, 2, 3, 4} then Some(InvalidSourceKind)
                 else if LittleAt16(b, 26) == 4 || LittleAt16(c, 26) == 4
                 then Some(InvalidMetadata) else None)
    ensures Spoils(b, c, 56, 60) ==> LabelError(c) == if SiteHolds(c[56..60]) then None else Some(InvalidSite)
  {
    SpoiltNumber(b, c, 24);
    SpoiltNumber(b, c, 26);
    SameSlice(b, c, 66, 68);
    SameSlice(b, c, 272, 320);
    if Same(b, c, 28, 32) { SameSlice(b, c, 28, 32); }
    if Same(b, c, 56, 60) { SameSlice(b, c, 56, 60); }
  }

  // What is checked after the label does not change with it.
  lemma RestSame(rules: Rules, b: Bytes, c: Bytes)
    requires HeaderError(rules, b).None? && |c| == |b| && Same(b, c, 40, 56) && Same(b, c, 60, |b|)
    ensures DimensionError(c).None? && MetadataError(rules, c).None? && SectionError(c).None?
  {
    DimensionSame(b, c);
    MetadataSame(rules, b, c);
    SectionSame(b, c);
  }

  lemma SectionSame(b: Bytes, c: Bytes)
    requires |c| == |b| >= HEADER_BYTES && LittleAt32(b, 68) <= MAX_RADIALS && LittleAt32(b, 76) <= MAX_CELLS
    requires Same(b, c, 61, 62) && Same(b, c, 68, 80) && Same(b, c, 240, 272) && Same(b, c, 320, |b|)
    ensures LittleAt32(c, 68) == LittleAt32(b, 68) && LittleAt32(c, 76) == LittleAt32(b, 76)
    ensures SectionError(c) == SectionError(b)
  {
    SameNumber(b, c, 68);
    SameNumber(b, c, 76);
    SameTable(b, c);
    if LayoutIn(b).Total() == |b| { PaddingSame(b, c); }
  }

  lemma SameTable(b: Bytes, c: Bytes)
    requires Same(b, c, 240, 272)
    ensures LittleAt32(c, 240) == LittleAt32(b, 240) && LittleAt32(c, 244) == LittleAt32(b, 244)
    ensures LittleAt32(c, 248) == LittleAt32(b, 248) && LittleAt32(c, 252) == LittleAt32(b, 252)
    ensures LittleAt32(c, 256) == LittleAt32(b, 256) && LittleAt32(c, 260) == LittleAt32(b, 260)
    ensures LittleAt32(c, 264) == LittleAt32(b, 264) && LittleAt32(c, 268) == LittleAt32(b, 268)
  {
  }

  lemma PaddingSame(b: Bytes, c: Bytes)
    requires |c| == |b| && FitsArrays(b) && FitsArrays(c) && LayoutIn(c) == LayoutIn(b) && Same(b, c, 320, |b|)
    ensures PaddingIsZero(c) <==> PaddingIsZero(b)
  {
    var l := LayoutIn(b);
    LayoutFits(l);
    SameSlice(b, c, l.RadialEnd(), l.ValueOffset());
    SameSlice(b, c, l.ValueEnd(), l.StatusOffset());
    SameSlice(b, c, l.StatusEnd(), l.RawOffset());
    SameSlice(b, c, l.RawEnd(), l.Total());
  }

  // Changing one dimension breaks the product of the two; a spacing only has to be positive.
  lemma SpoiltDimensions(rules: Rules, b: Bytes, c: Bytes)
    requires HeaderError(rules, b).None?
    ensures Spoils(b, c, 68, 72) || Spoils(b, c, 72, 76) || Spoils(b, c, 76, 80) ==>
              HeaderError(rules, c) == Some(InvalidDimensions)
    ensures Spoils(b, c, 80, 84) ==>
              HeaderError(rules, c) == if LittleAt32(c, 80) == 0 then Some(InvalidMetadata) else None
  {
    if |b| == |c| && Same(b, c, 0, 68) && Same(b, c, 84, |b|) {
      EnvelopeSame(b, c);
      LabelSame(b, c);
      SpoiltSize(b, c);
      MetadataSame(rules, b, c);
      if Same(b, c, 68, 80) { SectionSame(b, c); }
    }
  }

  lemma SpoiltSize(b: Bytes, c: Bytes)
    requires |b| == |c| >= HEADER_BYTES && DimensionError(b).None?
    ensures Spoils(b, c, 68, 72) || Spoils(b, c, 72, 76) || Spoils(b, c, 76, 80) ==>
              DimensionError(c) == Some(InvalidDimensions)
    ensures Spoils(b, c, 80, 84) ==>
              DimensionError(c) == if LittleAt32(c, 80) == 0 then Some(InvalidMetadata) else None
  {
    if Spoils(b, c, 68, 72) {
      SpoiltNumber(b, c, 68);
      SizesDiffer(LittleAt32(b, 68), LittleAt32(c, 68), LittleAt32(b, 72));
      SameNumber(b, c, 72);
      SameNumber(b, c, 76);
    } else if Spoils(b, c, 72, 76) {
      SpoiltNumber(b, c, 72);
      SizesDiffer(LittleAt32(b, 72), LittleAt32(c, 72), LittleAt32(b, 68));
      SameNumber(b, c, 68);
      SameNumber(b, c, 76);
    } else if Same(b, c, 68, 76) {
      SpoiltNumber(b, c, 76);
      SameNumber(b, c, 68);
      SameNumber(b, c, 72);
    }
  }

  lemma SizesDiffer(m: nat, n: nat, k: nat)
    requires k > 0 && m != n
    ensures m * k != n * k
  {
  }

  // The rule for the number at an offset.
  predicate NumberHolds(rules: Rules, offset: nat, number: U32) {
    if offset == 88 then rules.latitude(number)
    else if offset == 92 then rules.longitude(number)
    else if offset == 100 then rules.elevation(number)
    else rules.finite(number)
  }

  // A coordinate, an elevation or a scale is refused exactly when its rule refuses it.
  lemma ChangedNumber(rules: Rules, b: Bytes, c: Bytes, offset: nat)
    requires HeaderError(rules, b).None? && offset in {88, 92, 100, 104, 108} && Spoils(b, c, offset, offset + 4)
    ensures HeaderError(rules, c) == Checked(NumberHolds(rules, offset, LittleAt32(c, offset)))
  {
    FrontSame(rules, b, c);
    NumberChecked(rules, b, c, offset);
  }

  lemma NumberChecked(rules: Rules, b: Bytes, c: Bytes, offset: nat)
    requires |c| == |b| >= HEADER_BYTES && MetadataError(rules, b).None? && offset in {88, 92, 100, 104, 108}
    requires Same(b, c, 40, 56) && Same(b, c, 88, offset) && Same(b, c, offset + 4, 144) && Same(b, c, 176, 192)
    ensures MetadataError(rules, c) == Checked(NumberHolds(rules, offset, LittleAt32(c, offset)))
  {
    SameTimes(b, c);
    SameSlice(b, c, 40, 56);
    SameSlice(b, c, 176, 192);
    if offset != 88 { SameNumber(b, c, 88); }
    if offset != 92 { SameNumber(b, c, 92); }
    if offset != 100 { SameNumber(b, c, 100); }
    if offset != 104 { SameNumber(b, c, 104); }
    if offset != 108 { SameNumber(b, c, 108); }
  }

  function Checked(holds: bool): Option<PackedSweepError> {
    if holds then None else Some(InvalidMetadata)
  }

  // Only the metadata is left to check.
  lemma FrontSame(rules: Rules, b: Bytes, c: Bytes)
    requires HeaderError(rules, b).None? && |c| == |b|
    requires Same(b, c, 0, 40) && Same(b, c, 56, 88) && Same(b, c, 240, |b|)
    ensures HeaderError(rules, c) == MetadataError(rules, c)
  {
    EnvelopeSame(b, c);
    LabelSame(b, c);
    DimensionSame(b, c);
    SectionSame(b, c);
  }

  // A volume or a sweep must not end before it starts.
  lemma ChangedTime(rules: Rules, b: Bytes, c: Bytes)
    requires HeaderError(rules, b).None?
    requires Spoils(b, c, 112, 120) || Spoils(b, c, 120, 128) || Spoils(b, c, 128, 136) || Spoils(b, c, 136, 144)
    ensures HeaderError(rules, c) == Checked(InTime(c))
  {
    FrontSame(rules, b, c);
    TimesChecked(rules, b, c);
  }

  predicate InTime(b: Bytes)
    requires |b| >= HEADER_BYTES
  {
    && Signed64(LittleAt64(b, 112)) <= Signed64(LittleAt64(b, 120))
    && Signed64(LittleAt64(b, 128)) <= Signed64(LittleAt64(b, 136))
  }

  lemma TimesChecked(rules: Rules, b: Bytes, c: Bytes)
    requires |c| == |b| >= HEADER_BYTES && MetadataError(rules, b).None?
    requires Same(b, c, 40, 56) && Same(b, c, 88, 112) && Same(b, c, 176, 192)
    ensures MetadataError(rules, c) == Checked(InTime(c))
  {
    SameNumbers(b, c);
    SameSlice(b, c, 40, 56);
    SameSlice(b, c, 176, 192);
  }

  lemma SameNumbers(b: Bytes, c: Bytes)
    requires Same(b, c, 88, 112)
    ensures LittleAt32(c, 88) == LittleAt32(b, 88) && LittleAt32(c, 92) == LittleAt32(b, 92)
    ensures LittleAt32(c, 100) == LittleAt32(b, 100) && LittleAt32(c, 104) == LittleAt32(b, 104)
    ensures LittleAt32(c, 108) == LittleAt32(b, 108)
  {
  }

  // The observation is named by the first half of the normalized hash.
  lemma SpoiltObservation(rules: Rules, b: Bytes, c: Bytes)
    requires HeaderError(rules, b).None? && (Spoils(b, c, 40, 56) || Spoils(b, c, 176, 192))
    ensures HeaderError(rules, c) == Some(ObservationIdMismatch)
  {
    FrontSame(rules, b, c);
    ObservationChecked(rules, b, c);
  }

  lemma ObservationChecked(rules: Rules, b: Bytes, c: Bytes)
    requires |c| == |b| >= HEADER_BYTES && MetadataError(rules, b).None? && Same(b, c, 88, 144)
    requires Spoils(b, c, 40, 56) || Spoils(b, c, 176, 192)
    ensures MetadataError(rules, c) == Some(ObservationIdMismatch)
  {
    SameNumbers(b, c);
    SameTimes(b, c);
    if Same(b, c, 40, 56) { SameSlice(b, c, 40, 56); } else { SameSlice(b, c, 176, 192); }
  }

  // Each of the eight numbers of the section table is the only one its header allows.
  lemma SpoiltSection(rules: Rules, b: Bytes, c: Bytes, offset: nat)
    requires HeaderError(rules, b).None? && offset in {240, 244, 248, 252, 256, 260, 264, 268}
    requires Spoils(b, c, offset, offset + 4)
    ensures HeaderError(rules, c) == Some(InvalidSection)
  {
    TableOnly(rules, b, c);
    SpoiltNumber(b, c, offset);
    TableIsChecked(b, c, offset);
  }

  // Only the section table and the padding are left to check.
  lemma TableOnly(rules: Rules, b: Bytes, c: Bytes)
    requires HeaderError(rules, b).None? && |c| == |b| && Same(b, c, 0, 240) && Same(b, c, 272, 320)
    ensures LayoutIn(c) == LayoutIn(b) && FitsArrays(c)
    ensures HeaderError(rules, c) == SectionError(c)
  {
    EnvelopeSame(b, c);
    LabelSame(b, c);
    DimensionSame(b, c);
    MetadataSame(rules, b, c);
    SameNumber(b, c, 68);
    SameNumber(b, c, 76);
  }

  lemma TableIsChecked(b: Bytes, c: Bytes, offset: nat)
    requires |c| == |b| >= HEADER_BYTES && LittleAt32(b, 68) <= MAX_RADIALS && LittleAt32(b, 76) <= MAX_CELLS
    requires LayoutIn(c) == LayoutIn(b) && SectionError(b).None?
    requires offset in {240, 244, 248, 252, 256, 260, 264, 268} && LittleAt32(c, offset) != LittleAt32(b, offset)
    ensures SectionError(c) == Some(InvalidSection)
  {
  }

  // A byte between the sections, or after the last, must be zero.
  lemma SpoiltPadding(rules: Rules, b: Bytes, c: Bytes, i: nat)
    requires HeaderError(rules, b).None? && HEADER_BYTES <= i < |b| && Spoils(b, c, i, i + 1)
    ensures HeaderError(rules, c) == if InSection(LayoutIn(b), i) then None else Some(NonzeroReserved)
  {
    TableOnly(rules, b, c);
    PaddingChecked(b, c, i);
  }

  lemma PaddingChecked(b: Bytes, c: Bytes, i: nat)
    requires |c| == |b| && FitsArrays(b) && FitsArrays(c) && LayoutIn(c) == LayoutIn(b) && SectionError(b).None?
    requires HEADER_BYTES <= i < |b| && Spoils(b, c, i, i + 1)
    ensures SectionError(c) == if InSection(LayoutIn(b), i) then None else Some(NonzeroReserved)
  {
    assert b[i..i + 1] == [b[i]] && c[i..i + 1] == [c[i]];
    SameTable(b, c);
    PaddingSpoilt(b, c, i);
  }

  predicate InSection(l: Layout, i: nat) {
    || i < l.RadialEnd() || l.ValueOffset() <= i < l.ValueEnd() || l.StatusOffset() <= i < l.StatusEnd()
    || l.RawOffset() <= i < l.RawEnd()
  }

  lemma PaddingSpoilt(b: Bytes, c: Bytes, i: nat)
    requires |c| == |b| && FitsArrays(b) && FitsArrays(c) && LayoutIn(c) == LayoutIn(b) && PaddingIsZero(b)
    requires HEADER_BYTES <= i < |b| && c[i] != b[i] && Same(b, c, HEADER_BYTES, i) && Same(b, c, i + 1, |b|)
    ensures PaddingIsZero(c) <==> InSection(LayoutIn(b), i)
  {
    var l := LayoutIn(b);
    LayoutFits(l);
    OneByte(b, c, i, l.RadialEnd(), l.ValueOffset());
    OneByte(b, c, i, l.ValueEnd(), l.StatusOffset());
    OneByte(b, c, i, l.StatusEnd(), l.RawOffset());
    OneByte(b, c, i, l.RawEnd(), l.Total());
  }

  lemma OneByte(b: Bytes, c: Bytes, i: nat, from: nat, to: nat)
    requires |c| == |b| && HEADER_BYTES <= i < |b| && c[i] != b[i]
    requires Same(b, c, HEADER_BYTES, i) && Same(b, c, i + 1, |b|)
    requires HEADER_BYTES <= from <= to <= |b| && AllZero(b[from..to])
    ensures AllZero(c[from..to]) <==> !(from <= i < to)
  {
    if from <= i < to {
      assert c[from..to][i - from] == c[i] && b[from..to][i - from] == b[i];
    } else {
      SameSlice(b, c, from, to);
    }
  }

  // A wire hash other than the buffer's own is refused, whatever else is wrong with the arrays.
  lemma SpoiltHash(sha: Digest, rules: Rules, b: Bytes, c: Bytes)
    requires HeaderError(rules, b).None? && b[WIRE_HASH..WIRE_HASH_END] == WireHash(sha, b)
    requires Spoils(b, c, WIRE_HASH, WIRE_HASH_END)
    ensures HeaderError(rules, c).None? && c[WIRE_HASH..WIRE_HASH_END] != WireHash(sha, c)
  {
    FrontSame(rules, b, c);
    MetadataSame(rules, b, c);
    SameButHash(sha, b, c);
  }

  lemma SameButHash(sha: Digest, b: Bytes, c: Bytes)
    requires |b| == |c| >= HEADER_BYTES && Same(b, c, 0, WIRE_HASH) && Same(b, c, WIRE_HASH_END, |b|)
    ensures WireHash(sha, c) == WireHash(sha, b)
  {
    SameSlice(b, c, 0, WIRE_HASH);
    SameSlice(b, c, WIRE_HASH_END, |b|);
    assert b[..WIRE_HASH] == b[0..WIRE_HASH] && c[..WIRE_HASH] == c[0..WIRE_HASH];
    assert b[WIRE_HASH_END..] == b[WIRE_HASH_END..|b|] && c[WIRE_HASH_END..] == c[WIRE_HASH_END..|b|];
  }

  // The hash binds every other byte: two buffers that carry the same hash, each
  // its own, are the same, or SHA-256 takes two different strings to it.
  lemma HashBinds(sha: Digest, b: Bytes, c: Bytes)
    requires |b| >= HEADER_BYTES && |c| >= HEADER_BYTES && b != c
    requires b[208..240] == WireHash(sha, b) && c[208..240] == WireHash(sha, c) && b[208..240] == c[208..240]
    ensures b[..208] + b[240..] != c[..208] + c[240..] && sha(b[..208] + b[240..]) == sha(c[..208] + c[240..])
  {
    SplitEqual(b[..208], b[240..], c[..208], c[240..]);
    assert b == b[..208] + b[208..240] + b[240..] && c == c[..208] + c[208..240] + c[240..];
  }
}
