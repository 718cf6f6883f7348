// Fixed-width integers in wire records, and records written field by field.
module WireBytes {
  import opened Common

  type Bytes = seq<Byte>

  const TWO_16: int := 0x1_0000
  const TWO_32: int := 0x1_0000_0000
  const TWO_63: int := 0x8000_0000_0000_0000
  const TWO_64: int := 0x1_0000_0000_0000_0000

  // ----- Big-endian -----

  function Big16(v: nat): (b: Bytes)
    ensures |b| == 2
  {
    [v / 0x100 % 0x100, v % 0x100]
  }

  function Big32(v: nat): (b: Bytes)
    ensures |b| == 4
  {
    Big16(v / 0x1_0000) + Big16(v % 0x1_0000)
  }

  function Big64(v: nat): (b: Bytes)
    ensures |b| == 8
  {
    Big32(v / 0x1_0000_0000) + Big32(v % 0x1_0000_0000)
  }

  function BigAt16(b: Bytes, offset: nat): (v: nat)
    requires offset + 2 <= |b|
    ensures v < 0x1_0000
  {
    (b[offset] as int) * 0x100 + b[offset + 1] as int
  }

  function BigAt32(b: Bytes, offset: nat): (v: nat)
    requires offset + 4 <= |b|
    ensures v < 0x1_0000_0000
  {
    BigAt16(b, offset) * 0x1_0000 + BigAt16(b, offset + 2)
  }

  function BigAt64(b: Bytes, offset: nat): (v: nat)
    requires offset + 8 <= |b|
    ensures v < 0x1_0000_0000_0000_0000
  {
    BigAt32(b, offset) * 0x1_0000_0000 + BigAt32(b, offset + 4)
  }

  lemma Big16Reads(b: Bytes, offset: nat, v: nat)
    requires v < 0x1_0000 && offset + 2 <= |b| && b[offset..offset + 2] == Big16(v)
    ensures BigAt16(b, offset) == v
  {
    assert b[offset] == b[offset..offset + 2][0] && b[offset + 1] == b[offset..offset + 2][1];
  }

  lemma Big32Reads(b: Bytes, offset: nat, v: nat)
    requires v < 0x1_0000_0000 && offset + 4 <= |b| && b[offset..offset + 4] == Big32(v)
    ensures BigAt32(b, offset) == v
  {
    assert b[offset..offset + 2] == b[offset..offset + 4][..2] == Big16(v / 0x1_0000);
    assert b[offset + 2..offset + 4] == b[offset..offset + 4][2..] == Big16(v % 0x1_0000);
    Big16Reads(b, offset, v / 0x1_0000);
    Big16Reads(b, offset + 2, v % 0x1_0000);
  }

  lemma Big64Reads(b: Bytes, offset: nat, v: nat)
    requires v < 0x1_0000_0000_0000_0000 && offset + 8 <= |b| && b[offset..offset + 8] == Big64(v)
    ensures BigAt64(b, offset) == v
  {
    assert b[offset..offset + 4] == b[offset..offset + 8][..4] == Big32(v / 0x1_0000_0000);
    assert b[offset + 4..offset + 8] == b[offset..offset + 8][4..] == Big32(v % 0x1_0000_0000);
    Big32Reads(b, offset, v / 0x1_0000_0000);
    Big32Reads(b, offset + 4, v % 0x1_0000_0000);
  }

  lemma Big32IsCanonical(b: Bytes, offset: nat)
    requires offset + 4 <= |b|
    ensures Big32(BigAt32(b, offset)) == b[offset..offset + 4]
  {
    Big16IsCanonical(b, offset);
    Big16IsCanonical(b, offset + 2);
    Split32(BigAt16(b, offset), BigAt16(b, offset + 2));
    assert b[offset..offset + 4] == b[offset..offset + 2] + b[offset + 2..offset + 4];
  }

  lemma Big64IsCanonical(b: Bytes, offset: nat)
    requires offset + 8 <= |b|
    ensures Big64(BigAt64(b, offset)) == b[offset..offset + 8]
  {
    Big32IsCanonical(b, offset);
    Big32IsCanonical(b, offset + 4);
    BigSplit64(BigAt32(b, offset), BigAt32(b, offset + 4));
    assert b[offset..offset + 8] == b[offset..offset + 4] + b[offset + 4..offset + 8];
  }

  lemma BigSplit64(high: nat, low: nat)
    requires high < TWO_32 && low < TWO_32
    ensures (high * TWO_32 + low) / TWO_32 == high && (high * TWO_32 + low) % TWO_32 == low
  {
  }

  lemma Big16IsCanonical(b: Bytes, offset: nat)
    requires offset + 2 <= |b|
    ensures Big16(BigAt16(b, offset)) == b[offset..offset + 2]
  {
  }

  lemma Split32(high: nat, low: nat)
    requires high < TWO_16 && low < TWO_16
    ensures (high * TWO_16 + low) / TWO_16 == high && (high * TWO_16 + low) % TWO_16 == low
  {
  }

  // ----- Little-endian -----

  function Little16(v: nat): (b: Bytes)
    ensures |b| == 2
  {
    [v % 0x100, v / 0x100 % 0x100]
  }

  function Little32(v: nat): (b: Bytes)
    ensures |b| == 4
  {
    Little16(v % 0x1_0000) + Little16(v / 0x1_0000)
  }

  function Little64(v: nat): (b: Bytes)
    ensures |b| == 8
  {
    Little32(v % 0x1_0000_0000) + Little32(v / 0x1_0000_0000)
  }

  function LittleAt16(b: Bytes, offset: nat): (v: nat)
    requires offset + 2 <= |b|
    ensures v < 0x1_0000
  {
    (b[offset] as int) + (b[offset + 1] as int) * 0x100
  }

  function LittleAt32(b: Bytes, offset: nat): (v: nat)
    requires offset + 4 <= |b|
    ensures v < 0x1_0000_0000
  {
    LittleAt16(b, offset) + LittleAt16(b, offset + 2) * 0x1_0000
  }

  function LittleAt64(b: Bytes, offset: nat): (v: nat)
    requires offset + 8 <= |b|
    ensures v < 0x1_0000_0000_0000_0000
  {
    LittleAt32(b, offset) + LittleAt32(b, offset + 4) * 0x1_0000_0000
  }

  lemma Little16Reads(b: Bytes, offset: nat, v: nat)
    requires v < 0x1_0000 && offset + 2 <= |b| && b[offset..offset + 2] == Little16(v)
    ensures LittleAt16(b, offset) == v
  {
    assert b[offset] == b[offset..offset + 2][0] && b[offset + 1] == b[offset..offset + 2][1];
  }

  lemma Little32Reads(b: Bytes, offset: nat, v: nat)
    requires v < 0x1_0000_0000 && offset + 4 <= |b| && b[offset..offset + 4] == Little32(v)
    ensures LittleAt32(b, offset) == v
  {
    assert b[offset..offset + 2] == b[offset..offset + 4][..2] == Little16(v % 0x1_0000);
    assert b[offset + 2..offset + 4] == b[offset..offset + 4][2..] == Little16(v / 0x1_0000);
    Little16Reads(b, offset, v % 0x1_0000);
    Little16Reads(b, offset + 2, v / 0x1_0000);
  }

  lemma Little64Reads(b: Bytes, offset: nat, v: nat)
    requires v < 0x1_0000_0000_0000_0000 && offset + 8 <= |b| && b[offset..offset + 8] == Little64(v)
    ensures LittleAt64(b, offset) == v
  {
    assert b[offset..offset + 4] == b[offset..offset + 8][..4] == Little32(v % 0x1_0000_0000);
    assert b[offset + 4..offset + 8] == b[offset..offset + 8][4..] == Little32(v / 0x1_0000_0000);
    Little32Reads(b, offset, v % 0x1_0000_0000);
    Little32Reads(b, offset + 4, v / 0x1_0000_0000);
  }

  // Bytes are the encoding of the number they read as.
  lemma Little16IsCanonical(b: Bytes, offset: nat)
    requires offset + 2 <= |b|
    ensures Little16(LittleAt16(b, offset)) == b[offset..offset + 2]
  {
  }

  lemma Little32IsCanonical(b: Bytes, offset: nat)
    requires offset + 4 <= |b|
    ensures Little32(LittleAt32(b, offset)) == b[offset..offset + 4]
  {
    Little16IsCanonical(b, offset);
    Little16IsCanonical(b, offset + 2);
    Split32(LittleAt16(b, offset + 2), LittleAt16(b, offset));
    assert b[offset..offset + 4] == b[offset..offset + 2] + b[offset + 2..offset + 4];
  }

  lemma Little64IsCanonical(b: Bytes, offset: nat)
    requires offset + 8 <= |b|
    ensures Little64(LittleAt64(b, offset)) == b[offset..offset + 8]
  {
    Little32IsCanonical(b, offset);
    Little32IsCanonical(b, offset + 4);
    Split64(LittleAt32(b, offset + 4), LittleAt32(b, offset));
    assert b[offset..offset + 8] == b[offset..offset + 4] + b[offset + 4..offset + 8];
  }

  lemma Split64(high: nat, low: nat)
    requires high < TWO_32 && low < TWO_32
    ensures (low + high * TWO_32) / TWO_32 == high && (low + high * TWO_32) % TWO_32 == low
  {
  }

  // Two's complement, as signed 64-bit integers are written.
  function Unsigned64(i: int): (v: nat)
    requires -TWO_63 <= i < TWO_63
    ensures v < 0x1_0000_0000_0000_0000
  {
    if i < 0 then i + TWO_64 else i
  }

  function Signed64(v: nat): (i: int)
    requires v < 0x1_0000_0000_0000_0000
    ensures -TWO_63 <= i < TWO_63 && Unsigned64(i) == v
  {
    if v < TWO_63 then v else v - TWO_64
  }

  // ----- Fields of a record -----

  datatype Field = Field(offset: nat, data: Bytes) {
    function End(): nat { offset + |data| }
  }

  function Put(record: Bytes, f: Field): (r: Bytes)
    requires f.End() <= |record|
    ensures |r| == |record|
  {
    record[..f.offset] + f.data + record[f.End()..]
  }

  ghost predicate FitIn(fields: seq<Field>, from: nat, to: nat) {
    forall i :: 0 <= i < |fields| ==> from <= fields[i].offset && fields[i].End() <= to
  }

  // In order and disjoint.
  ghost predicate InOrder(fields: seq<Field>) {
    forall i, j :: 0 <= i < j < |fields| ==> fields[i].End() <= fields[j].offset
  }

  // Adjacent fields in order are all in order.
  lemma {:induction false} AdjacentInOrder(fields: seq<Field>)
    requires forall i :: 0 <= i < |fields| - 1 ==> fields[i].End() <= fields[i + 1].offset
    ensures InOrder(fields)
  {
    if |fields| > 1 {
      var last := |fields| - 1;
      AdjacentInOrder(fields[..last]);
      forall i | 0 <= i < last ensures fields[i].End() <= fields[last].offset {
        assert fields[..last][i] == fields[i] && fields[..last][last - 1] == fields[last - 1];
        assert i == last - 1 || fields[..last][i].End() <= fields[..last][last - 1].offset;
      }
    }
  }

  function PutAll(record: Bytes, fields: seq<Field>): (r: Bytes)
    requires FitIn(fields, 0, |record|)
    ensures |r| == |record|
  {
    if fields == [] then record
    else Put(PutAll(record, fields[..|fields| - 1]), fields[|fields| - 1])
  }

  lemma PutReadsBack(record: Bytes, f: Field)
    requires f.End() <= |record|
    ensures Put(record, f)[f.offset..f.End()] == f.data
  {
  }

  lemma PutElsewhere(record: Bytes, f: Field, from: nat, to: nat)
    requires f.End() <= |record| && from <= to <= |record| && (to <= f.offset || f.End() <= from)
    ensures Put(record, f)[from..to] == record[from..to]
  {
  }

  ghost predicate ReadsField(record: Bytes, f: Field) {
    f.End() <= |record| && record[f.offset..f.End()] == f.data
  }

  // Reading any of the fields gives what was put there.
  ghost predicate Reads(record: Bytes, fields: seq<Field>) {
    forall i :: 0 <= i < |fields| ==> ReadsField(record, fields[i])
  }

  // Putting a field behind others leaves them readable.
  lemma PutKeepsReads(record: Bytes, fields: seq<Field>, f: Field)
    requires Reads(record, fields) && f.End() <= |record|
    requires forall i :: 0 <= i < |fields| ==> fields[i].End() <= f.offset
    ensures Reads(Put(record, f), fields + [f])
  {
    forall i | 0 <= i < |fields| ensures ReadsField(Put(record, f), fields[i]) {
      assert ReadsField(record, fields[i]);
      PutElsewhere(record, f, fields[i].offset, fields[i].End());
    }
    PutReadsBack(record, f);
  }

  lemma {:induction false} FieldsReadBack(record: Bytes, fields: seq<Field>)
    requires FitIn(fields, 0, |record|) && InOrder(fields)
    ensures Reads(PutAll(record, fields), fields)
  {
    if fields != [] {
      var before, last := fields[..|fields| - 1], fields[|fields| - 1];
      FieldsReadBack(record, before);
      PutKeepsReads(PutAll(record, before), before, last);
      assert fields == before + [last];
    }
  }

  // Bytes no field covers keep what they held.
  lemma {:induction false} GapsStay(record: Bytes, fields: seq<Field>, from: nat, to: nat)
    requires FitIn(fields, 0, |record|) && from <= to <= |record|
    requires forall i :: 0 <= i < |fields| ==> fields[i].End() <= from || to <= fields[i].offset
    ensures PutAll(record, fields)[from..to] == record[from..to]
  {
    if fields != [] {
      var last := |fields| - 1;
      GapsStay(record, fields[..last], from, to);
      PutElsewhere(PutAll(record, fields[..last]), fields[last], from, to);
    }
  }

  // Fields that end within a prefix leave what follows it alone.
  lemma {:induction false} PutAllIn(front: Bytes, rest: Bytes, fields: seq<Field>)
    requires FitIn(fields, 0, |front|)
    ensures PutAll(front + rest, fields) == PutAll(front, fields) + rest
  {
    if fields != [] {
      var last := |fields| - 1;
      PutAllIn(front, rest, fields[..last]);
      PutIn(PutAll(front, fields[..last]), rest, fields[last]);
    }
  }

  lemma PutIn(front: Bytes, rest: Bytes, f: Field)
    requires f.End() <= |front|
    ensures Put(front + rest, f) == Put(front, f) + rest
  {
  }

  // A table's field reads back as the value written.
  lemma Big16In(record: Bytes, fields: seq<Field>, i: nat, offset: nat, value: nat)
    requires Reads(record, fields) && i < |fields| && fields[i] == Field(offset, Big16(value)) && value < 0x1_0000
    ensures offset + 2 <= |record| && BigAt16(record, offset) == value
  {
    assert ReadsField(record, fields[i]);
    Big16Reads(record, offset, value);
  }

  lemma Big32In(record: Bytes, fields: seq<Field>, i: nat, offset: nat, value: nat)
    requires Reads(record, fields) && i < |fields| && fields[i] == Field(offset, Big32(value)) && value < 0x1_0000_0000
    ensures offset + 4 <= |record| && BigAt32(record, offset) == value
  {
    assert ReadsField(record, fields[i]);
    Big32Reads(record, offset, value);
  }

  lemma Big64In(record: Bytes, fields: seq<Field>, i: nat, offset: nat, value: nat)
    requires Reads(record, fields) && i < |fields| && fields[i] == Field(offset, Big64(value))
    requires value < 0x1_0000_0000_0000_0000
    ensures offset + 8 <= |record| && BigAt64(record, offset) == value
  {
    assert ReadsField(record, fields[i]);
    Big64Reads(record, offset, value);
  }

  lemma DataIn(record: Bytes, fields: seq<Field>, i: nat)
    requires Reads(record, fields) && i < |fields|
    ensures fields[i].End() <= |record| && record[fields[i].offset..fields[i].End()] == fields[i].data
  {
    assert ReadsField(record, fields[i]);
  }

  // A table's field is read back exactly when its bytes read as its value.
  lemma Little16Field(record: Bytes, offset: nat, value: nat)
    requires offset + 2 <= |record| && value < 0x1_0000
    ensures ReadsField(record, Field(offset, Little16(value))) <==> LittleAt16(record, offset) == value
  {
    Little16IsCanonical(record, offset);
    if ReadsField(record, Field(offset, Little16(value))) { Little16Reads(record, offset, value); }
  }

  lemma Little32Field(record: Bytes, offset: nat, value: nat)
    requires offset + 4 <= |record| && value < 0x1_0000_0000
    ensures ReadsField(record, Field(offset, Little32(value))) <==> LittleAt32(record, offset) == value
  {
    Little32IsCanonical(record, offset);
    if ReadsField(record, Field(offset, Little32(value))) { Little32Reads(record, offset, value); }
  }

  lemma Little64Field(record: Bytes, offset: nat, value: nat)
    requires offset + 8 <= |record| && value < 0x1_0000_0000_0000_0000
    ensures ReadsField(record, Field(offset, Little64(value))) <==> LittleAt64(record, offset) == value
  {
    Little64IsCanonical(record, offset);
    if ReadsField(record, Field(offset, Little64(value))) { Little64Reads(record, offset, value); }
  }

  // One range of bytes is changed and no other.
  ghost predicate Spoils(b: Bytes, c: Bytes, from: nat, to: nat) {
    from <= to <= |b| == |c| && b[from..to] != c[from..to] && Same(b, c, 0, from) && Same(b, c, to, |b|)
  }

  ghost predicate Same(b: Bytes, c: Bytes, from: nat, to: nat) {
    to <= |b| && to <= |c| && forall i :: from <= i < to ==> c[i] == b[i]
  }

  lemma SameSlice(b: Bytes, c: Bytes, from: nat, to: nat)
    requires from <= to && Same(b, c, from, to)
    ensures c[from..to] == b[from..to]
  {
  }

  lemma SpoiltNumber(b: Bytes, c: Bytes, offset: nat)
    ensures Spoils(b, c, offset, offset + 2) ==> LittleAt16(c, offset) != LittleAt16(b, offset)
    ensures Spoils(b, c, offset, offset + 4) ==> LittleAt32(c, offset) != LittleAt32(b, offset)
  {
    if offset + 2 <= |b| == |c| {
      Little16IsCanonical(b, offset);
      Little16IsCanonical(c, offset);
    }
    if offset + 4 <= |b| == |c| {
      Little32IsCanonical(b, offset);
      Little32IsCanonical(c, offset);
    }
  }

  // Each field begins where the one before it ends.
  ghost predicate Tiled(fields: seq<Field>, from: nat, to: nat) {
    if fields == [] then from == to
    else fields[|fields| - 1].End() == to && Tiled(fields[..|fields| - 1], from, fields[|fields| - 1].offset)
  }

  lemma {:induction false} TiledFits(fields: seq<Field>, from: nat, to: nat)
    requires Tiled(fields, from, to)
    ensures from <= to && FitIn(fields, from, to) && InOrder(fields)
  {
    if fields != [] {
      var before := fields[..|fields| - 1];
      TiledFits(before, from, fields[|fields| - 1].offset);
      assert forall i :: 0 <= i < |before| ==> fields[i] == before[i];
    }
  }

  lemma {:induction false} AdjacentTiled(fields: seq<Field>, from: nat, to: nat)
    requires fields != [] && fields[0].offset == from && fields[|fields| - 1].End() == to
    requires forall i :: 0 <= i < |fields| - 1 ==> fields[i].End() == fields[i + 1].offset
    ensures Tiled(fields, from, to)
  {
    if |fields| > 1 { AdjacentTiled(fields[..|fields| - 1], from, fields[|fields| - 1].offset); }
  }

  lemma {:induction false} TiledJoins(i: seq<Field>, j: seq<Field>, from: nat, seam: nat, to: nat)
    requires Tiled(i, from, seam) && Tiled(j, seam, to)
    ensures Tiled(i + j, from, to)
  {
    if j == [] {
      assert i + j == i;
    } else {
      var last := |j| - 1;
      TiledJoins(i, j[..last], from, seam, j[last].offset);
      assert (i + j)[..|i + j| - 1] == i + j[..last];
    }
  }

  // Tiles leave no byte undetermined.
  lemma {:induction false} TilesDetermine(b: Bytes, c: Bytes, fields: seq<Field>, from: nat, to: nat)
    requires Tiled(fields, from, to) && Reads(b, fields) && Reads(c, fields) && from <= |b| && from <= |c|
    ensures from <= to <= |b| && to <= |c| && b[from..to] == c[from..to]
  {
    if fields != [] {
      var last := fields[|fields| - 1];
      TiledFits(fields, from, to);
      TilesDetermine(b, c, fields[..|fields| - 1], from, last.offset);
      assert ReadsField(b, last) && ReadsField(c, last);
      assert b[from..to] == b[from..last.offset] + b[last.offset..to];
      assert c[from..to] == c[from..last.offset] + c[last.offset..to];
    }
  }

  function Zeros(n: nat): (b: Bytes)
    ensures |b| == n
  {
    seq(n, _ => 0)
  }

  predicate AllZero(b: Bytes) {
    forall i :: 0 <= i < |b| ==> b[i] == 0
  }

  // Writes one field in place.
  method WriteField(record: array<Byte>, f: Field)
    requires f.End() <= record.Length
    modifies record
    ensures record[..] == Put(old(record[..]), f)
  {
    var data := f.data;
    for i := 0 to |data|
      invariant forall j :: 0 <= j < record.Length ==>
                  record[j] == if f.offset <= j < f.offset + i then data[j - f.offset] else old(record[j])
    {
      record[f.offset + i] := data[i];
    }
  }

  // Writes fields into a record in place, in order.
  method WriteFields(record: array<Byte>, fields: seq<Field>)
    requires FitIn(fields, 0, record.Length)
    modifies record
    ensures record[..] == PutAll(old(record[..]), fields)
  {
    for k := 0 to |fields|
      invariant record[..] == PutAll(old(record[..]), fields[..k])
    {
      WriteField(record, fields[k]);
      assert fields[..k + 1][..k] == fields[..k];
    }
    assert fields[..|fields|] == fields;
  }
}
