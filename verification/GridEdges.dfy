// A smooth sample past the outermost cell centres (src/national-radar/sampling.ts).
// East and south of the last centres it holds the edge cell. West and north of the
// first centres the lower index is clamped and the fraction is not, so there
// the edge is held only where the first two columns, or rows, agree.
module GridEdges {
  import opened NumericPyramid
  import opened ChunkRecords
  import opened GridSampling

  // ----- A smooth sample as a mix of its two sides -----

  function Mix(a: real, b: real, fraction: real): real {
    (1.0 - fraction) * a + fraction * b
  }

  // What a cell brings per unit of weight: to the coverage, and to the weighted sum.
  function Measured(encoding: ValueEncoding): Code -> real {
    (raw: Code) => if StatusOf(encoding, raw).Valid? then 1.0 else 0.0
  }

  function Amount(encoding: ValueEncoding): Code -> real {
    (raw: Code) => if StatusOf(encoding, raw).Valid? then raw as real else 0.0
  }

  function Total(value: Code -> real, corners: seq<Corner>): real {
    if corners == [] then 0.0
    else
      var last := corners[|corners| - 1];
      Total(value, corners[..|corners| - 1]) + last.weight * value(last.raw)
  }

  // Two cells and how far a position lies between them.
  datatype Side = Side(first: Code, second: Code, fraction: real)

  function SideTotal(value: Code -> real, s: Side): real {
    Mix(value(s.first), value(s.second), s.fraction)
  }

  // Two sides between which a mix shows no change: measured alike, with the same weighted codes.
  ghost predicate SidesAgree(encoding: ValueEncoding, s: Side, t: Side) {
    && SideTotal(Measured(encoding), s) == SideTotal(Measured(encoding), t)
    && (SideTotal(Measured(encoding), s) > 0.0 ==> SideTotal(Amount(encoding), s) == SideTotal(Amount(encoding), t))
  }

  function WestSide(v: View): Side { Side(v.lowerLower, v.lowerUpper, v.fractionY) }
  function EastSide(v: View): Side { Side(v.upperLower, v.upperUpper, v.fractionY) }
  function NorthSide(v: View): Side { Side(v.lowerLower, v.upperLower, v.fractionX) }
  function SouthSide(v: View): Side { Side(v.lowerUpper, v.upperUpper, v.fractionX) }

  lemma {:induction false} SumsAreTotals(encoding: ValueEncoding, corners: seq<Corner>)
    ensures Coverage(encoding, corners) == Total(Measured(encoding), corners)
    ensures Weighted(encoding, corners) == Total(Amount(encoding), corners)
  {
    if corners != [] { SumsAreTotals(encoding, corners[..|corners| - 1]); }
  }

  lemma TotalAdds(value: Code -> real, c: seq<Corner>, i: nat)
    requires i < |c|
    ensures Total(value, c[..i + 1]) == Total(value, c[..i]) + c[i].weight * value(c[i].raw)
  {
    assert c[..i + 1][..i] == c[..i];
  }

  lemma TotalOfFour(value: Code -> real, c: Corner, d: Corner, e: Corner, f: Corner)
    ensures Total(value, [c, d, e, f])
            == c.weight * value(c.raw) + d.weight * value(d.raw) + e.weight * value(e.raw) + f.weight * value(f.raw)
  {
    var all := [c, d, e, f];
    TotalAdds(value, all, 0);
    TotalAdds(value, all, 1);
    TotalAdds(value, all, 2);
    TotalAdds(value, all, 3);
    assert all[..4] == all;
  }

  // Four bilinear weights make a mix of mixes, either axis first.
  lemma Bilinear(a: real, b: real, p: real, q: real, r: real, s: real)
    ensures (1.0 - a) * (1.0 - b) * p + a * (1.0 - b) * q + (1.0 - a) * b * r + a * b * s
            == Mix(Mix(p, r, b), Mix(q, s, b), a)
    ensures (1.0 - a) * (1.0 - b) * p + a * (1.0 - b) * q + (1.0 - a) * b * r + a * b * s
            == Mix(Mix(p, q, a), Mix(r, s, a), b)
  {
  }

  lemma TotalMixes(value: Code -> real, v: View)
    ensures Total(value, Corners(v)) == Mix(SideTotal(value, WestSide(v)), SideTotal(value, EastSide(v)), v.fractionX)
    ensures Total(value, Corners(v)) == Mix(SideTotal(value, NorthSide(v)), SideTotal(value, SouthSide(v)), v.fractionY)
  {
    var c := Corners(v);
    TotalOfFour(value, c[0], c[1], c[2], c[3]);
    Bilinear(v.fractionX, v.fractionY, value(v.lowerLower), value(v.upperLower), value(v.lowerUpper),
             value(v.upperUpper));
  }

  // A smooth sample mixes its west and east sides, and as well its north and south sides.
  lemma MixOfSides(encoding: ValueEncoding, v: View)
    ensures Shown(encoding, Smooth, v)
            == Mixed(encoding, v.nearest,
                     Mix(SideTotal(Measured(encoding), WestSide(v)), SideTotal(Measured(encoding), EastSide(v)),
                         v.fractionX),
                     Mix(SideTotal(Amount(encoding), WestSide(v)), SideTotal(Amount(encoding), EastSide(v)),
                         v.fractionX))
    ensures Shown(encoding, Smooth, v)
            == Mixed(encoding, v.nearest,
                     Mix(SideTotal(Measured(encoding), NorthSide(v)), SideTotal(Measured(encoding), SouthSide(v)),
                         v.fractionY),
                     Mix(SideTotal(Amount(encoding), NorthSide(v)), SideTotal(Amount(encoding), SouthSide(v)),
                         v.fractionY))
  {
    SumsAreTotals(encoding, Corners(v));
    TotalMixes(Measured(encoding), v);
    TotalMixes(Amount(encoding), v);
  }

  lemma SideIsCovered(encoding: ValueEncoding, s: Side)
    requires 0.0 <= s.fraction < 1.0
    ensures 0.0 <= SideTotal(Measured(encoding), s) <= 1.0
  {
  }

  lemma MixIsFirst(a: real, b: real, fraction: real)
    requires fraction > 0.0
    ensures Mix(a, b, fraction) == a <==> a == b
    ensures a == b ==> Mix(a, b, fraction) == a
  {
    assert Mix(a, b, fraction) - a == fraction * (b - a);
    if a != b { NonZero(fraction, b - a); }
  }

  lemma NonZero(a: real, b: real)
    requires a != 0.0 && b != 0.0
    ensures a * b != 0.0
  {
  }

  lemma EqualMeans(coverage: real, p: real, q: real)
    requires coverage > 0.0
    ensures p / coverage == q / coverage <==> p == q
  {
    assert p / coverage * coverage == p && q / coverage * coverage == q;
  }

  // Moving off a side leaves the fragment as it was exactly when the two sides agree.
  lemma HeldMix(encoding: ValueEncoding, nearest: Code, c0: real, w0: real, c1: real, w1: real, fraction: real)
    requires 0.0 <= c0 <= 1.0 && 0.0 <= c1 <= 1.0 && 0.0 < fraction < 1.0
    ensures Mixed(encoding, nearest, Mix(c0, c1, fraction), Mix(w0, w1, fraction)) == Mixed(encoding, nearest, c0, w0)
            <==> c0 == c1 && (c0 > 0.0 ==> w0 == w1)
  {
    var c, w := Mix(c0, c1, fraction), Mix(w0, w1, fraction);
    MixIsFirst(c0, c1, fraction);
    MixIsFirst(w0, w1, fraction);
    MixInUnit(c0, c1, fraction);
    if c > 0.0 && c == c0 { EqualMeans(c, w, w0); }
  }

  lemma MixInUnit(a: real, b: real, fraction: real)
    requires 0.0 <= a <= 1.0 && 0.0 <= b <= 1.0 && 0.0 < fraction < 1.0
    ensures 0.0 <= Mix(a, b, fraction) <= 1.0
  {
    Product(1.0 - fraction, a);
    Product(fraction, b);
    Product(1.0 - fraction, 1.0 - a);
    Product(fraction, 1.0 - b);
  }

  lemma HeldInX(encoding: ValueEncoding, v: View, fraction: real)
    requires Proper(v) && v.fractionX == 0.0 && 0.0 < fraction < 1.0
    ensures Shown(encoding, Smooth, v.(fractionX := fraction)) == Shown(encoding, Smooth, v)
            <==> SidesAgree(encoding, WestSide(v), EastSide(v))
  {
    MixOfSides(encoding, v);
    MixOfSides(encoding, v.(fractionX := fraction));
    SideIsCovered(encoding, WestSide(v));
    SideIsCovered(encoding, EastSide(v));
    HeldMix(encoding, v.nearest, SideTotal(Measured(encoding), WestSide(v)), SideTotal(Amount(encoding), WestSide(v)),
            SideTotal(Measured(encoding), EastSide(v)), SideTotal(Amount(encoding), EastSide(v)), fraction);
  }

  lemma HeldInY(encoding: ValueEncoding, v: View, fraction: real)
    requires Proper(v) && v.fractionY == 0.0 && 0.0 < fraction < 1.0
    ensures Shown(encoding, Smooth, v.(fractionY := fraction)) == Shown(encoding, Smooth, v)
            <==> SidesAgree(encoding, NorthSide(v), SouthSide(v))
  {
    MixOfSides(encoding, v);
    MixOfSides(encoding, v.(fractionY := fraction));
    SideIsCovered(encoding, NorthSide(v));
    SideIsCovered(encoding, SouthSide(v));
    HeldMix(encoding, v.nearest, SideTotal(Measured(encoding), NorthSide(v)), SideTotal(Amount(encoding), NorthSide(v)),
            SideTotal(Measured(encoding), SouthSide(v)), SideTotal(Amount(encoding), SouthSide(v)), fraction);
  }

  // ----- Before the first centre -----

  // Before the first centre the nearest cell is the first, and the neighbours
  // and fractions are those of one cell further.
  lemma AxisRepeats(x: real, length: nat)
    requires length > 0 && -1.0 < x < 0.0
    ensures AxisAt(x, length) == AxisAt(0.0, length).(fraction := x + 1.0)
    ensures AxisAt(x, length).lower == AxisAt(x + 1.0, length).lower
    ensures AxisAt(x, length).upper == AxisAt(x + 1.0, length).upper
    ensures AxisAt(x, length).fraction == AxisAt(x + 1.0, length).fraction
    ensures AxisAt(0.0, length) == AxisSample(0, 0, if 1 < length then 1 else 0, 0.0)
  {
    assert x.Floor == -1 && (x + 1.0).Floor == 0 && -1 <= (x + 0.5).Floor <= 0;
    assert (0.0 as real).Floor == 0 && (0.5 as real).Floor == 0;
  }

  // Left of the first centre a smooth sample mixes the first two columns as it does one cell further right.
  lemma EdgeRepeats(g: Grid, x: real, y: real)
    requires Reducible(g) && -1.0 < x < 0.0
    ensures ViewOf(g, x, y) == ViewOf(g, x + 1.0, y).(nearest := ViewOf(g, x, y).nearest)
  {
    AxisRepeats(x, g.width);
  }

  // The side of the two rows around `y` in a column, and of the two columns around `x` in a row.
  function ColumnAt(g: Grid, column: nat, y: real): Side
    requires Reducible(g) && column < g.width
  {
    var b := AxisAt(y, g.height);
    Side(Cell(g, column, b.lower), Cell(g, column, b.upper), b.fraction)
  }

  function RowAt(g: Grid, row: nat, x: real): Side
    requires Reducible(g) && row < g.height
  {
    var a := AxisAt(x, g.width);
    Side(Cell(g, a.lower, row), Cell(g, a.upper, row), a.fraction)
  }

  // West of the first centre a smooth sample holds the edge exactly where the
  // grid has one column or its first two agree between the rows.
  lemma WestEdge(encoding: ValueEncoding, g: Grid, x: real, y: real)
    requires Reducible(g) && -1.0 < x < 0.0
    ensures Sample(encoding, g, Smooth, x, y) == Sample(encoding, g, Smooth, 0.0, y)
            <==> g.width == 1 || SidesAgree(encoding, ColumnAt(g, 0, y), ColumnAt(g, 1, y))
  {
    AxisRepeats(x, g.width);
    var v := ViewOf(g, 0.0, y);
    assert ViewOf(g, x, y) == v.(fractionX := x + 1.0);
    HeldInX(encoding, v, x + 1.0);
  }

  // The same north of the first centre, for the first two rows between the columns.
  lemma NorthEdge(encoding: ValueEncoding, g: Grid, x: real, y: real)
    requires Reducible(g) && -1.0 < y < 0.0
    ensures Sample(encoding, g, Smooth, x, y) == Sample(encoding, g, Smooth, x, 0.0)
            <==> g.height == 1 || SidesAgree(encoding, RowAt(g, 0, x), RowAt(g, 1, x))
  {
    AxisRepeats(y, g.height);
    var v := ViewOf(g, x, 0.0);
    assert ViewOf(g, x, y) == v.(fractionY := y + 1.0);
    HeldInY(encoding, v, y + 1.0);
  }

  // ----- A whole edge -----

  // Two cells a reader cannot tell apart: the same code, or neither measured.
  predicate Alike(encoding: ValueEncoding, a: Code, b: Code) {
    a == b || (!StatusOf(encoding, a).Valid? && !StatusOf(encoding, b).Valid?)
  }

  // The edge is held at every position before the first centre.
  ghost predicate WestHeld(encoding: ValueEncoding, g: Grid)
    requires Reducible(g)
  {
    forall x: real, y: real :: -1.0 < x < 0.0 ==>
      Sample(encoding, g, Smooth, x, y) == Sample(encoding, g, Smooth, 0.0, y)
  }

  ghost predicate NorthHeld(encoding: ValueEncoding, g: Grid)
    requires Reducible(g)
  {
    forall x: real, y: real :: -1.0 < y < 0.0 ==>
      Sample(encoding, g, Smooth, x, y) == Sample(encoding, g, Smooth, x, 0.0)
  }

  ghost predicate ColumnsAlike(encoding: ValueEncoding, g: Grid)
    requires WellShaped(g) && 1 < g.width
  {
    forall j: nat :: j < g.height ==> Alike(encoding, Cell(g, 0, j), Cell(g, 1, j))
  }

  ghost predicate RowsAlike(encoding: ValueEncoding, g: Grid)
    requires WellShaped(g) && 1 < g.height
  {
    forall i: nat :: i < g.width ==> Alike(encoding, Cell(g, i, 0), Cell(g, i, 1))
  }

  lemma AlikeSides(encoding: ValueEncoding, s: Side, t: Side)
    requires s.fraction == t.fraction && Alike(encoding, s.first, t.first) && Alike(encoding, s.second, t.second)
    ensures SidesAgree(encoding, s, t)
  {
  }

  lemma AgreeAtCentre(encoding: ValueEncoding, s: Side, t: Side)
    requires s.fraction == 0.0 && t.fraction == 0.0 && SidesAgree(encoding, s, t)
    ensures Alike(encoding, s.first, t.first)
  {
  }

  // The west edge is held everywhere exactly when the first two columns are alike.
  lemma WestIsHeld(encoding: ValueEncoding, g: Grid)
    requires Reducible(g)
    ensures WestHeld(encoding, g) <==> g.width == 1 || ColumnsAlike(encoding, g)
  {
    if g.width == 1 || ColumnsAlike(encoding, g) {
      forall x: real, y: real | -1.0 < x < 0.0
        ensures Sample(encoding, g, Smooth, x, y) == Sample(encoding, g, Smooth, 0.0, y)
      {
        WestEdge(encoding, g, x, y);
        if 1 < g.width { AlikeSides(encoding, ColumnAt(g, 0, y), ColumnAt(g, 1, y)); }
      }
    } else if WestHeld(encoding, g) {
      forall j: nat | j < g.height
        ensures Alike(encoding, Cell(g, 0, j), Cell(g, 1, j))
      {
        AxisCentre(j, g.height);
        WestEdge(encoding, g, -0.5, j as real);
        assert Sample(encoding, g, Smooth, -0.5, j as real) == Sample(encoding, g, Smooth, 0.0, j as real);
        AgreeAtCentre(encoding, ColumnAt(g, 0, j as real), ColumnAt(g, 1, j as real));
      }
    }
  }

  // The north edge is held everywhere exactly when the first two rows are alike.
  lemma NorthIsHeld(encoding: ValueEncoding, g: Grid)
    requires Reducible(g)
    ensures NorthHeld(encoding, g) <==> g.height == 1 || RowsAlike(encoding, g)
  {
    if g.height == 1 || RowsAlike(encoding, g) {
      forall x: real, y: real | -1.0 < y < 0.0
        ensures Sample(encoding, g, Smooth, x, y) == Sample(encoding, g, Smooth, x, 0.0)
      {
        NorthEdge(encoding, g, x, y);
        if 1 < g.height { AlikeSides(encoding, RowAt(g, 0, x), RowAt(g, 1, x)); }
      }
    } else if NorthHeld(encoding, g) {
      forall i: nat | i < g.width
        ensures Alike(encoding, Cell(g, i, 0), Cell(g, i, 1))
      {
        AxisCentre(i, g.width);
        NorthEdge(encoding, g, i as real, -0.5);
        assert Sample(encoding, g, Smooth, i as real, -0.5) == Sample(encoding, g, Smooth, i as real, 0.0);
        AgreeAtCentre(encoding, RowAt(g, 0, i as real), RowAt(g, 1, i as real));
      }
    }
  }

  // Half a cell west of the first centre, next to an unmeasured second column,
  // the first column's measured cell is drawn at half opacity.
  lemma FadedEdge()
    ensures var g := Grid(2, 1, [10200, 0]);
            && Reducible(g) && Sample(NATIONAL_ENCODING, g, Smooth, 0.0, 0.0).coverage == 1.0
            && Sample(NATIONAL_ENCODING, g, Smooth, -0.5, 0.0).coverage == 0.5
  {
    var g := Grid(2, 1, [10200, 0]);
    AxisRepeats(-0.5, 2);
    AxisCentre(0, 1);
    AxisCentre(0, 2);
    assert Cell(g, 0, 0) == 10200 && Cell(g, 1, 0) == 0;
    FadedView(ViewOf(g, 0.0, 0.0), 0.0);
    FadedView(ViewOf(g, -0.5, 0.0), 0.5);
  }

  lemma FadedView(v: View, fraction: real)
    requires v == View(10200, 10200, 0, 10200, 0, fraction, 0.0) && 0.0 <= fraction < 1.0
    ensures Shown(NATIONAL_ENCODING, Smooth, v).coverage == 1.0 - fraction
  {
    MixOfSides(NATIONAL_ENCODING, v);
    assert SideTotal(Measured(NATIONAL_ENCODING), WestSide(v)) == 1.0;
    assert SideTotal(Measured(NATIONAL_ENCODING), EastSide(v)) == 0.0;
  }

  // ----- Past the last centre -----

  lemma AxisEnds(x: real, length: nat)
    requires length > 0 && x >= (length - 1) as real
    ensures var a := AxisAt(x, length);
            a.nearest == length - 1 && a.lower == length - 1 && a.upper == length - 1
  {
  }

  lemma MixOfSame(p: real, fraction: real)
    ensures Mix(p, p, fraction) == p
  {
  }

  lemma SameSides(encoding: ValueEncoding, v: View)
    requires v.lowerLower == v.upperLower && v.lowerUpper == v.upperUpper
    ensures Shown(encoding, Smooth, v)
            == Mixed(encoding, v.nearest, SideTotal(Measured(encoding), WestSide(v)),
                     SideTotal(Amount(encoding), WestSide(v)))
  {
    MixOfSides(encoding, v);
    MixOfSame(SideTotal(Measured(encoding), WestSide(v)), v.fractionX);
    MixOfSame(SideTotal(Amount(encoding), WestSide(v)), v.fractionX);
  }

  lemma SameEnds(encoding: ValueEncoding, v: View)
    requires v.lowerLower == v.lowerUpper && v.upperLower == v.upperUpper
    ensures Shown(encoding, Smooth, v)
            == Mixed(encoding, v.nearest, SideTotal(Measured(encoding), NorthSide(v)),
                     SideTotal(Amount(encoding), NorthSide(v)))
  {
    MixOfSides(encoding, v);
    MixOfSame(SideTotal(Measured(encoding), NorthSide(v)), v.fractionY);
    MixOfSame(SideTotal(Amount(encoding), NorthSide(v)), v.fractionY);
  }

  // East of the last centre every grid holds its edge.
  lemma EastIsHeld(encoding: ValueEncoding, g: Grid, x: real, y: real)
    requires Reducible(g) && x >= (g.width - 1) as real
    ensures Sample(encoding, g, Smooth, x, y) == Sample(encoding, g, Smooth, (g.width - 1) as real, y)
  {
    var last := (g.width - 1) as real;
    AxisEnds(x, g.width);
    AxisEnds(last, g.width);
    SameSides(encoding, ViewOf(g, x, y));
    SameSides(encoding, ViewOf(g, last, y));
  }

  // South of the last centre every grid holds its edge.
  lemma SouthIsHeld(encoding: ValueEncoding, g: Grid, x: real, y: real)
    requires Reducible(g) && y >= (g.height - 1) as real
    ensures Sample(encoding, g, Smooth, x, y) == Sample(encoding, g, Smooth, x, (g.height - 1) as real)
  {
    var last := (g.height - 1) as real;
    AxisEnds(y, g.height);
    AxisEnds(last, g.height);
    SameEnds(encoding, ViewOf(g, x, y));
    SameEnds(encoding, ViewOf(g, x, last));
  }
}
