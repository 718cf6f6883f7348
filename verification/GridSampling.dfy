// Sampling a grid for display, and why chunks with halos leave no seams
// (src/national-radar/sampling.ts; src-tauri/src/packed_grid.rs, `chunk_level`).
// Positions are exact: cell (i, j) is centred at x = i, y = j.
module GridSampling {
  import opened Common
  import opened NumericPyramid
  import opened PackedGrid
  import opened ChunkRecords

  datatype Mode = Native | Smooth

  // `raw` is the nearest cell's code, or for a smooth sample a weighted mean of codes.
  datatype Fragment = Fragment(status: Status, raw: real, value: Option<real>, coverage: real)

  function ValueOf(raw: real): real {
    (-9990.0 + raw) / 10.0
  }

  // One code is a tenth of a dBZ, and code 9990 is 0 dBZ.
  lemma ValueSteps(raw: real, step: real)
    ensures ValueOf(raw + step) == ValueOf(raw) + step / 10.0 && ValueOf(9990.0) == 0.0
  {
  }

  function Clamp(value: int, minimum: int, maximum: int): int {
    var capped := if value < maximum then value else maximum;
    if capped < minimum then minimum else capped
  }

  // ----- One axis -----

  // The nearest cell, the two cells a position lies between, and how far it is past the lower one.
  datatype AxisSample = AxisSample(nearest: nat, lower: nat, upper: nat, fraction: real)

  function AxisAt(x: real, length: nat): (a: AxisSample)
    requires length > 0
    ensures a.nearest < length && a.lower <= a.upper < length && 0.0 <= a.fraction < 1.0
  {
    var lower := Clamp(x.Floor, 0, length - 1);
    AxisSample(Clamp((x + 0.5).Floor, 0, length - 1), lower, if lower + 1 < length - 1 then lower + 1 else length - 1,
               x - x.Floor as real)
  }

  // Within half a cell of the interior, a tile's halo samples as the whole axis does.
  ghost predicate InFootprint(t: Tile, x: real) {
    t.interior as real - 0.5 <= x <= (t.interior + t.interiorLength) as real - 0.5
  }

  lemma FloorShifts(x: real, n: nat)
    ensures (x - n as real).Floor == x.Floor - n
  {
  }

  // An index clamped to a run of cells, when it only leaves the run where the run ends with the axis.
  lemma ClampShifts(i: int, from: nat, n: nat, length: nat)
    requires 0 < n && from + n <= length && (from == 0 || from <= i) && (from + n == length || i < from + n)
    ensures from <= Clamp(i, 0, length - 1) < from + n && Clamp(i - from, 0, n - 1) == Clamp(i, 0, length - 1) - from
  {
  }

  // The cells around a position in a tile's footprint are in the tile's halo, or past the axis's own end.
  lemma FootprintInHalo(length: nat, chunk: nat, x: real)
    requires chunk * CHUNK_INTERIOR < length && InFootprint(TileOf(length, chunk), x)
    ensures var t := TileOf(length, chunk);
            && (t.halo == 0 || t.halo <= x.Floor) && (t.halo == 0 || t.halo <= (x + 0.5).Floor)
            && (t.halo + t.haloLength == length || (1 < t.halo + t.haloLength && x.Floor + 1 < t.halo + t.haloLength
                                                   && (x + 0.5).Floor < t.halo + t.haloLength))
  {
    var t := TileOf(length, chunk);
    assert t.halo == 0 || t.halo == t.interior - 1;
    assert t.halo + t.haloLength == length || t.halo + t.haloLength == t.interior + t.interiorLength + 1;
  }

  // A tile's halo samples a position as the whole axis does, shifted to the halo's first cell.
  ghost predicate AxisSees(length: nat, t: Tile, x: real) {
    && 0 < length && 0 < t.haloLength && InHalo(AxisAt(x, length), t)
    && AxisAt(x - t.halo as real, t.haloLength) == Local(AxisAt(x, length), t)
  }

  lemma AxisShifts(length: nat, chunk: nat, t: Tile, x: real)
    requires chunk * CHUNK_INTERIOR < length && t == TileOf(length, chunk) && InFootprint(t, x)
    ensures AxisSees(length, t, x)
  {
    FootprintInHalo(length, chunk, x);
    AxisMoves(x, t, length);
  }

  lemma AxisMoves(x: real, t: Tile, length: nat)
    requires 0 < t.haloLength && t.halo + t.haloLength <= length
    requires (t.halo == 0 || t.halo <= x.Floor) && (t.halo == 0 || t.halo <= (x + 0.5).Floor)
    requires t.halo + t.haloLength == length || (1 < t.halo + t.haloLength && x.Floor + 1 < t.halo + t.haloLength
                                                 && (x + 0.5).Floor < t.halo + t.haloLength)
    ensures AxisSees(length, t, x)
  {
    FloorShifts(x, t.halo);
    FloorShifts(x + 0.5, t.halo);
    assert x - t.halo as real + 0.5 == x + 0.5 - t.halo as real;
    ClampShifts(x.Floor, t.halo, t.haloLength, length);
    ClampShifts((x + 0.5).Floor, t.halo, t.haloLength, length);
  }

  // ----- Two axes -----

  // What a position sees: the nearest cell's code, its four neighbours' codes, and how it lies between them.
  datatype View = View(nearest: Code, lowerLower: Code, upperLower: Code, lowerUpper: Code, upperUpper: Code,
                       fractionX: real, fractionY: real)

  predicate OnAxis(a: AxisSample, length: nat) {
    a.nearest < length && a.lower < length && a.upper < length
  }

  function ViewAt(g: Grid, a: AxisSample, b: AxisSample): View
    requires WellShaped(g) && OnAxis(a, g.width) && OnAxis(b, g.height)
  {
    View(Cell(g, a.nearest, b.nearest), Cell(g, a.lower, b.lower), Cell(g, a.upper, b.lower), Cell(g, a.lower, b.upper),
         Cell(g, a.upper, b.upper), a.fraction, b.fraction)
  }

  function ViewOf(g: Grid, x: real, y: real): View
    requires Reducible(g)
  {
    ViewAt(g, AxisAt(x, g.width), AxisAt(y, g.height))
  }

  datatype Corner = Corner(raw: Code, weight: real)

  // The neighbours with their bilinear weights.
  function Corners(v: View): (corners: seq<Corner>)
    ensures |corners| == 4
  {
    [Corner(v.lowerLower, (1.0 - v.fractionX) * (1.0 - v.fractionY)),
     Corner(v.upperLower, v.fractionX * (1.0 - v.fractionY)),
     Corner(v.lowerUpper, (1.0 - v.fractionX) * v.fractionY),
     Corner(v.upperUpper, v.fractionX * v.fractionY)]
  }

  predicate Counts(encoding: ValueEncoding, corner: Corner) {
    StatusOf(encoding, corner.raw).Valid?
  }

  // The weight of the measured corners.
  function Coverage(encoding: ValueEncoding, corners: seq<Corner>): real {
    if corners == [] then 0.0
    else
      var last := corners[|corners| - 1];
      Coverage(encoding, corners[..|corners| - 1]) + if Counts(encoding, last) then last.weight else 0.0
  }

  function Weighted(encoding: ValueEncoding, corners: seq<Corner>): real {
    if corners == [] then 0.0
    else
      var last := corners[|corners| - 1];
      Weighted(encoding, corners[..|corners| - 1])
      + if Counts(encoding, last) then last.weight * last.raw as real else 0.0
  }

  function NearestFragment(encoding: ValueEncoding, raw: Code, coverage: real): Fragment {
    Fragment(StatusOf(encoding, raw), raw as real,
             if StatusOf(encoding, raw).Valid? then Some(ValueOf(raw as real)) else None, coverage)
  }

  function Mixed(encoding: ValueEncoding, nearest: Code, coverage: real, weighted: real): Fragment {
    if coverage <= 0.0 then NearestFragment(encoding, nearest, 0.0)
    else
      var raw := weighted / coverage;
      Fragment(Valid, raw, Some(ValueOf(raw)), if coverage < 1.0 then coverage else 1.0)
  }

  function Shown(encoding: ValueEncoding, mode: Mode, v: View): Fragment {
    if mode.Native? then NearestFragment(encoding, v.nearest, if StatusOf(encoding, v.nearest).Valid? then 1.0 else 0.0)
    else Mixed(encoding, v.nearest, Coverage(encoding, Corners(v)), Weighted(encoding, Corners(v)))
  }

  function Sample(encoding: ValueEncoding, g: Grid, mode: Mode, x: real, y: real): Fragment
    requires Reducible(g)
  {
    Shown(encoding, mode, ViewOf(g, x, y))
  }

  method Accumulate(encoding: ValueEncoding, corners: seq<Corner>) returns (coverage: real, weighted: real)
    ensures coverage == Coverage(encoding, corners) && weighted == Weighted(encoding, corners)
  {
    coverage, weighted := 0.0, 0.0;
    for i := 0 to |corners|
      invariant coverage == Coverage(encoding, corners[..i]) && weighted == Weighted(encoding, corners[..i])
    {
      assert corners[..i + 1][..i] == corners[..i];
      if StatusOf(encoding, corners[i].raw) != Valid { continue; }
      coverage := coverage + corners[i].weight;
      weighted := weighted + corners[i].weight * corners[i].raw as real;
    }
    assert corners[..|corners|] == corners;
  }

  method SampleNationalGrid(encoding: ValueEncoding, codes: seq<Code>, width: nat, height: nat, x: real, y: real,
                            mode: Mode)
    returns (r: Result<Fragment, string>)
    ensures r.Err? <==> !Reducible(Grid(width, height, codes))
    ensures r.Ok? ==> r.value == Sample(encoding, Grid(width, height, codes), mode, x, y)
  {
    if width < 1 || height < 1 || |codes| != width * height { return Err("National sampling grid is invalid"); }
    var view := ViewOf(Grid(width, height, codes), x, y);
    if mode.Native? {
      return Ok(NearestFragment(encoding, view.nearest, if StatusOf(encoding, view.nearest).Valid? then 1.0 else 0.0));
    }
    var coverage, weighted := Accumulate(encoding, Corners(view));
    r := Ok(Mixed(encoding, view.nearest, coverage, weighted));
  }

  // ----- What a smooth sample is -----

  ghost predicate NonNegative(corners: seq<Corner>) {
    forall i :: 0 <= i < |corners| ==> corners[i].weight >= 0.0
  }

  lemma Product(a: real, b: real)
    requires 0.0 <= a && 0.0 <= b
    ensures 0.0 <= a * b
  {
  }

  lemma WeightsOfOne(a: real, b: real)
    ensures (1.0 - a) * (1.0 - b) + a * (1.0 - b) + (1.0 - a) * b + a * b == 1.0
  {
    assert (1.0 - a) * (1.0 - b) + a * (1.0 - b) == 1.0 - b;
    assert (1.0 - a) * b + a * b == b;
  }

  predicate Proper(v: View) {
    0.0 <= v.fractionX < 1.0 && 0.0 <= v.fractionY < 1.0
  }

  // The weights are a partition of one.
  lemma WeightsSumToOne(v: View)
    requires Proper(v)
    ensures var c := Corners(v);
            NonNegative(c) && c[0].weight + c[1].weight + c[2].weight + c[3].weight == 1.0
  {
    Product(1.0 - v.fractionX, 1.0 - v.fractionY);
    Product(v.fractionX, 1.0 - v.fractionY);
    Product(1.0 - v.fractionX, v.fractionY);
    Product(v.fractionX, v.fractionY);
    WeightsOfOne(v.fractionX, v.fractionY);
  }

  // Zero coverage means no corner that counts has weight.
  lemma {:induction false} CoverageCounts(encoding: ValueEncoding, corners: seq<Corner>)
    requires NonNegative(corners)
    ensures Coverage(encoding, corners) >= 0.0
    ensures Coverage(encoding, corners) == 0.0 <==>
            forall i :: 0 <= i < |corners| ==> Counts(encoding, corners[i]) ==> corners[i].weight == 0.0
  {
    if corners != [] {
      var last := |corners| - 1;
      CoverageCounts(encoding, corners[..last]);
      assert forall i :: 0 <= i < last ==> corners[..last][i] == corners[i];
    }
  }

  // A weighted sum whose mean lies between two bounds.
  ghost predicate MeanWithin(low: real, high: real, coverage: real, weighted: real) {
    low * coverage <= weighted <= high * coverage
  }

  lemma MeanStep(low: real, high: real, coverage: real, weighted: real, raw: real, weight: real)
    requires MeanWithin(low, high, coverage, weighted) && low <= raw <= high && weight >= 0.0
    ensures MeanWithin(low, high, coverage + weight, weighted + weight * raw)
  {
    Product(raw - low, weight);
    Product(high - raw, weight);
    assert low * (coverage + weight) == low * coverage + low * weight;
    assert high * (coverage + weight) == high * coverage + high * weight;
    assert (raw - low) * weight == weight * raw - low * weight;
    assert (high - raw) * weight == high * weight - weight * raw;
  }

  ghost predicate Between(encoding: ValueEncoding, corners: seq<Corner>, low: real, high: real) {
    forall i :: 0 <= i < |corners| && Counts(encoding, corners[i]) ==> low <= corners[i].raw as real <= high
  }

  // The mean of codes between two bounds lies between them.
  lemma {:induction false} MeanIsBounded(encoding: ValueEncoding, corners: seq<Corner>, low: real, high: real)
    requires NonNegative(corners) && Between(encoding, corners, low, high)
    ensures MeanWithin(low, high, Coverage(encoding, corners), Weighted(encoding, corners))
  {
    if corners != [] {
      var before, last := corners[..|corners| - 1], corners[|corners| - 1];
      MeanIsBounded(encoding, before, low, high);
      if Counts(encoding, last) {
        assert low <= last.raw as real <= high;
        MeanStep(low, high, Coverage(encoding, before), Weighted(encoding, before), last.raw as real, last.weight);
      }
    }
  }

  lemma DivideBounds(low: real, high: real, weighted: real, coverage: real)
    requires coverage > 0.0 && MeanWithin(low, high, coverage, weighted)
    ensures low <= weighted / coverage <= high
  {
    DivideMonotone(low * coverage, weighted, coverage);
    DivideMonotone(weighted, high * coverage, coverage);
    assert low * coverage / coverage == low && high * coverage / coverage == high;
  }

  lemma DivideMonotone(a: real, b: real, c: real)
    requires a <= b && c > 0.0
    ensures a / c <= b / c
  {
  }

  lemma CoverageIsAtMostWeight(encoding: ValueEncoding, c: seq<Corner>)
    requires NonNegative(c) && |c| == 4
    ensures Coverage(encoding, c) <= c[0].weight + c[1].weight + c[2].weight + c[3].weight
  {
    assert c[..3][..2] == c[..2] && c[..2][..1] == c[..1] && c[..1][..0] == [];
    assert Coverage(encoding, c[..1]) <= c[0].weight;
    assert Coverage(encoding, c[..2]) <= c[0].weight + c[1].weight;
    assert Coverage(encoding, c[..3]) <= c[0].weight + c[1].weight + c[2].weight;
  }

  lemma ShownIsAMean(encoding: ValueEncoding, v: View, low: real, high: real)
    requires Proper(v) && Between(encoding, Corners(v), low, high)
    ensures var s := Shown(encoding, Smooth, v);
            0.0 <= s.coverage <= 1.0 && (s.coverage > 0.0 ==> s.status == Valid && low <= s.raw <= high)
    ensures Shown(encoding, Smooth, v).coverage > 0.0 <==>
            exists i :: 0 <= i < 4 && Counts(encoding, Corners(v)[i]) && Corners(v)[i].weight > 0.0
  {
    var c := Corners(v);
    WeightsSumToOne(v);
    CoverageCounts(encoding, c);
    CoverageIsAtMostWeight(encoding, c);
    MeanIsBounded(encoding, c, low, high);
    if Coverage(encoding, c) > 0.0 { DivideBounds(low, high, Weighted(encoding, c), Coverage(encoding, c)); }
  }

  // Anywhere on a grid a smooth sample's opacity is between 0 and 1, and positive
  // exactly when a measured neighbour has weight; its value lies between the
  // measured neighbours' codes, so unmeasured cells never enter it.
  lemma SmoothIsAMean(encoding: ValueEncoding, g: Grid, x: real, y: real, low: real, high: real)
    requires Reducible(g) && Between(encoding, Corners(ViewOf(g, x, y)), low, high)
    ensures var s := Sample(encoding, g, Smooth, x, y);
            0.0 <= s.coverage <= 1.0 && (s.coverage > 0.0 ==> s.status == Valid && low <= s.raw <= high)
    ensures Sample(encoding, g, Smooth, x, y).coverage > 0.0 <==>
            exists i :: 0 <= i < 4 && Counts(encoding, Corners(ViewOf(g, x, y))[i])
                      && Corners(ViewOf(g, x, y))[i].weight > 0.0
  {
    ViewsAreProper(g, x, y);
    ShownIsAMean(encoding, ViewOf(g, x, y), low, high);
  }

  lemma ViewsAreProper(g: Grid, x: real, y: real)
    requires Reducible(g)
    ensures Proper(ViewOf(g, x, y))
  {
  }

  lemma AxisCentre(i: nat, length: nat)
    requires i < length
    ensures AxisAt(i as real, length).nearest == i && AxisAt(i as real, length).lower == i
    ensures AxisAt(i as real, length).fraction == 0.0
  {
    assert (i as real).Floor == i && (i as real + 0.5).Floor == i;
  }

  lemma ShownAtCentre(encoding: ValueEncoding, v: View)
    requires v.fractionX == 0.0 && v.fractionY == 0.0 && v.nearest == v.lowerLower
    ensures Shown(encoding, Smooth, v) == Shown(encoding, Native, v)
  {
    var c := Corners(v);
    assert c[..3][..2] == c[..2] && c[..2][..1] == c[..1] && c[..1][..0] == [];
    assert Coverage(encoding, c[..1]) == (if Counts(encoding, c[0]) then 1.0 else 0.0);
    assert Weighted(encoding, c[..1]) == (if Counts(encoding, c[0]) then v.nearest as real else 0.0);
    assert Coverage(encoding, c[..2]) == Coverage(encoding, c[..1])
           && Weighted(encoding, c[..2]) == Weighted(encoding, c[..1]);
    assert Coverage(encoding, c[..3]) == Coverage(encoding, c[..1])
           && Weighted(encoding, c[..3]) == Weighted(encoding, c[..1]);
    assert Coverage(encoding, c) == Coverage(encoding, c[..1]) && Weighted(encoding, c) == Weighted(encoding, c[..1]);
  }

  // At a cell's centre a smooth sample is the cell itself.
  lemma CentreIsExact(encoding: ValueEncoding, g: Grid, i: nat, j: nat)
    requires WellShaped(g) && i < g.width && j < g.height
    ensures Reducible(g)
    ensures ViewOf(g, i as real, j as real).nearest == Cell(g, i, j)
    ensures Sample(encoding, g, Smooth, i as real, j as real) == Sample(encoding, g, Native, i as real, j as real)
  {
    AxisCentre(i, g.width);
    AxisCentre(j, g.height);
    ShownAtCentre(encoding, ViewOf(g, i as real, j as real));
  }

  // ----- No seams -----

  // The codes of a chunk as a grid of their own.
  function HaloGrid(chunk: Chunk): Grid {
    Grid(chunk.geometry.x.haloLength, chunk.geometry.y.haloLength, chunk.codes)
  }

  lemma HaloCell(g: Grid, chunk: Chunk, x: nat, y: nat)
    requires WellShaped(g) && HaloOf(g, chunk)
    requires chunk.geometry.x.halo <= x < chunk.geometry.x.halo + chunk.geometry.x.haloLength
    requires chunk.geometry.y.halo <= y < chunk.geometry.y.halo + chunk.geometry.y.haloLength
    ensures WellShaped(HaloGrid(chunk)) && x < g.width && y < g.height
    ensures Cell(HaloGrid(chunk), x - chunk.geometry.x.halo, y - chunk.geometry.y.halo) == Cell(g, x, y)
  {
    var t, s := chunk.geometry.x, chunk.geometry.y;
    assert chunk.codes[Index(x - t.halo, y - s.halo, t.haloLength)]
           == Cell(g, t.halo + (x - t.halo), s.halo + (y - s.halo));
  }

  // An axis sample as a tile's halo sees it.
  function Local(a: AxisSample, t: Tile): AxisSample
    requires t.halo <= a.nearest && t.halo <= a.lower && t.halo <= a.upper
  {
    AxisSample(a.nearest - t.halo, a.lower - t.halo, a.upper - t.halo, a.fraction)
  }

  predicate InHalo(a: AxisSample, t: Tile) {
    && t.halo <= a.nearest < t.halo + t.haloLength && t.halo <= a.lower < t.halo + t.haloLength
    && t.halo <= a.upper < t.halo + t.haloLength
  }

  lemma ChunkView(g: Grid, chunk: Chunk, a: AxisSample, b: AxisSample)
    requires WellShaped(g) && HaloOf(g, chunk) && OnAxis(a, g.width) && OnAxis(b, g.height)
    requires InHalo(a, chunk.geometry.x) && InHalo(b, chunk.geometry.y)
    ensures Reducible(HaloGrid(chunk))
    ensures ViewAt(HaloGrid(chunk), Local(a, chunk.geometry.x), Local(b, chunk.geometry.y)) == ViewAt(g, a, b)
  {
    HaloCell(g, chunk, a.nearest, b.nearest);
    HaloCell(g, chunk, a.lower, b.lower);
    HaloCell(g, chunk, a.upper, b.lower);
    HaloCell(g, chunk, a.lower, b.upper);
    HaloCell(g, chunk, a.upper, b.upper);
  }

  // A chunk at its place in a grid.
  ghost predicate ChunkOfGrid(g: Grid, chunk: Chunk, i: nat, j: nat) {
    && Reducible(g) && i * CHUNK_INTERIOR < g.width && j * CHUNK_INTERIOR < g.height
    && chunk.geometry.x == TileOf(g.width, i) && chunk.geometry.y == TileOf(g.height, j) && HaloOf(g, chunk)
  }

  // A chunk's payload sees at a position what the whole grid sees there.
  ghost predicate Sees(g: Grid, chunk: Chunk, x: real, y: real)
    requires Reducible(g)
  {
    && Reducible(HaloGrid(chunk))
    && ViewOf(HaloGrid(chunk), x - chunk.geometry.x.halo as real, y - chunk.geometry.y.halo as real) == ViewOf(g, x, y)
  }

  // Everywhere within half a cell of its interior, edges and corners included,
  // a chunk's payload sees what the whole grid sees.
  lemma HaloSees(g: Grid, chunk: Chunk, i: nat, j: nat, x: real, y: real)
    requires ChunkOfGrid(g, chunk, i, j)
    requires InFootprint(chunk.geometry.x, x) && InFootprint(chunk.geometry.y, y)
    ensures Sees(g, chunk, x, y)
  {
    AxisShifts(g.width, i, chunk.geometry.x, x);
    AxisShifts(g.height, j, chunk.geometry.y, y);
    AxesSee(g, chunk, x, y);
  }

  lemma AxesSee(g: Grid, chunk: Chunk, x: real, y: real)
    requires Reducible(g) && HaloOf(g, chunk) && AxisSees(g.width, chunk.geometry.x, x)
    requires AxisSees(g.height, chunk.geometry.y, y)
    ensures Sees(g, chunk, x, y)
  {
    var a, b := AxisAt(x, g.width), AxisAt(y, g.height);
    LocalView(g, chunk, a, b, x - chunk.geometry.x.halo as real, y - chunk.geometry.y.halo as real);
    ViewIs(g, x, y, a, b);
  }

  lemma ViewIs(g: Grid, x: real, y: real, a: AxisSample, b: AxisSample)
    requires Reducible(g) && a == AxisAt(x, g.width) && b == AxisAt(y, g.height)
    ensures ViewOf(g, x, y) == ViewAt(g, a, b)
  {
  }

  lemma LocalView(g: Grid, chunk: Chunk, a: AxisSample, b: AxisSample, u: real, v: real)
    requires WellShaped(g) && HaloOf(g, chunk) && OnAxis(a, g.width) && OnAxis(b, g.height)
    requires InHalo(a, chunk.geometry.x) && InHalo(b, chunk.geometry.y)
    requires AxisAt(u, chunk.geometry.x.haloLength) == Local(a, chunk.geometry.x)
    requires AxisAt(v, chunk.geometry.y.haloLength) == Local(b, chunk.geometry.y)
    ensures Reducible(HaloGrid(chunk)) && ViewOf(HaloGrid(chunk), u, v) == ViewAt(g, a, b)
  {
    ChunkView(g, chunk, a, b);
  }

  // So a chunk's payload samples to the fragment of the whole grid.
  lemma NoSeams(encoding: ValueEncoding, g: Grid, chunk: Chunk, i: nat, j: nat, mode: Mode, x: real, y: real)
    requires ChunkOfGrid(g, chunk, i, j)
    requires InFootprint(chunk.geometry.x, x) && InFootprint(chunk.geometry.y, y)
    ensures Reducible(HaloGrid(chunk))
    ensures Sample(encoding, HaloGrid(chunk), mode, x - chunk.geometry.x.halo as real,
                   y - chunk.geometry.y.halo as real)
            == Sample(encoding, g, mode, x, y)
  {
    HaloSees(g, chunk, i, j, x, y);
  }

  lemma {:induction false} NoneCounted(encoding: ValueEncoding, corners: seq<Corner>)
    requires forall i :: 0 <= i < |corners| ==> !Counts(encoding, corners[i])
    ensures Coverage(encoding, corners) == 0.0
  {
    if corners != [] { NoneCounted(encoding, corners[..|corners| - 1]); }
  }

  predicate SeesNothing(encoding: ValueEncoding, v: View) {
    && !StatusOf(encoding, v.nearest).Valid?
    && !StatusOf(encoding, v.lowerLower).Valid? && !StatusOf(encoding, v.upperLower).Valid?
    && !StatusOf(encoding, v.lowerUpper).Valid? && !StatusOf(encoding, v.upperUpper).Valid?
  }

  lemma NothingShown(encoding: ValueEncoding, mode: Mode, v: View)
    requires SeesNothing(encoding, v)
    ensures Shown(encoding, mode, v).coverage == 0.0
  {
    NoneCounted(encoding, Corners(v));
  }

  lemma EmptyCell(g: Grid, x: nat, y: nat)
    requires WellShaped(g) && x < g.width && y < g.height && DrawsNothing(g.codes)
    ensures !StatusOf(NATIONAL_ENCODING, Cell(g, x, y)).Valid?
  {
    IndexInGrid(x, y, g.width, g.height);
  }

  lemma EmptyView(g: Grid, a: AxisSample, b: AxisSample)
    requires WellShaped(g) && OnAxis(a, g.width) && OnAxis(b, g.height) && DrawsNothing(g.codes)
    ensures SeesNothing(NATIONAL_ENCODING, ViewAt(g, a, b))
  {
    EmptyCell(g, a.nearest, b.nearest);
    EmptyCell(g, a.lower, b.lower);
    EmptyCell(g, a.upper, b.lower);
    EmptyCell(g, a.lower, b.upper);
    EmptyCell(g, a.upper, b.upper);
  }

  lemma EmptySeen(g: Grid, chunk: Chunk, mode: Mode, x: real, y: real)
    requires Reducible(g) && Sees(g, chunk, x, y) && DrawsNothing(chunk.codes)
    ensures Sample(NATIONAL_ENCODING, g, mode, x, y).coverage == 0.0
  {
    var h := HaloGrid(chunk);
    EmptyView(h, AxisAt(x - chunk.geometry.x.halo as real, h.width),
              AxisAt(y - chunk.geometry.y.halo as real, h.height));
    NothingShown(NATIONAL_ENCODING, mode, ViewOf(g, x, y));
  }

  // Throughout the footprint of a chunk flagged as drawing nothing the whole grid shows nothing.
  lemma NothingDrawn(g: Grid, chunk: Chunk, i: nat, j: nat, mode: Mode, x: real, y: real)
    requires ChunkOfGrid(g, chunk, i, j) && DrawsNothing(chunk.codes)
    requires InFootprint(chunk.geometry.x, x) && InFootprint(chunk.geometry.y, y)
    ensures Sample(NATIONAL_ENCODING, g, mode, x, y).coverage == 0.0
  {
    HaloSees(g, chunk, i, j, x, y);
    EmptySeen(g, chunk, mode, x, y);
  }

  // A chunk is flagged as drawing nothing exactly when no cell of its halo is measured.
  lemma FlagIsUnmeasured(g: Grid, chunk: Chunk, i: nat, j: nat)
    requires ChunkOfGrid(g, chunk, i, j)
    ensures DrawsNothing(chunk.codes) <==>
            forall u: nat, v: nat :: HaloHas(chunk, u, v) ==> !StatusOf(NATIONAL_ENCODING, Cell(g, u, v)).Valid?
  {
    var t, s := chunk.geometry.x, chunk.geometry.y;
    forall u: nat, v: nat | HaloHas(chunk, u, v)
      ensures exists k :: 0 <= k < |chunk.codes| && chunk.codes[k] == Cell(g, u, v)
    {
      HaloCell(g, chunk, u, v);
      assert chunk.codes[Index(u - t.halo, v - s.halo, t.haloLength)] == Cell(g, u, v);
    }
    forall k | 0 <= k < |chunk.codes|
      ensures exists u: nat, v: nat :: HaloHas(chunk, u, v) && chunk.codes[k] == Cell(g, u, v)
    {
      var h := HaloGrid(chunk);
      CellOfIndex(h, k);
      HaloCell(g, chunk, t.halo + k % h.width, s.halo + k / h.width);
      assert HaloHas(chunk, t.halo + k % h.width, s.halo + k / h.width);
    }
  }

  predicate HaloHas(chunk: Chunk, u: nat, v: nat) {
    var t, s := chunk.geometry.x, chunk.geometry.y;
    t.halo <= u < t.halo + t.haloLength && s.halo <= v < s.halo + s.haloLength
  }

  // Some position in a tile's footprint gives a cell of its halo weight.
  lemma FootprintTouches(length: nat, chunk: nat, t: Tile, u: nat) returns (x: real)
    requires chunk * CHUNK_INTERIOR < length && t == TileOf(length, chunk) && t.halo <= u < t.halo + t.haloLength
    ensures InFootprint(t, x) && GivesWeight(AxisAt(x, length), u)
  {
    if u < t.interior {
      x := u as real + 0.5;
      assert x.Floor == u;
    } else if u < t.interior + t.interiorLength {
      x := u as real;
      assert x.Floor == u;
    } else {
      x := u as real - 0.5;
      assert x.Floor == u - 1;
    }
  }

  predicate GivesWeight(a: AxisSample, u: nat) {
    a.lower == u || (a.upper == u && a.fraction > 0.0)
  }

  // Where a measured cell has weight, a smooth sample paints.
  lemma MeasuredPaints(g: Grid, x: real, y: real, u: nat, v: nat)
    requires Reducible(g) && GivesWeight(AxisAt(x, g.width), u) && GivesWeight(AxisAt(y, g.height), v)
    requires u < g.width && v < g.height && StatusOf(NATIONAL_ENCODING, Cell(g, u, v)).Valid?
    ensures Sample(NATIONAL_ENCODING, g, Smooth, x, y).coverage > 0.0
  {
    var a, b := AxisAt(x, g.width), AxisAt(y, g.height);
    var view := ViewOf(g, x, y);
    ViewIs(g, x, y, a, b);
    SmoothIsAMean(NATIONAL_ENCODING, g, x, y, 0.0, 65535.0);
    CornerWeighs(view, a.lower != u, b.lower != v);
    assert Corners(view)[(if a.lower != u then 1 else 0) + if b.lower != v then 2 else 0].raw == Cell(g, u, v);
  }

  // The corner on one side of each axis has weight if the position is not wholly on the other.
  lemma CornerWeighs(v: View, east: bool, south: bool)
    requires Proper(v) && (east ==> v.fractionX > 0.0) && (south ==> v.fractionY > 0.0)
    ensures Corners(v)[(if east then 1 else 0) + if south then 2 else 0].weight > 0.0
  {
    var p, q := if east then v.fractionX else 1.0 - v.fractionX, if south then v.fractionY else 1.0 - v.fractionY;
    ProductIsPositive(p, q);
    assert Corners(v)[(if east then 1 else 0) + if south then 2 else 0].weight == p * q;
  }

  lemma ProductIsPositive(a: real, b: real)
    requires a > 0.0 && b > 0.0
    ensures a * b > 0.0
  {
  }

  // Nothing is painted anywhere in a chunk's footprint.
  ghost predicate Blank(g: Grid, chunk: Chunk, mode: Mode)
    requires Reducible(g)
  {
    forall x: real, y: real :: InFootprint(chunk.geometry.x, x) && InFootprint(chunk.geometry.y, y) ==>
                                 Sample(NATIONAL_ENCODING, g, mode, x, y).coverage == 0.0
  }

  // So the flag is exact: it is set exactly for the chunks whose footprint a smooth sample leaves blank.
  lemma FlagIsBlank(g: Grid, chunk: Chunk, i: nat, j: nat)
    requires ChunkOfGrid(g, chunk, i, j)
    ensures DrawsNothing(chunk.codes) <==> Blank(g, chunk, Smooth)
  {
    if DrawsNothing(chunk.codes) {
      forall x: real, y: real | InFootprint(chunk.geometry.x, x) && InFootprint(chunk.geometry.y, y)
        ensures Sample(NATIONAL_ENCODING, g, Smooth, x, y).coverage == 0.0
      {
        NothingDrawn(g, chunk, i, j, Smooth, x, y);
      }
    } else {
      FlagIsUnmeasured(g, chunk, i, j);
      var u: nat, v: nat :| HaloHas(chunk, u, v) && StatusOf(NATIONAL_ENCODING, Cell(g, u, v)).Valid?;
      var x := FootprintTouches(g.width, i, chunk.geometry.x, u);
      var y := FootprintTouches(g.height, j, chunk.geometry.y, v);
      MeasuredPaints(g, x, y, u, v);
    }
  }
}
