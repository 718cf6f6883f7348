// Which chunks a view needs, and that leaving the others out hides nothing
// (src/national-radar/coverage.ts).
module NationalCoverage {
  import opened Common
  import opened NumericPyramid
  import opened PackedGrid
  import opened ChunkRecords
  import opened RetainedGrid
  import opened GridSampling

  datatype Rectangle = Rectangle(west: real, south: real, east: real, north: real)

  datatype ViewCoverage = ViewCoverage(version: nat, viewport: bool, bounds: Rectangle, required: seq<nat>)

  datatype CoverageError = InvalidVersion | InvalidBounds | RepeatedIndex | UnavailableChunk

  predicate BoundsHold(b: Rectangle) {
    && -180.0 <= b.west <= b.east <= 180.0
    && -90.0 <= b.south <= b.north <= 90.0
  }

  // Half a cell beyond the outermost cell centres.
  function Domain(s: Summary): Rectangle {
    var t := s.transform;
    Rectangle(t.firstLongitude - t.longitudeStep / 2.0,
           t.firstLatitude - (s.frame.height - 1) as real * t.latitudeStep - t.latitudeStep / 2.0,
           t.firstLongitude + (s.frame.width - 1) as real * t.longitudeStep + t.longitudeStep / 2.0,
           t.firstLatitude + t.latitudeStep / 2.0)
  }

  function ChunkBounds(t: Transform, g: Geometry): Rectangle {
    Rectangle(t.firstLongitude + g.x.interior as real * t.longitudeStep - t.longitudeStep / 2.0,
           t.firstLatitude - (g.y.interior + g.y.interiorLength - 1) as real * t.latitudeStep - t.latitudeStep / 2.0,
           t.firstLongitude + (g.x.interior + g.x.interiorLength - 1) as real * t.longitudeStep + t.longitudeStep / 2.0,
           t.firstLatitude - g.y.interior as real * t.latitudeStep + t.latitudeStep / 2.0)
  }

  predicate Intersects(a: Rectangle, b: Rectangle) {
    a.east >= b.west && a.west <= b.east && a.north >= b.south && a.south <= b.north
  }

  predicate Within(b: Rectangle, longitude: real, latitude: real) {
    b.west <= longitude <= b.east && b.south <= latitude <= b.north
  }

  function Clipped(a: Rectangle, b: Rectangle): Rectangle {
    Rectangle(if a.west >= b.west then a.west else b.west, if a.south >= b.south then a.south else b.south,
           if a.east <= b.east then a.east else b.east, if a.north <= b.north then a.north else b.north)
  }

  // The indices of the chunks that draw something and, for a view, reach into it.
  function Needed(t: Transform, chunks: seq<Descriptor>, view: Option<Rectangle>): (required: seq<nat>) {
    if chunks == [] then []
    else
      var last := chunks[|chunks| - 1];
      Needed(t, chunks[..|chunks| - 1], view)
      + if !last.drawsNothing && (view.Some? ==> Intersects(ChunkBounds(t, last.geometry), view.value))
        then [last.geometry.index] else []
  }

  function CompleteDomainCoverage(s: Summary, version: nat): Result<ViewCoverage, CoverageError> {
    if version < 1 then Err(InvalidVersion)
    else Ok(ViewCoverage(version, false, Domain(s), Needed(s.transform, s.chunks, None)))
  }

  function ViewportCoverage(s: Summary, bounds: Rectangle, version: nat): Result<ViewCoverage, CoverageError> {
    if version < 1 then Err(InvalidVersion)
    else if !BoundsHold(bounds) then Err(InvalidBounds)
    else
      var clipped := Clipped(bounds, Domain(s));
      Ok(ViewCoverage(version, true, clipped,
                  if clipped.west > clipped.east || clipped.south > clipped.north then []
                  else Needed(s.transform, s.chunks, Some(clipped))))
  }

  // A descriptor for each index, in order.
  ghost predicate Numbered(chunks: seq<Descriptor>) {
    forall i :: 0 <= i < |chunks| ==> chunks[i].geometry.index == i
  }

  lemma {:induction false} NeededIsFilter(t: Transform, chunks: seq<Descriptor>, view: Option<Rectangle>)
    requires Numbered(chunks)
    ensures StrictlyIncreasing(Needed(t, chunks, view))
    ensures forall n :: n in Needed(t, chunks, view) <==>
              && 0 <= n < |chunks| && !chunks[n].drawsNothing
              && (view.Some? ==> Intersects(ChunkBounds(t, chunks[n].geometry), view.value))
  {
    if chunks != [] {
      var before := chunks[..|chunks| - 1];
      NeededIsFilter(t, before, view);
      assert forall i :: 0 <= i < |before| ==> before[i] == chunks[i];
      var earlier := Needed(t, before, view);
      assert forall i :: 0 <= i < |earlier| ==> earlier[i] in earlier;
    }
  }

  // ----- What a view needs, as points -----

  // Two proper rectangles intersect exactly when they share a point.
  lemma IntersectsIsShared(a: Rectangle, b: Rectangle)
    requires a.west <= a.east && a.south <= a.north && b.west <= b.east && b.south <= b.north
    ensures Intersects(a, b) <==> exists x: real, y: real :: Within(a, x, y) && Within(b, x, y)
  {
    if Intersects(a, b) {
      var x, y := if a.west >= b.west then a.west else b.west, if a.south >= b.south then a.south else b.south;
      assert Within(a, x, y) && Within(b, x, y);
    }
  }

  // Clipping keeps exactly the points of both, and leaves a proper rectangle exactly if there are any.
  lemma ClippedIsCommon(a: Rectangle, b: Rectangle, x: real, y: real)
    ensures Within(Clipped(a, b), x, y) <==> Within(a, x, y) && Within(b, x, y)
    ensures var c := Clipped(a, b);
            a.west <= a.east && a.south <= a.north && b.west <= b.east && b.south <= b.north ==>
              (c.west <= c.east && c.south <= c.north <==>
                 exists u: real, v: real :: Within(a, u, v) && Within(b, u, v))
  {
    var c := Clipped(a, b);
    if c.west <= c.east && c.south <= c.north { assert Within(a, c.west, c.south) && Within(b, c.west, c.south); }
  }

  // A view is taken exactly if its version counts from one, and it has points, all of them on the globe.
  lemma ViewIsTaken(s: Summary, bounds: Rectangle, version: nat)
    ensures ViewportCoverage(s, bounds, version).Ok? <==>
            && version >= 1
            && (exists x: real, y: real :: Within(bounds, x, y))
            && forall x: real, y: real :: Within(bounds, x, y) ==> -180.0 <= x <= 180.0 && -90.0 <= y <= 90.0
    ensures ViewportCoverage(s, bounds, version) == Err(InvalidVersion) <==> version < 1
  {
    if BoundsHold(bounds) { assert Within(bounds, bounds.west, bounds.south); }
    if x: real, y: real :| Within(bounds, x, y) {
      assert Within(bounds, bounds.west, bounds.south) && Within(bounds, bounds.east, bounds.north);
    }
  }

  // Some point of the view and of the domain lies in the chunk.
  ghost predicate Reaches(s: Summary, bounds: Rectangle, n: nat)
    requires n < |s.chunks|
  {
    exists x: real, y: real :: && Within(ChunkBounds(s.transform, s.chunks[n].geometry), x, y)
                               && Within(bounds, x, y) && Within(Domain(s), x, y)
  }

  // A view requires exactly the chunks that draw something and share a point
  // with the part of it inside the domain.
  lemma RequiredReaches(s: Summary, bounds: Rectangle, version: nat, n: nat)
    requires Numbered(s.chunks) && n < |s.chunks|
    requires s.transform.longitudeStep > 0.0 && s.transform.latitudeStep > 0.0
    requires s.frame.width > 0 && s.frame.height > 0
    requires s.chunks[n].geometry.x.interiorLength > 0 && s.chunks[n].geometry.y.interiorLength > 0
    requires ViewportCoverage(s, bounds, version).Ok?
    ensures n in ViewportCoverage(s, bounds, version).value.required <==>
            !s.chunks[n].drawsNothing && Reaches(s, bounds, n)
  {
    var domain, chunk := Domain(s), ChunkBounds(s.transform, s.chunks[n].geometry);
    var clipped := Clipped(bounds, domain);
    DomainIsProper(s);
    ChunkIsProper(s.transform, s.chunks[n].geometry);
    ClippedIsCommon(bounds, domain, 0.0, 0.0);
    forall x: real, y: real ensures Within(clipped, x, y) <==> Within(bounds, x, y) && Within(domain, x, y) {
      ClippedIsCommon(bounds, domain, x, y);
    }
    NeededIsFilter(s.transform, s.chunks, Some(clipped));
    if clipped.west <= clipped.east && clipped.south <= clipped.north { IntersectsIsShared(chunk, clipped); }
  }

  lemma DomainIsProper(s: Summary)
    requires s.transform.longitudeStep > 0.0 && s.transform.latitudeStep > 0.0
    requires s.frame.width > 0 && s.frame.height > 0
    ensures var d := Domain(s); d.west <= d.east && d.south <= d.north
  {
    StepsAreNonNegative(s.frame.width - 1, s.transform.longitudeStep);
    StepsAreNonNegative(s.frame.height - 1, s.transform.latitudeStep);
  }

  lemma ChunkIsProper(t: Transform, g: Geometry)
    requires t.longitudeStep > 0.0 && t.latitudeStep > 0.0 && g.x.interiorLength > 0 && g.y.interiorLength > 0
    ensures var c := ChunkBounds(t, g); c.west <= c.east && c.south <= c.north
  {
    StepsAdd(g.x.interior, g.x.interiorLength - 1, t.longitudeStep);
    StepsAdd(g.y.interior, g.y.interiorLength - 1, t.latitudeStep);
  }

  lemma StepsAreNonNegative(n: nat, step: real)
    requires step > 0.0
    ensures n as real * step >= 0.0
  {
  }

  lemma StepsAdd(m: nat, n: nat, step: real)
    requires step > 0.0
    ensures (m + n) as real * step >= m as real * step
  {
    StepsAreNonNegative(n, step);
    assert (m + n) as real * step == m as real * step + n as real * step;
  }

  // The whole domain requires exactly the chunks that draw something, and its
  // bounds are the domain's; a view's are the part of it inside the domain.
  lemma CoverageSays(s: Summary, bounds: Rectangle, version: nat, n: nat, x: real, y: real)
    requires Numbered(s.chunks)
    ensures CompleteDomainCoverage(s, version).Ok? <==> version >= 1
    ensures version >= 1 ==>
              var c := CompleteDomainCoverage(s, version).value;
              && c.version == version && !c.viewport && c.bounds == Domain(s)
              && (n in c.required <==> n < |s.chunks| && !s.chunks[n].drawsNothing)
    ensures ViewportCoverage(s, bounds, version).Ok? ==>
              var c := ViewportCoverage(s, bounds, version).value;
              && c.version == version && c.viewport
              && (Within(c.bounds, x, y) <==> Within(bounds, x, y) && Within(Domain(s), x, y))
  {
    NeededIsFilter(s.transform, s.chunks, None);
    ClippedIsCommon(bounds, Domain(s), x, y);
  }

  // What the renderer accepts: each required index once, naming a chunk of the manifest.
  ghost predicate Matches(s: Summary, c: ViewCoverage) {
    && Distinct(c.required)
    && forall i :: 0 <= i < |c.required| ==>
         c.required[i] < |s.chunks| && s.chunks[c.required[i]].geometry.index == c.required[i]
  }

  method AssertCoverageMatchesManifest(s: Summary, c: ViewCoverage) returns (r: Result<seq<Descriptor>, CoverageError>)
    ensures r.Ok? <==> c.version >= 1 && BoundsHold(c.bounds) && Matches(s, c)
    ensures r.Ok? ==>
              |r.value| == |c.required| && forall i :: 0 <= i < |c.required| ==> r.value[i] == s.chunks[c.required[i]]
  {
    if c.version < 1 { return Err(InvalidVersion); }
    if !BoundsHold(c.bounds) { return Err(InvalidBounds); }
    var seen: set<nat>, descriptors := {}, [];
    for i := 0 to |c.required|
      invariant forall n :: n in seen <==> n in c.required[..i]
      invariant Matches(s, c.(required := c.required[..i]))
      invariant |descriptors| == i && forall k :: 0 <= k < i ==> descriptors[k] == s.chunks[c.required[k]]
    {
      var index := c.required[i];
      if index in seen {
        assert exists k :: 0 <= k < i && c.required[..i][k] == index;
        return Err(RepeatedIndex);
      }
      seen := seen + {index};
      if index >= |s.chunks| || s.chunks[index].geometry.index != index { return Err(UnavailableChunk); }
      assert c.required[..i + 1] == c.required[..i] + [index];
      descriptors := descriptors + [s.chunks[index]];
    }
    assert c.required[..|c.required|] == c.required;
    r := Ok(descriptors);
  }

  // Coverages made from a manifest name its chunks once each.
  lemma CoverageMatches(s: Summary, bounds: Rectangle, version: nat)
    requires Numbered(s.chunks)
    ensures CompleteDomainCoverage(s, version).Ok? ==> Matches(s, CompleteDomainCoverage(s, version).value)
    ensures ViewportCoverage(s, bounds, version).Ok? ==> Matches(s, ViewportCoverage(s, bounds, version).value)
  {
    NeededInRange(s.transform, s.chunks, None);
    NeededInRange(s.transform, s.chunks, Some(Clipped(bounds, Domain(s))));
  }

  lemma NeededInRange(t: Transform, chunks: seq<Descriptor>, view: Option<Rectangle>)
    requires Numbered(chunks)
    ensures var needed := Needed(t, chunks, view);
            Distinct(needed) && forall i :: 0 <= i < |needed| ==>
                needed[i] < |chunks| && chunks[needed[i]].geometry.index == needed[i]
  {
    NeededIsFilter(t, chunks, view);
    var needed := Needed(t, chunks, view);
    forall i | 0 <= i < |needed| ensures needed[i] < |chunks| {
      assert needed[i] in needed;
    }
  }

  // ----- Nothing is hidden -----

  // Grid positions of a geographic point.
  function GridX(t: Transform, longitude: real): real
    requires t.longitudeStep > 0.0
  {
    (longitude - t.firstLongitude) / t.longitudeStep
  }

  function GridY(t: Transform, latitude: real): real
    requires t.latitudeStep > 0.0
  {
    (t.firstLatitude - latitude) / t.latitudeStep
  }

  // A position half a cell within a run of cells, in degrees from the first centre.
  lemma Scaled(step: real, offset: real, first: nat, length: nat)
    requires step > 0.0 && length > 0
    ensures first as real - 0.5 <= offset / step <= (first + length) as real - 0.5 <==>
            first as real * step - step / 2.0 <= offset <= (first + length - 1) as real * step + step / 2.0
  {
    var p, low, high := offset / step, first as real - 0.5, (first + length) as real - 0.5;
    assert p * step == offset;
    assert low * step == first as real * step - step / 2.0;
    assert high * step == (first + length - 1) as real * step + step / 2.0;
    if low <= p { RealMulMonotone(low, p, step); } else { RealMulStrict(p, low, step); }
    if p <= high { RealMulMonotone(p, high, step); } else { RealMulStrict(high, p, step); }
  }

  lemma RealMulMonotone(a: real, b: real, c: real)
    requires a <= b && c > 0.0
    ensures a * c <= b * c
  {
  }

  lemma RealMulStrict(a: real, b: real, c: real)
    requires a < b && c > 0.0
    ensures a * c < b * c
  {
  }

  // A chunk's bounds are the footprint of its interior.
  lemma BoundsAreFootprint(t: Transform, g: Geometry, longitude: real, latitude: real)
    requires t.longitudeStep > 0.0 && t.latitudeStep > 0.0 && g.x.interiorLength > 0 && g.y.interiorLength > 0
    ensures Within(ChunkBounds(t, g), longitude, latitude) <==>
            InFootprint(g.x, GridX(t, longitude)) && InFootprint(g.y, GridY(t, latitude))
  {
    Scaled(t.longitudeStep, longitude - t.firstLongitude, g.x.interior, g.x.interiorLength);
    Scaled(t.latitudeStep, t.firstLatitude - latitude, g.y.interior, g.y.interiorLength);
  }

  lemma DomainIsGrid(s: Summary, longitude: real, latitude: real)
    requires s.transform.longitudeStep > 0.0 && s.transform.latitudeStep > 0.0 && s.frame.width > 0
    requires s.frame.height > 0
    ensures Within(Domain(s), longitude, latitude) <==>
            && -0.5 <= GridX(s.transform, longitude) <= s.frame.width as real - 0.5
            && -0.5 <= GridY(s.transform, latitude) <= s.frame.height as real - 0.5
  {
    Scaled(s.transform.longitudeStep, longitude - s.transform.firstLongitude, 0, s.frame.width);
    Scaled(s.transform.latitudeStep, s.transform.firstLatitude - latitude, 0, s.frame.height);
  }

  // Every position on an axis is in the footprint of the tile that has its nearest cell.
  lemma NearestTile(length: nat, x: real)
    requires length > 0 && -0.5 <= x <= length as real - 0.5
    ensures var c := AxisAt(x, length).nearest;
            c < length && (c / CHUNK_INTERIOR) * CHUNK_INTERIOR < length
            && InFootprint(TileOf(length, c / CHUNK_INTERIOR), x)
  {
    var c := AxisAt(x, length).nearest;
    TilesPartition(length, c, c / CHUNK_INTERIOR);
    assert c as real - 0.5 <= x <= c as real + 0.5;
  }

  // A point of the domain falls to a chunk whose payload sees there what the whole grid sees.
  lemma PointHasChunk(f: FrameIdentity, g: Grid, chunks: seq<Chunk>, x: real, y: real) returns (n: nat)
    requires LevelChunks(f, g, chunks)
    requires -0.5 <= x <= g.width as real - 0.5 && -0.5 <= y <= g.height as real - 0.5
    ensures n < |chunks| && InFootprint(chunks[n].geometry.x, x) && InFootprint(chunks[n].geometry.y, y)
    ensures Sees(g, chunks[n], x, y)
  {
    var c, r := AxisAt(x, g.width).nearest, AxisAt(y, g.height).nearest;
    NearestTile(g.width, x);
    NearestTile(g.height, y);
    n := ChunkIndexOf(g.width, c, r);
    CellIndexOnGrid(g.width, g.height, c, r);
    assert chunks[n].geometry == GeometryAt(g.width, g.height, n) && HaloOf(g, chunks[n]);
    HaloSees(g, chunks[n], c / CHUNK_INTERIOR, r / CHUNK_INTERIOR, x, y);
  }

  // Something is painted at a position.
  ghost predicate Painted(g: Grid, mode: Mode, x: real, y: real)
    requires Reducible(g)
  {
    Sample(NATIONAL_ENCODING, g, mode, x, y).coverage > 0.0
  }

  // A painted point falls to a chunk that does not draw nothing.
  lemma PaintedChunk(f: FrameIdentity, g: Grid, chunks: seq<Chunk>, mode: Mode, x: real, y: real) returns (n: nat)
    requires LevelChunks(f, g, chunks)
    requires -0.5 <= x <= g.width as real - 0.5 && -0.5 <= y <= g.height as real - 0.5
    requires Painted(g, mode, x, y)
    ensures n < |chunks| && InFootprint(chunks[n].geometry.x, x) && InFootprint(chunks[n].geometry.y, y)
    ensures Sees(g, chunks[n], x, y) && !DrawsNothing(chunks[n].codes)
  {
    n := PointHasChunk(f, g, chunks, x, y);
    if DrawsNothing(chunks[n].codes) { EmptySeen(g, chunks[n], mode, x, y); }
  }

  // What a view needs, for a chunk that draws something where the view and the domain overlap.
  lemma NeededHas(s: Summary, bounds: Rectangle, version: nat, n: nat, longitude: real, latitude: real)
    requires Numbered(s.chunks) && n < |s.chunks| && !s.chunks[n].drawsNothing
    requires ViewportCoverage(s, bounds, version).Ok?
    requires Within(bounds, longitude, latitude) && Within(Domain(s), longitude, latitude)
    requires Within(ChunkBounds(s.transform, s.chunks[n].geometry), longitude, latitude)
    ensures n in ViewportCoverage(s, bounds, version).value.required
    ensures n in CompleteDomainCoverage(s, version).value.required
  {
    var clipped := Clipped(bounds, Domain(s));
    assert Within(clipped, longitude, latitude);
    NeededIsFilter(s.transform, s.chunks, Some(clipped));
    NeededIsFilter(s.transform, s.chunks, None);
  }

  // Any point of the view and of the domain where something is painted lies in a required chunk that paints it.
  lemma VisibleIsRequired(sha: Digest, f: FrameIdentity, g: Grid, chunks: seq<Chunk>, frame: Frame, bounds: Rectangle,
                          version: nat, mode: Mode, longitude: real, latitude: real)
    returns (n: nat)
    requires NationalFrame(f) && FrameOf(sha, f, g, chunks, frame)
    requires frame.summary.transform.longitudeStep > 0.0 && frame.summary.transform.latitudeStep > 0.0
    requires ViewportCoverage(frame.summary, bounds, version).Ok?
    requires Within(bounds, longitude, latitude) && Within(Domain(frame.summary), longitude, latitude)
    requires Painted(g, mode, GridX(frame.summary.transform, longitude), GridY(frame.summary.transform, latitude))
    ensures n in ViewportCoverage(frame.summary, bounds, version).value.required && n < |chunks|
    ensures n in CompleteDomainCoverage(frame.summary, version).value.required
    ensures Within(ChunkBounds(frame.summary.transform, chunks[n].geometry), longitude, latitude)
    ensures Sees(g, chunks[n], GridX(frame.summary.transform, longitude), GridY(frame.summary.transform, latitude))
  {
    var s := frame.summary;
    DomainIsGrid(s, longitude, latitude);
    n := PaintedChunk(f, g, chunks, mode, GridX(s.transform, longitude), GridY(s.transform, latitude));
    FrameDescriptors(sha, f, g, chunks, frame);
    FootprintIsWithin(g, chunks, n, s.transform, longitude, latitude);
    NeededHas(s, bounds, version, n, longitude, latitude);
  }

  lemma FootprintIsWithin(g: Grid, chunks: seq<Chunk>, n: nat, t: Transform, longitude: real, latitude: real)
    requires Reducible(g) && ChunksOf(g, chunks) && n < |chunks| && t.longitudeStep > 0.0 && t.latitudeStep > 0.0
    requires InFootprint(chunks[n].geometry.x, GridX(t, longitude))
    requires InFootprint(chunks[n].geometry.y, GridY(t, latitude))
    ensures Within(ChunkBounds(t, chunks[n].geometry), longitude, latitude)
  {
    assert chunks[n].geometry == GeometryAt(g.width, g.height, n);
    BoundsAreFootprint(t, chunks[n].geometry, longitude, latitude);
  }

  lemma FrameDescriptors(sha: Digest, f: FrameIdentity, g: Grid, chunks: seq<Chunk>, frame: Frame)
    requires NationalFrame(f) && FrameOf(sha, f, g, chunks, frame)
    ensures |frame.summary.chunks| == |chunks| && Numbered(frame.summary.chunks)
    ensures forall i :: 0 <= i < |chunks| ==> frame.summary.chunks[i].geometry == chunks[i].geometry
                                              && frame.summary.chunks[i].drawsNothing == DrawsNothing(chunks[i].codes)
  {
    forall i | 0 <= i < |chunks|
      ensures frame.summary.chunks[i].geometry == chunks[i].geometry && chunks[i].geometry.index == i
              && frame.summary.chunks[i].drawsNothing == DrawsNothing(chunks[i].codes)
    {
      FrameRecord(sha, f, g, chunks, frame, i);
    }
  }

  // In an encoded frame a chunk's flag is set exactly if no cell of its halo is
  // measured in the grid, and exactly if a smooth sample leaves its footprint blank.
  lemma FlagIsExact(sha: Digest, f: FrameIdentity, g: Grid, chunks: seq<Chunk>, frame: Frame, n: nat)
    requires NationalFrame(f) && FrameOf(sha, f, g, chunks, frame) && n < |chunks|
    ensures n < |frame.summary.chunks|
    ensures frame.summary.chunks[n].drawsNothing <==>
            forall u: nat, v: nat :: HaloHas(chunks[n], u, v) && u < g.width && v < g.height ==>
                                       Cell(g, u, v) in {MISSING_RAW, NO_COVERAGE_RAW}
    ensures frame.summary.chunks[n].drawsNothing <==> Blank(g, chunks[n], Smooth)
  {
    FrameRecord(sha, f, g, chunks, frame, n);
    IndexOnGrid(g.width, g.height, n);
    var i, j := n % ChunksAcross(g.width), n / ChunksAcross(g.width);
    assert chunks[n].geometry == GeometryAt(g.width, g.height, n) && HaloOf(g, chunks[n]);
    FlagIsUnmeasured(g, chunks[n], i, j);
    FlagIsBlank(g, chunks[n], i, j);
  }

  // What a lookup finds at a covered point is what the native sample shows there.
  lemma LookupIsSample(g: Grid, encoding: ValueEncoding, t: Transform, longitude: real, latitude: real)
    requires Reducible(g) && t.longitudeStep > 0.0 && t.latitudeStep > 0.0
    requires !LookupDecoded(g, encoding, t, longitude, latitude).OutsideCoverage?
    ensures var found, sample := LookupDecoded(g, encoding, t, longitude, latitude),
                                 Sample(encoding, g, Native, GridX(t, longitude), GridY(t, latitude));
            && found.Found? && found.raw as real == sample.raw
            && found.status == sample.status && found.value == sample.value
            && sample.coverage == if found.status.Valid? then 1.0 else 0.0
  {
    CoveredPoints(g, encoding, t, longitude, latitude);
    var column, row := ColumnOf(t, longitude), RowOf(t, latitude);
    IndexInGrid(column, row, g.width, g.height);
    NearestIsRounded(GridX(t, longitude), g.width);
    NearestIsRounded(GridY(t, latitude), g.height);
  }

  lemma NearestIsRounded(x: real, length: nat)
    requires length > 0 && -0.5 < x < length as real - 0.5
    ensures AxisAt(x, length).nearest == Round(x)
  {
  }
}
