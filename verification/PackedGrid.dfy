// Cutting a grid into chunks: tiles of 256 cells along each axis, each stored
// with a halo of one neighbouring cell (src-tauri/src/packed_grid.rs, `chunk_level`).
module PackedGrid {
  import opened Common
  import opened Arithmetic
  import opened NumericPyramid

  const CHUNK_INTERIOR: nat := 256
  const CHUNK_HALO: nat := 1
  const HEADER_BYTES: nat := 176
  const CHUNK_LIMIT: nat := 512 * 1024

  function Min(a: nat, b: nat): nat { if a < b then a else b }

  // ----- Tiles -----

  // One axis of a chunk: its interior and the halo around it, clipped to the axis.
  datatype Tile = Tile(chunk: nat, interior: nat, interiorLength: nat, halo: nat, haloLength: nat)

  function TileOf(length: nat, chunk: nat): (t: Tile)
    requires chunk * CHUNK_INTERIOR < length
    ensures t.halo <= t.interior < t.interior + t.interiorLength <= t.halo + t.haloLength <= length
    ensures 1 <= t.interiorLength <= CHUNK_INTERIOR && t.haloLength <= CHUNK_INTERIOR + 2 * CHUNK_HALO
  {
    var interior := chunk * CHUNK_INTERIOR;
    var interiorLength := Min(CHUNK_INTERIOR, length - interior);
    var halo := if interior >= CHUNK_HALO then interior - CHUNK_HALO else 0;
    Tile(chunk, interior, interiorLength, halo, Min(interior + interiorLength + CHUNK_HALO, length) - halo)
  }

  predicate InInterior(t: Tile, c: nat) {
    t.interior <= c < t.interior + t.interiorLength
  }

  // Interiors cover an axis without overlap, and a halo holds both neighbours of every interior cell that has them.
  lemma TilesPartition(length: nat, c: nat, chunk: nat)
    requires c < length && chunk * CHUNK_INTERIOR < length
    ensures InInterior(TileOf(length, chunk), c) <==> chunk == c / CHUNK_INTERIOR
    ensures var t := TileOf(length, chunk);
            InInterior(t, c) ==> (c > 0 ==> t.halo <= c - 1) && (c + 1 < length ==> c + 1 < t.halo + t.haloLength)
  {
  }

  datatype Geometry = Geometry(index: nat, x: Tile, y: Tile)

  function ChunksAcross(length: nat): nat {
    CeilDiv(length, CHUNK_INTERIOR)
  }

  function ChunkCount(width: nat, height: nat): nat {
    ChunksAcross(width) * ChunksAcross(height)
  }

  // The chunk coordinates a validator derives from an index stay on the grid exactly for the indices below the count.
  lemma IndexOnGrid(width: nat, height: nat, index: nat)
    requires width > 0 && height > 0
    ensures ChunksAcross(width) > 0 && index / ChunksAcross(width) >= 0
    ensures 0 <= (index % ChunksAcross(width)) * CHUNK_INTERIOR < width
    ensures index < ChunkCount(width, height) <==> (index / ChunksAcross(width)) * CHUNK_INTERIOR < height
  {
    var across := ChunksAcross(width);
    DivFloor(index, across);
    var row := index / across;
    if row >= ChunksAcross(height) {
      MulMonotone(ChunksAcross(height), row, across);
    } else {
      MulMonotone(row + 1, ChunksAcross(height), across);
    }
  }

  // The geometry of a chunk from its index alone, as descriptor validation derives it.
  function GeometryAt(width: nat, height: nat, index: nat): (g: Geometry)
    requires width > 0 && height > 0 && index < ChunkCount(width, height)
  {
    IndexOnGrid(width, height, index);
    Geometry(index, TileOf(width, index % ChunksAcross(width)), TileOf(height, index / ChunksAcross(width)))
  }

  datatype Chunk = Chunk(geometry: Geometry, codes: seq<Code>)

  // The chunk's codes are the grid's over its halo, row by row.
  ghost predicate HaloOf(g: Grid, chunk: Chunk)
    requires WellShaped(g)
  {
    var t, s := chunk.geometry.x, chunk.geometry.y;
    && t.halo + t.haloLength <= g.width && s.halo + s.haloLength <= g.height
    && |chunk.codes| == t.haloLength * s.haloLength
    && forall x: nat, y: nat :: x < t.haloLength && y < s.haloLength ==>
                                  Index(x, y, t.haloLength) < |chunk.codes|
                                  && chunk.codes[Index(x, y, t.haloLength)] == Cell(g, t.halo + x, s.halo + y)
  }

  datatype PackedGridError = InvalidLevel | Bounds | InvalidChunk

  method CopyHalo(g: Grid, t: Tile, s: Tile) returns (codes: seq<Code>)
    requires WellShaped(g) && t.halo + t.haloLength <= g.width && s.halo + s.haloLength <= g.height
    ensures HaloOf(g, Chunk(Geometry(0, t, s), codes))
  {
    codes := [];
    for y := 0 to s.haloLength
      invariant |codes| == Index(0, y, t.haloLength)
      invariant forall x: nat, v: nat :: x < t.haloLength && v < y ==>
                  Index(x, v, t.haloLength) < |codes|
                  && codes[Index(x, v, t.haloLength)] == Cell(g, t.halo + x, s.halo + v)
    {
      var row := s.halo + y;
      RowInGrid(g, t, row);
      var slice := g.codes[Index(t.halo, row, g.width)..Index(t.halo + t.haloLength, row, g.width)];
      RowExtends(g, t, s, codes, y, slice);
      codes := codes + slice;
    }
  }

  lemma RowInGrid(g: Grid, t: Tile, row: nat)
    requires WellShaped(g) && t.halo + t.haloLength <= g.width && row < g.height
    ensures Index(t.halo + t.haloLength, row, g.width) <= |g.codes|
    ensures var slice := g.codes[Index(t.halo, row, g.width)..Index(t.halo + t.haloLength, row, g.width)];
            |slice| == t.haloLength && forall x: nat :: x < t.haloLength ==> slice[x] == Cell(g, t.halo + x, row)
  {
    MulMonotone(row + 1, g.height, g.width);
    var slice := g.codes[Index(t.halo, row, g.width)..Index(t.halo + t.haloLength, row, g.width)];
    forall x: nat | x < t.haloLength ensures slice[x] == Cell(g, t.halo + x, row) {
      assert Index(t.halo + x, row, g.width) == Index(t.halo, row, g.width) + x;
    }
  }

  lemma RowExtends(g: Grid, t: Tile, s: Tile, codes: seq<Code>, y: nat, slice: seq<Code>)
    requires WellShaped(g) && t.halo + t.haloLength <= g.width && s.halo + s.haloLength <= g.height && y < s.haloLength
    requires |codes| == Index(0, y, t.haloLength) && |slice| == t.haloLength
    requires forall x: nat :: x < t.haloLength ==> slice[x] == Cell(g, t.halo + x, s.halo + y)
    requires forall x: nat, v: nat :: x < t.haloLength && v < y ==>
               Index(x, v, t.haloLength) < |codes|
               && codes[Index(x, v, t.haloLength)] == Cell(g, t.halo + x, s.halo + v)
    ensures |codes + slice| == Index(0, y + 1, t.haloLength)
    ensures forall x: nat, v: nat :: x < t.haloLength && v < y + 1 ==>
              Index(x, v, t.haloLength) < |codes + slice|
              && (codes + slice)[Index(x, v, t.haloLength)] == Cell(g, t.halo + x, s.halo + v)
  {
    forall x: nat, v: nat | x < t.haloLength && v < y + 1
      ensures Index(x, v, t.haloLength) < |codes + slice|
              && (codes + slice)[Index(x, v, t.haloLength)] == Cell(g, t.halo + x, s.halo + v)
    {
      if v == y { assert Index(x, v, t.haloLength) == |codes| + x; }
    }
  }

  // Every chunk of the level in index order, with the geometry its index implies.
  ghost predicate ChunksOf(g: Grid, chunks: seq<Chunk>)
    requires WellShaped(g) && g.width > 0 && g.height > 0
  {
    && |chunks| <= ChunkCount(g.width, g.height)
    && forall i :: 0 <= i < |chunks| ==> chunks[i].geometry == GeometryAt(g.width, g.height, i) && HaloOf(g, chunks[i])
  }

  lemma IndexSplits(chunkX: nat, chunkY: nat, across: nat)
    requires chunkX < across
    ensures Index(chunkX, chunkY, across) / across == chunkY && Index(chunkX, chunkY, across) % across == chunkX
  {
    DivIs(Index(chunkX, chunkY, across), across, chunkY);
    DivFloor(Index(chunkX, chunkY, across), across);
  }

  lemma ChunkCoordinates(width: nat, height: nat, chunkX: nat, chunkY: nat, index: nat)
    requires chunkX < ChunksAcross(width) && chunkY < ChunksAcross(height)
    requires index == Index(chunkX, chunkY, ChunksAcross(width))
    ensures chunkX * CHUNK_INTERIOR < width && chunkY * CHUNK_INTERIOR < height && index < ChunkCount(width, height)
    ensures GeometryAt(width, height, index) == Geometry(index, TileOf(width, chunkX), TileOf(height, chunkY))
  {
    IndexInGrid(chunkX, chunkY, ChunksAcross(width), ChunksAcross(height));
    IndexSplits(chunkX, chunkY, ChunksAcross(width));
  }

  method CutChunk(g: Grid, chunkX: nat, chunkY: nat, index: nat) returns (chunk: Chunk)
    requires WellShaped(g) && chunkX < ChunksAcross(g.width) && chunkY < ChunksAcross(g.height)
    requires index == Index(chunkX, chunkY, ChunksAcross(g.width))
    ensures g.width > 0 && g.height > 0 && index < ChunkCount(g.width, g.height)
    ensures chunk.geometry == GeometryAt(g.width, g.height, index) && HaloOf(g, chunk)
  {
    ChunkCoordinates(g.width, g.height, chunkX, chunkY, index);
    var t, s := TileOf(g.width, chunkX), TileOf(g.height, chunkY);
    var codes := CopyHalo(g, t, s);
    chunk := Chunk(Geometry(index, t, s), codes);
  }

  method ChunkLevel(g: Grid) returns (r: Result<seq<Chunk>, PackedGridError>)
    ensures r.Err? <==> g.width == 0 || g.height == 0 || !WellShaped(g)
                        || ChunksAcross(g.width) > 65535 || ChunksAcross(g.height) > 65535
    ensures r.Ok? ==> |r.value| == ChunkCount(g.width, g.height) && ChunksOf(g, r.value)
  {
    if g.width == 0 || g.height == 0 || g.width * g.height != |g.codes| { return Err(PackedGridError.InvalidLevel); }
    var across, down := ChunksAcross(g.width), ChunksAcross(g.height);
    if across > 65535 || down > 65535 { return Err(Bounds); }
    var chunks := [];
    for chunkY := 0 to down
      invariant |chunks| == Index(0, chunkY, across) <= ChunkCount(g.width, g.height)
      invariant ChunksOf(g, chunks)
    {
      for chunkX := 0 to across
        invariant |chunks| == Index(chunkX, chunkY, across) <= ChunkCount(g.width, g.height)
        invariant ChunksOf(g, chunks)
      {
        var chunk := CutChunk(g, chunkX, chunkY, |chunks|);
        chunks := chunks + [chunk];
      }
    }
    r := Ok(chunks);
  }

  // The one chunk whose interior holds a cell.
  function ChunkIndexOf(width: nat, x: nat, y: nat): nat
    requires width > 0
  {
    (y / CHUNK_INTERIOR) * ChunksAcross(width) + x / CHUNK_INTERIOR
  }

  lemma CellIndexOnGrid(width: nat, height: nat, x: nat, y: nat)
    requires x < width && y < height
    ensures ChunkIndexOf(width, x, y) < ChunkCount(width, height)
    ensures ChunkIndexOf(width, x, y) / ChunksAcross(width) == y / CHUNK_INTERIOR
    ensures ChunkIndexOf(width, x, y) % ChunksAcross(width) == x / CHUNK_INTERIOR
  {
    var across := ChunksAcross(width);
    var i, j := x / CHUNK_INTERIOR, y / CHUNK_INTERIOR;
    IndexInGrid(i, j, across, ChunksAcross(height));
    assert ChunkIndexOf(width, x, y) == Index(i, j, across);
    DivIs(Index(i, j, across), across, j);
    DivFloor(Index(i, j, across), across);
  }

  lemma ChunkHoldsCell(width: nat, height: nat, x: nat, y: nat, index: nat)
    requires x < width && y < height && index < ChunkCount(width, height)
    ensures InInterior(GeometryAt(width, height, index).x, x) && InInterior(GeometryAt(width, height, index).y, y)
            <==> index == ChunkIndexOf(width, x, y)
  {
    var across := ChunksAcross(width);
    IndexOnGrid(width, height, index);
    TilesPartition(width, x, index % across);
    TilesPartition(height, y, index / across);
    CellIndexOnGrid(width, height, x, y);
    var cell := ChunkIndexOf(width, x, y);
    if index % across == x / CHUNK_INTERIOR && index / across == y / CHUNK_INTERIOR {
      SameDivMod(index, cell, across);
    }
  }
}
