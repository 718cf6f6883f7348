// Raw-code grids and their reduction to coarser levels
// (src-tauri/src/mrms.rs, `reduce_strongest_valid`; src-tauri/src/packed_grid.rs, `MrmsNumericPyramid::from_decoded`).
module NumericPyramid {
  import opened Common
  import opened Arithmetic

  type Code = c: int | 0 <= c < 0x10000

  datatype ValueEncoding = ValueEncoding(missing: Code, noCoverage: Code)

  datatype Status = Valid | Missing | NoCoverage

  // Missing wins if the two reserved codes are the same.
  function StatusOf(encoding: ValueEncoding, raw: Code): Status {
    if raw == encoding.missing then Missing else if raw == encoding.noCoverage then NoCoverage else Valid
  }

  datatype Grid = Grid(width: nat, height: nat, codes: seq<Code>)

  predicate WellShaped(g: Grid) {
    g.width * g.height == |g.codes|
  }

  predicate Reducible(g: Grid) {
    g.width > 0 && g.height > 0 && WellShaped(g)
  }

  function Index(x: nat, y: nat, width: nat): nat {
    y * width + x
  }

  lemma IndexInGrid(x: nat, y: nat, width: nat, height: nat)
    requires x < width && y < height
    ensures Index(x, y, width) < width * height
  {
    MulMonotone(y + 1, height, width);
  }

  lemma IndexIsUnique(x: nat, y: nat, u: nat, v: nat, width: nat)
    requires x < width && u < width && Index(x, y, width) == Index(u, v, width)
    ensures x == u && y == v
  {
    DivIs(Index(x, y, width), width, y);
    DivIs(Index(x, y, width), width, v);
  }

  function Cell(g: Grid, x: nat, y: nat): Code
    requires WellShaped(g) && x < g.width && y < g.height
  {
    IndexInGrid(x, y, g.width, g.height);
    g.codes[Index(x, y, g.width)]
  }

  lemma CellOfIndex(g: Grid, i: nat)
    requires WellShaped(g) && i < |g.codes|
    ensures g.width > 0 && i % g.width < g.width && 0 <= i / g.width < g.height
    ensures Cell(g, i % g.width, i / g.width) == g.codes[i]
  {
    DivFloor(i, g.width);
    DivRange(i, g.width, 0, g.height);
  }

  // Any measured value outranks missing, which outranks no coverage; among values the largest code wins.
  function Rank(encoding: ValueEncoding, raw: Code): nat {
    match StatusOf(encoding, raw)
    case Valid => 2 + raw
    case Missing => 1
    case NoCoverage => 0
  }

  lemma RankIsInjective(encoding: ValueEncoding, a: Code, b: Code)
    requires Rank(encoding, a) == Rank(encoding, b)
    ensures a == b
  {
  }

  predicate InBlock(g: Grid, factor: nat, x: nat, y: nat, u: nat, v: nat) {
    u < g.width && v < g.height && x * factor <= u < (x + 1) * factor && y * factor <= v < (y + 1) * factor
  }

  // `raw` is held by some cell of the factor x factor block at (x, y), clipped
  // to the grid, and no cell of it outranks `raw`.
  ghost predicate StrongestInBlock(encoding: ValueEncoding, g: Grid, factor: nat, x: nat, y: nat, raw: Code)
    requires WellShaped(g)
  {
    && (exists u: nat, v: nat :: InBlock(g, factor, x, y, u, v) && Cell(g, u, v) == raw)
    && (forall u: nat,
        v: nat :: InBlock(g, factor, x, y, u, v) ==> Rank(encoding, Cell(g, u, v)) <= Rank(encoding, raw))
  }

  // A block has only one strongest code.
  lemma StrongestIsUnique(encoding: ValueEncoding, g: Grid, factor: nat, x: nat, y: nat, a: Code, b: Code)
    requires WellShaped(g)
    requires StrongestInBlock(encoding, g, factor, x, y, a) && StrongestInBlock(encoding, g, factor, x, y, b)
    ensures a == b
  {
    RankIsInjective(encoding, a, b);
  }

  // It is measured if any cell of the block is, and then the largest measured
  // code; else it is the missing code if any cell is missing, else no coverage.
  lemma StrongestMeans(encoding: ValueEncoding, g: Grid, factor: nat, x: nat, y: nat, raw: Code)
    requires WellShaped(g) && StrongestInBlock(encoding, g, factor, x, y, raw)
    ensures StatusOf(encoding, raw).Valid? <==>
            exists u: nat, v: nat :: InBlock(g, factor, x, y, u, v)
                                     && Cell(g, u, v) !in {encoding.missing, encoding.noCoverage}
    ensures StatusOf(encoding, raw).Valid? ==>
              forall u: nat, v: nat :: InBlock(g, factor, x, y, u, v)
                                       && Cell(g, u, v) !in {encoding.missing, encoding.noCoverage} ==>
                                         Cell(g, u, v) <= raw
    ensures !StatusOf(encoding, raw).Valid? ==>
              raw == if exists u: nat, v: nat :: InBlock(g, factor, x, y, u, v) && Cell(g, u, v) == encoding.missing
                     then encoding.missing else encoding.noCoverage
  {
    var u: nat, v: nat :| InBlock(g, factor, x, y, u, v) && Cell(g, u, v) == raw;
  }

  // `level` is `base` reduced by `factor`: its dimensions round up and each
  // cell is the strongest code of its base block.
  ghost predicate ReducedBy(encoding: ValueEncoding, base: Grid, factor: nat, level: Grid) {
    && factor > 0 && WellShaped(base) && WellShaped(level)
    && level.width == CeilDiv(base.width, factor) && level.height == CeilDiv(base.height, factor)
    && forall x: nat, y: nat :: x < level.width && y < level.height ==>
                                  StrongestInBlock(encoding, base, factor, x, y, Cell(level, x, y))
  }

  datatype PyramidError = InvalidLevel | DimensionMismatch

  // The codes of the 2 x 2 block at (x, y) read before reaching offset (dx, dy).
  ghost function Read(g: Grid, x: nat, y: nat, dx: nat, dy: nat): (codes: seq<Code>)
    requires WellShaped(g) && dx <= 2
    decreases dy, dx
  {
    if dx > 0 then
      var u, v := 2 * x + dx - 1, 2 * y + dy;
      Read(g, x, y, dx - 1, dy) + if u < g.width && v < g.height then [Cell(g, u, v)] else []
    else if dy > 0 then Read(g, x, y, 2, dy - 1)
    else []
  }

  // What codes read so far amount to.
  ghost predicate Summary(encoding: ValueEncoding, codes: seq<Code>, strongest: Option<Code>, sawMissing: bool) {
    && (strongest.Some? ==> strongest.value in codes && StatusOf(encoding, strongest.value).Valid?)
    && (sawMissing <==> encoding.missing in codes)
    && (forall raw :: raw in codes && StatusOf(encoding, raw).Valid? ==> strongest.Some? && raw <= strongest.value)
  }

  // The whole block is read after two rows of two.
  lemma ReadIsBlock(g: Grid, x: nat, y: nat, raw: Code)
    requires WellShaped(g)
    ensures raw in Read(g, x, y, 0, 2) <==> exists u: nat, v: nat :: InBlock(g, 2, x, y, u, v) && Cell(g, u, v) == raw
  {
    ReadRow(g, x, y, 1);
    ReadRow(g, x, y, 0);
    assert Read(g, x, y, 0, 0) == [];
    if u: nat, v: nat :| InBlock(g, 2, x, y, u, v) && Cell(g, u, v) == raw {
      assert v == 2 * y || v == 2 * y + 1;
      assert u == 2 * x || u == 2 * x + 1;
    }
    if raw in Read(g, x, y, 0, 2) {
      var dx, dy :| 0 <= dx < 2 && 0 <= dy < 2 && 2 * x + dx < g.width && 2 * y + dy < g.height
                    && Cell(g, 2 * x + dx, 2 * y + dy) == raw;
      assert InBlock(g, 2, x, y, 2 * x + dx, 2 * y + dy);
    }
  }

  lemma ReadRow(g: Grid, x: nat, y: nat, dy: nat)
    requires WellShaped(g)
    ensures forall raw :: raw in Read(g, x, y, 0, dy + 1) <==>
                            || raw in Read(g, x, y, 0, dy)
                            || (2 * x < g.width && 2 * y + dy < g.height && Cell(g, 2 * x, 2 * y + dy) == raw)
                            || (2 * x + 1 < g.width && 2 * y + dy < g.height && Cell(g, 2 * x + 1, 2 * y + dy) == raw)
    ensures 2 * y + dy >= g.height ==> Read(g, x, y, 0, dy + 1) == Read(g, x, y, 0, dy)
  {
    assert Read(g, x, y, 0, dy + 1) == Read(g, x, y, 2, dy);
    assert Read(g, x, y, 2, dy) == Read(g, x, y, 1, dy)
           + if 2 * x + 1 < g.width && 2 * y + dy < g.height then [Cell(g, 2 * x + 1, 2 * y + dy)] else [];
    assert Read(g, x, y, 1, dy) == Read(g, x, y, 0, dy)
           + if 2 * x < g.width && 2 * y + dy < g.height then [Cell(g, 2 * x, 2 * y + dy)] else [];
  }

  method ReduceCell(encoding: ValueEncoding, g: Grid, x: nat, y: nat) returns (raw: Code)
    requires WellShaped(g) && 2 * x < g.width && 2 * y < g.height
    ensures StrongestInBlock(encoding, g, 2, x, y, raw)
  {
    var strongest: Option<Code>, sawMissing := None, false;
    for dy := 0 to 2
      invariant Summary(encoding, Read(g, x, y, 0, dy), strongest, sawMissing)
    {
      if 2 * y + dy >= g.height {
        ReadRow(g, x, y, dy);
        continue;
      }
      for dx := 0 to 2
        invariant Summary(encoding, Read(g, x, y, dx, dy), strongest, sawMissing)
      {
        if 2 * x + dx >= g.width {
          continue;
        }
        var code := Cell(g, 2 * x + dx, 2 * y + dy);
        if code == encoding.missing {
          sawMissing := true;
        } else if code != encoding.noCoverage {
          strongest := Some(if strongest.Some? && strongest.value > code then strongest.value else code);
        }
      }
    }
    raw := if strongest.Some? then strongest.value else if sawMissing then encoding.missing else encoding.noCoverage;
    SummaryDecides(encoding, g, x, y, strongest, sawMissing, raw);
  }

  lemma SummaryDecides(encoding: ValueEncoding, g: Grid, x: nat, y: nat, strongest: Option<Code>, sawMissing: bool,
                       raw: Code)
    requires WellShaped(g) && 2 * x < g.width && 2 * y < g.height
    requires Summary(encoding, Read(g, x, y, 0, 2), strongest, sawMissing)
    requires raw == if strongest.Some? then strongest.value
                    else if sawMissing then encoding.missing else encoding.noCoverage
    ensures StrongestInBlock(encoding, g, 2, x, y, raw)
  {
    var codes := Read(g, x, y, 0, 2);
    assert InBlock(g, 2, x, y, 2 * x, 2 * y);
    ReadIsBlock(g, x, y, Cell(g, 2 * x, 2 * y));
    assert raw in codes;
    ReadIsBlock(g, x, y, raw);
    forall u: nat, v: nat | InBlock(g, 2, x, y, u, v) ensures Rank(encoding, Cell(g, u, v)) <= Rank(encoding, raw) {
      ReadIsBlock(g, x, y, Cell(g, u, v));
    }
  }

  method ReduceStrongestValid(encoding: ValueEncoding, g: Grid) returns (r: Result<Grid, PyramidError>)
    ensures r.Err? <==> !Reducible(g)
    ensures r.Ok? ==> ReducedBy(encoding, g, 2, r.value)
  {
    if g.width == 0 || g.height == 0 || g.width * g.height != |g.codes| {
      return Err(DimensionMismatch);
    }
    var width, height := (g.width + 1) / 2, (g.height + 1) / 2;
    var target: seq<Code> := [];
    for y := 0 to height
      invariant |target| == Index(0, y, width)
      invariant Filled(encoding, g, width, target)
    {
      for x := 0 to width
        invariant |target| == Index(x, y, width)
        invariant Filled(encoding, g, width, target)
      {
        var raw := ReduceCell(encoding, g, x, y);
        FillsNext(encoding, g, width, target, x, y, raw);
        target := target + [raw];
      }
      assert Index(width, y, width) == Index(0, y + 1, width);
    }
    r := Ok(Grid(width, height, target));
    FilledIsReduced(encoding, g, r.value);
  }

  lemma FilledIsReduced(encoding: ValueEncoding, g: Grid, target: Grid)
    requires WellShaped(g) && target.width == (g.width + 1) / 2 && target.height == (g.height + 1) / 2
    requires |target.codes| == Index(0, target.height, target.width)
    requires Filled(encoding, g, target.width, target.codes)
    ensures ReducedBy(encoding, g, 2, target)
  {
    forall x: nat, y: nat | x < target.width && y < target.height
      ensures Index(x, y, target.width) < |target.codes|
    {
      IndexInGrid(x, y, target.width, target.height);
    }
  }

  ghost predicate Filled(encoding: ValueEncoding, g: Grid, width: nat, target: seq<Code>)
    requires WellShaped(g)
  {
    forall x: nat, y: nat :: x < width && Index(x, y, width) < |target| ==>
                               StrongestInBlock(encoding, g, 2, x, y, target[Index(x, y, width)])
  }

  lemma FillsNext(encoding: ValueEncoding, g: Grid, width: nat, target: seq<Code>, x: nat, y: nat, raw: Code)
    requires WellShaped(g) && Filled(encoding, g, width, target)
    requires x < width && |target| == Index(x, y, width) && StrongestInBlock(encoding, g, 2, x, y, raw)
    ensures Filled(encoding, g, width, target + [raw])
  {
    forall u: nat, v: nat | u < width && Index(u, v, width) < |target| + 1
      ensures StrongestInBlock(encoding, g, 2, u, v, (target + [raw])[Index(u, v, width)])
    {
      if Index(u, v, width) == |target| { IndexIsUnique(u, v, x, y, width); }
    }
  }

  // ----- Levels of levels -----

  lemma CeilDivTwice(w: nat, factor: nat)
    requires factor > 0
    ensures CeilDiv(CeilDiv(w, factor), 2) == CeilDiv(w, 2 * factor)
  {
    CeilDivBounds(w, factor);
    var a := CeilDiv(w, factor);
    var b := CeilDiv(a, 2);
    MulMonotone(a, 2 * b, factor);
    MulMonotone(2 * b - 1, a, factor);
    assert (2 * b) * factor == b * (2 * factor) && (2 * b - 1) * factor == b * (2 * factor) - factor;
    assert (b + 1) * (2 * factor) == b * (2 * factor) + 2 * factor;
    DivIs(w + 2 * factor - 1, 2 * factor, b);
  }

  // The child block a base coordinate lies in.
  lemma ChildOf(u: nat, w: nat, factor: nat, x: nat) returns (c: nat)
    requires factor > 0 && u < w && x * (2 * factor) <= u < (x + 1) * (2 * factor)
    ensures c * factor <= u < (c + 1) * factor && c < CeilDiv(w, factor) && 2 * x <= c < 2 * (x + 1)
  {
    c := u / factor;
    DivFloor(u, factor);
    CeilDivBounds(w, factor);
    DivRange(u, factor, 0, CeilDiv(w, factor));
    ScaledTwice(x, factor);
    DivRange(u, factor, 2 * x, 2 * x + 2);
  }

  lemma ScaledTwice(x: nat, factor: nat)
    ensures x * (2 * factor) == (2 * x) * factor && (x + 1) * (2 * factor) == (2 * x + 2) * factor
  {
  }

  lemma ChildBlock(c: nat, factor: nat, x: nat)
    requires x * 2 <= c < (x + 1) * 2
    ensures x * (2 * factor) <= c * factor && (c + 1) * factor <= (x + 1) * (2 * factor)
  {
    MulMonotone(x * 2, c, factor);
    MulMonotone(c + 1, (x + 1) * 2, factor);
    assert x * (2 * factor) == (x * 2) * factor && (x + 1) * (2 * factor) == ((x + 1) * 2) * factor;
  }

  lemma StrongestOfStrongest(encoding: ValueEncoding, base: Grid, factor: nat, level: Grid, x: nat, y: nat, raw: Code)
    requires ReducedBy(encoding, base, factor, level) && StrongestInBlock(encoding, level, 2, x, y, raw)
    ensures StrongestInBlock(encoding, base, 2 * factor, x, y, raw)
  {
    var c: nat, d: nat :| InBlock(level, 2, x, y, c, d) && Cell(level, c, d) == raw;
    var u: nat, v: nat :| InBlock(base, factor, c, d, u, v) && Cell(base, u, v) == raw;
    ChildBlock(c, factor, x);
    ChildBlock(d, factor, y);
    assert InBlock(base, 2 * factor, x, y, u, v);
    forall s: nat, t: nat | InBlock(base, 2 * factor, x, y, s, t)
      ensures Rank(encoding, Cell(base, s, t)) <= Rank(encoding, raw)
    {
      var i := ChildOf(s, base.width, factor, x);
      var j := ChildOf(t, base.height, factor, y);
      assert InBlock(level, 2, x, y, i, j) && InBlock(base, factor, i, j, s, t);
    }
  }

  // Halving a level that is reduced by a factor reduces the base by twice it.
  lemma ReductionComposes(encoding: ValueEncoding, base: Grid, factor: nat, level: Grid, next: Grid)
    requires ReducedBy(encoding, base, factor, level) && ReducedBy(encoding, level, 2, next)
    ensures ReducedBy(encoding, base, 2 * factor, next)
  {
    CeilDivTwice(base.width, factor);
    CeilDivTwice(base.height, factor);
    forall x: nat, y: nat | x < next.width && y < next.height
      ensures StrongestInBlock(encoding, base, 2 * factor, x, y, Cell(next, x, y))
    {
      StrongestOfStrongest(encoding, base, factor, level, x, y, Cell(next, x, y));
    }
  }

  lemma ReducedByOne(encoding: ValueEncoding, base: Grid)
    requires WellShaped(base)
    ensures ReducedBy(encoding, base, 1, base)
  {
    forall x: nat, y: nat | x < base.width && y < base.height
      ensures StrongestInBlock(encoding, base, 1, x, y, Cell(base, x, y))
    {
      assert InBlock(base, 1, x, y, x, y);
    }
  }

  predicate IsPowerOfTwo(n: nat) {
    n == 1 || (n > 1 && n % 2 == 0 && IsPowerOfTwo(n / 2))
  }

  lemma {:induction false} PowersAreApart(m: nat, n: nat)
    requires IsPowerOfTwo(m) && IsPowerOfTwo(n) && m < n
    ensures 2 * m <= n && n % (2 * m) == 0
  {
    if m > 1 {
      PowersAreApart(m / 2, n / 2);
      var q := (n / 2) / m;
      DivFloor(n / 2, m);
      assert n == 2 * (n / 2);
      assert n / 2 == q * m by { assert (n / 2) % m == 0; }
      assert n == q * (2 * m);
      DivIs(n, 2 * m, q);
    }
  }

  // `levels` holds the base reduced by every power of two below `below`, and nothing else.
  ghost predicate LevelsBelow(encoding: ValueEncoding, base: Grid, levels: map<nat, Grid>, below: nat) {
    && (forall f: nat :: f in levels <==> IsPowerOfTwo(f) && f < below)
    && (WellShaped(base) ==> forall f: nat :: f in levels ==> ReducedBy(encoding, base, f, levels[f]))
  }

  lemma LevelsGrow(encoding: ValueEncoding, base: Grid, levels: map<nat, Grid>, factor: nat, level: Grid)
    requires IsPowerOfTwo(factor) && LevelsBelow(encoding, base, levels, factor)
    requires WellShaped(base) ==> ReducedBy(encoding, base, factor, level)
    ensures LevelsBelow(encoding, base, levels[factor := level], factor + 1)
    ensures LevelsBelow(encoding, base, levels[factor := level], 2 * factor)
  {
    forall f: nat | IsPowerOfTwo(f) && factor < f ensures 2 * factor <= f { PowersAreApart(factor, f); }
  }

  // What the building loop knows before it stores `level` under `factor`.
  ghost predicate Building(encoding: ValueEncoding, base: Grid, levels: map<nat, Grid>, factor: nat, level: Grid) {
    && IsPowerOfTwo(factor)
    && LevelsBelow(encoding, base, levels, factor)
    && (WellShaped(base) ==> ReducedBy(encoding, base, factor, level))
    && if factor == 1 then level == base else Reducible(base)
  }

  lemma BuildingStarts(encoding: ValueEncoding, base: Grid)
    ensures Building(encoding, base, map[], 1, base)
  {
    if WellShaped(base) { ReducedByOne(encoding, base); }
  }

  lemma BuildingGoesOn(encoding: ValueEncoding, base: Grid, levels: map<nat, Grid>, factor: nat, level: Grid,
                       next: Grid)
    requires Building(encoding, base, levels, factor, level)
    requires Reducible(base) && ReducedBy(encoding, base, 2 * factor, next)
    ensures Building(encoding, base, levels[factor := level], 2 * factor, next)
  {
    LevelsGrow(encoding, base, levels, factor, level);
    assert (2 * factor) / 2 == factor;
  }

  // Every level of the pyramid is the base reduced by its factor; there is one
  // level for each power of two up to the maximum.
  method FromDecoded(encoding: ValueEncoding, base: Grid, maxFactor: Code)
    returns (r: Result<map<nat, Grid>, PyramidError>)
    ensures r.Err? <==> !IsPowerOfTwo(maxFactor) || (maxFactor > 1 && !Reducible(base))
    ensures r.Ok? ==> LevelsBelow(encoding, base, r.value, maxFactor + 1)
  {
    if !IsPowerOfTwo(maxFactor) {
      return Err(InvalidLevel);
    }
    var levels: map<nat, Grid>, factor: nat, level := map[], 1, base;
    BuildingStarts(encoding, base);
    while factor != maxFactor
      invariant factor <= maxFactor
      invariant Building(encoding, base, levels, factor, level)
      decreases maxFactor - factor
    {
      var next := Halve(encoding, base, factor, level);
      if next.Err? { return Err(next.error); }
      PowersAreApart(factor, maxFactor);
      BuildingGoesOn(encoding, base, levels, factor, level, next.value);
      levels, factor, level := levels[factor := level], 2 * factor, next.value;
    }
    LevelsGrow(encoding, base, levels, factor, level);
    r := Ok(levels[factor := level]);
  }

  method Halve(encoding: ValueEncoding, ghost base: Grid, ghost factor: nat, level: Grid)
    returns (r: Result<Grid, PyramidError>)
    requires WellShaped(base) ==> ReducedBy(encoding, base, factor, level)
    requires if factor == 1 then level == base else Reducible(base)
    ensures r.Err? <==> !Reducible(base)
    ensures r.Ok? ==> ReducedBy(encoding, base, 2 * factor, r.value)
  {
    if Reducible(base) { StaysReducible(encoding, base, factor, level); }
    r := ReduceStrongestValid(encoding, level);
    if r.Ok? { ReductionComposes(encoding, base, factor, level, r.value); }
  }

  lemma StaysReducible(encoding: ValueEncoding, base: Grid, factor: nat, level: Grid)
    requires Reducible(base) && ReducedBy(encoding, base, factor, level)
    ensures Reducible(level)
  {
    CeilDivBounds(base.width, factor);
    CeilDivBounds(base.height, factor);
  }
}
