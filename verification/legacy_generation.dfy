/** The older generator (the top-level MapGeneration component): uniform
    random sites, the Voronoi edges drawn as lines between point tiles
    after trimming a fraction `cutValue` off both ends of the edge list, a
    frame around the map, and a point tile under every site of the trimmed
    site list. Its FillArea is an unfinished stub that changes nothing. */
module LegacyGeneration {
  import opened Grids
  import opened Lines
  import opened Edges

  /** Site i of spreadPoints: two Random.value draws, x first, each scaled by mapSize. */
  function UniformSite(mapSize: int, value: nat -> real, i: nat): Vec2
  {
    Vec2(value(2 * i) * mapSize as real, value(2 * i + 1) * mapSize as real)
  }

  predicate InMapSquare(mapSize: int, p: Vec2)
  {
    0.0 <= p.x <= mapSize as real && 0.0 <= p.y <= mapSize as real
  }

  /** spreadPoints without the Voronoi call: `siteCount` sites, site i drawn
      from the draws 2i and 2i + 1 of the seeded stream. */
  method SpreadPoints(siteCount: int, mapSize: int, value: nat -> real) returns (sites: seq<Vec2>)
    ensures |sites| == Max(siteCount, 0)
    ensures forall i :: 0 <= i < |sites| ==> sites[i] == UniformSite(mapSize, value, i)
  {
    sites := [];
    var i := 0;
    while i < siteCount
      invariant 0 <= i && |sites| == i && (i <= siteCount || i == 0)
      invariant forall k :: 0 <= k < i ==> sites[k] == UniformSite(mapSize, value, k)
    {
      var x := value(2 * i) * mapSize as real;
      var y := value(2 * i + 1) * mapSize as real;
      sites := sites + [Vec2(x, y)];
      i := i + 1;
    }
  }

  /** Random.value lies in [0, 1], so every site lies in the map square. */
  lemma UniformSiteInMap(mapSize: int, value: nat -> real, i: nat)
    requires 0 <= mapSize
    requires 0.0 <= value(2 * i) <= 1.0 && 0.0 <= value(2 * i + 1) <= 1.0
    ensures InMapSquare(mapSize, UniformSite(mapSize, value, i))
  {
    var vx, vy, m := value(2 * i), value(2 * i + 1), mapSize as real;
    ScaledDrawInRange(vx, m);
    ScaledDrawInRange(vy, m);
    assert UniformSite(mapSize, value, i) == Vec2(vx * m, vy * m);
  }

  lemma ScaledDrawInRange(v: real, m: real)
    requires 0.0 <= v <= 1.0 && 0.0 <= m
    ensures 0.0 <= v * m <= m
  {
    MulNonNegative(v, m);
    MulNonNegative(1.0 - v, m);
    assert (1.0 - v) * m == m - v * m;
  }

  /** The index windows of FillTilesOnGround: edges [geStart, geEnd) and
      sites [sitesStart, sitesEnd). */
  datatype Windows = Windows(geStart: int, geEnd: int, sitesStart: int, sitesEnd: int)

  /** Both windows end at count - geStart: the site window's upper end is
      cut by the edge cut, not the site cut. */
  function WindowsOf(geCount: nat, sitesCount: nat, geStart: int, sitesStart: int): (w: Windows)
    ensures w.geStart == geStart && w.sitesStart == sitesStart
    ensures w.geStart + w.geEnd == geCount
    ensures w.geStart + w.sitesEnd == sitesCount
  {
    Windows(geStart, geCount - geStart, sitesStart, sitesCount - geStart)
  }

  /** The windows for a cut: geStart and sitesStart are the truncated
      products count * cutValue. */
  function CutWindows(geCount: nat, sitesCount: nat, cutValue: real): (w: Windows)
    ensures 0.0 <= cutValue ==> 0 <= w.geStart && 0 <= w.sitesStart
    ensures 0.0 <= cutValue ==>
              w.geStart as real <= geCount as real * cutValue < w.geStart as real + 1.0
    ensures 0.0 <= cutValue ==>
              w.sitesStart as real <= sitesCount as real * cutValue < w.sitesStart as real + 1.0
    ensures w == WindowsOf(geCount, sitesCount, w.geStart, w.sitesStart)
  {
    var geCut := geCount as real * cutValue;
    var sitesCut := sitesCount as real * cutValue;
    if 0.0 <= cutValue then
      MulNonNegative(geCount as real, cutValue);
      MulNonNegative(sitesCount as real, cutValue);
      WindowsOf(geCount, sitesCount, Trunc(geCut), Trunc(sitesCut))
    else WindowsOf(geCount, sitesCount, Trunc(geCut), Trunc(sitesCut))
  }

  predicate InList(count: int, i: int)
  {
    0 <= i < count
  }

  /** With a non-negative start both loops index inside their lists. */
  lemma WindowsInBounds(geCount: nat, sitesCount: nat, geStart: int, sitesStart: int, i: int)
    requires 0 <= geStart && 0 <= sitesStart
    ensures var w := WindowsOf(geCount, sitesCount, geStart, sitesStart);
            && (w.geStart <= i < w.geEnd ==> InList(geCount, i))
            && (w.sitesStart <= i < w.sitesEnd ==> InList(sitesCount, i))
  {
  }

  /** Every edge index is in bounds exactly when geStart is not negative:
      otherwise index geStart itself lies in the window and is below zero. */
  lemma EdgeWindowInBoundsIff(geCount: nat, sitesCount: nat, geStart: int, sitesStart: int)
    ensures var w := WindowsOf(geCount, sitesCount, geStart, sitesStart);
            (forall i :: w.geStart <= i < w.geEnd ==> InList(geCount, i)) <==> 0 <= w.geStart
  {
    var w := WindowsOf(geCount, sitesCount, geStart, sitesStart);
    if geStart < 0 {
      assert w.geStart < w.geEnd && !InList(geCount, w.geStart);
    }
  }

  /** For a negative cut the edge window starts below zero, and so reads an
      edge index out of range, exactly when geCount * cutValue <= -1; above
      that the cast truncates the product to 0. */
  lemma NegativeCutStartIff(geCount: nat, sitesCount: nat, cutValue: real)
    requires cutValue < 0.0
    ensures CutWindows(geCount, sitesCount, cutValue).geStart < 0 <==> geCount as real * cutValue <= -1.0
    ensures -1.0 < geCount as real * cutValue ==> CutWindows(geCount, sitesCount, cutValue).geStart == 0
  {
    MulNonNegative(geCount as real, -cutValue);
    assert geCount as real * cutValue == -(geCount as real * -cutValue);
  }

  /** With 600 edges, 200 sites and cut -0.001 both products lie in (-1, 0],
      so both windows are the whole lists. */
  lemma SmallNegativeCutKeepsAll()
    ensures CutWindows(600, 200, -0.001) == Windows(0, 600, 0, 200)
  {
    assert 600 as real * -0.001 == -0.6;
    assert 200 as real * -0.001 == -0.2;
  }

  /** With the inspector defaults (200 sites, cutValue 0.2) and, say, 600
      edges, the edge window is [120, 480) but the site window is [40, 80):
      it keeps 40 sites where trimming both ends by 40 would keep 120. */
  lemma DefaultSiteWindow()
    ensures CutWindows(600, 200, 0.2) == Windows(120, 480, 40, 80)
  {
    assert 600 as real * 0.2 == 120.0;
    assert 200 as real * 0.2 == 40.0;
  }

  /** The site window trims the same number of sites from both ends exactly
      when the two starts agree. */
  lemma SiteWindowSymmetricIff(geCount: nat, sitesCount: nat, geStart: int, sitesStart: int)
    ensures var w := WindowsOf(geCount, sitesCount, geStart, sitesStart);
            w.sitesEnd == sitesCount - w.sitesStart <==> w.geStart == w.sitesStart
  {
  }

  /** The cells the frame loops paint: the bottom and top rows y = 0 and
      y = mapSize for x in [0, mapSize), then the left and right columns
      x = 0 and x = mapSize for y in [0, mapSize), the first loop stopped at
      column xs and the second at row ys. */
  predicate FrameSoFar(mapSize: int, xs: int, ys: int, c: Cell)
  {
    || (0 <= c.x < xs && (c.y == 0 || c.y == mapSize))
    || (0 <= c.y < ys && (c.x == 0 || c.x == mapSize))
  }

  predicate OnFrame(mapSize: int, c: Cell)
  {
    FrameSoFar(mapSize, mapSize, mapSize, c)
  }

  /** The frame has three corners: (0, 0), (mapSize, 0) and (0, mapSize) are
      painted, the corner (mapSize, mapSize) is not. */
  lemma FrameCorners(mapSize: int)
    ensures 0 < mapSize <==> OnFrame(mapSize, Cell(0, 0))
    ensures 0 < mapSize <==> OnFrame(mapSize, Cell(mapSize, 0))
    ensures 0 < mapSize <==> OnFrame(mapSize, Cell(0, mapSize))
    ensures !OnFrame(mapSize, Cell(mapSize, mapSize))
  {
  }

  /** The frame loops so far: `g` is `g0` with the cells FrameSoFar(xs, ys)
      overwritten by the line tile. */
  ghost predicate FrameState(g0: Grid, g: Grid, mapSize: int, xs: int, ys: int)
  {
    && (forall c :: c in g <==> c in g0 || FrameSoFar(mapSize, xs, ys, c))
    && (forall c :: FrameSoFar(mapSize, xs, ys, c) ==> c in g && g[c] == LineTile)
    && (forall c :: c in g0 && !FrameSoFar(mapSize, xs, ys, c) ==> g[c] == g0[c])
  }

  /** One iteration of the `for (x ...)` frame loop. */
  method FrameRows(ghost g0: Grid, g: Grid, mapSize: int, x: int) returns (g': Grid)
    requires 0 <= x < mapSize
    requires FrameState(g0, g, mapSize, x, 0)
    ensures FrameState(g0, g', mapSize, x + 1, 0)
  {
    g' := g[Cell(x, 0) := LineTile][Cell(x, mapSize) := LineTile];
  }

  /** One iteration of the `for (y ...)` frame loop. */
  method FrameColumns(ghost g0: Grid, g: Grid, mapSize: int, y: int) returns (g': Grid)
    requires 0 <= y < mapSize
    requires FrameState(g0, g, mapSize, mapSize, y)
    ensures FrameState(g0, g', mapSize, mapSize, y + 1)
  {
    g' := g[Cell(0, y) := LineTile][Cell(mapSize, y) := LineTile];
  }

  /** The two frame loops: every frame cell holds the line tile, and nothing
      else changes. */
  method DrawFrame(g0: Grid, mapSize: int) returns (g: Grid)
    ensures forall c :: c in g <==> c in g0 || OnFrame(mapSize, c)
    ensures forall c :: OnFrame(mapSize, c) ==> g[c] == LineTile
    ensures forall c :: c in g0 && !OnFrame(mapSize, c) ==> g[c] == g0[c]
  {
    g := g0;
    if mapSize <= 0 {
      return;
    }
    var x := 0;
    while x < mapSize
      invariant 0 <= x <= mapSize
      invariant FrameState(g0, g, mapSize, x, 0)
    {
      g := FrameRows(g0, g, mapSize, x);
      x := x + 1;
    }
    var y := 0;
    while y < mapSize
      invariant 0 <= y <= mapSize
      invariant FrameState(g0, g, mapSize, mapSize, y)
    {
      g := FrameColumns(g0, g, mapSize, y);
      y := y + 1;
    }
  }

  /** Some edge with index in [lo, hi) writes `c`. */
  predicate DrawnBy(ge: seq<Edge>, lo: int, hi: int, c: Cell)
    decreases hi - lo
  {
    0 <= lo < hi <= |ge| && (DrawnBy(ge, lo, hi - 1, c) || EdgeCell(ge[hi - 1], c))
  }

  /** The state of the edge loop after edges [lo, i): exactly their cells
      were written, only with the line or the point tile, and the endpoints
      of the last one hold the point tile. */
  ghost predicate EdgesState(g0: Grid, g: Grid, ge: seq<Edge>, lo: int, i: int)
  {
    && 0 <= lo <= i && (i <= |ge| || i == lo)
    && (forall c :: c in g <==> c in g0 || DrawnBy(ge, lo, i, c))
    && (forall c :: DrawnBy(ge, lo, i, c) ==> c in g && (g[c] == LineTile || g[c] == PointTile))
    && (forall c :: c in g0 && !DrawnBy(ge, lo, i, c) ==> g[c] == g0[c])
    && (lo < i ==> g[EdgeStart(ge[i - 1])] == PointTile && g[EdgeEnd(ge[i - 1])] == PointTile)
  }

  method EdgeIteration(ghost g0: Grid, g: Grid, ge: seq<Edge>, lo: int, i: int) returns (g': Grid)
    requires EdgesState(g0, g, ge, lo, i) && i < |ge|
    ensures EdgesState(g0, g', ge, lo, i + 1)
  {
    g' := DrawEdge(g, ge[i]);
  }

  /** The `for (i = geStart; i < geEnd; i++)` loop: each edge's line, then its
      two endpoints. */
  method DrawEdges(g0: Grid, ge: seq<Edge>, lo: int, hi: int) returns (g: Grid)
    requires 0 <= lo && hi <= |ge|
    ensures EdgesState(g0, g, ge, lo, Max(lo, hi))
  {
    g := g0;
    var i := lo;
    while i < hi
      invariant lo <= i && (i <= hi || i == lo)
      invariant EdgesState(g0, g, ge, lo, i)
    {
      g := EdgeIteration(g0, g, ge, lo, i);
      i := i + 1;
    }
  }

  /** The cell `((int)(x - 1.5), (int)(y - 1.5))` a site marks. */
  function SiteCell(p: Vec2): Cell
  {
    CellOf(Vec2(p.x - 1.5, p.y - 1.5))
  }

  /** The fill tile of site i: groundTile for even i, groundTile2 for odd i. */
  function AlternatingTile(i: nat): Tile
  {
    if i % 2 == 0 then GroundTile else GroundTile2
  }

  /** Consecutive sites get different fill tiles, and the tile repeats with period two. */
  lemma AlternatingTileAlternates(i: nat)
    ensures AlternatingTile(i) != AlternatingTile(i + 1)
    ensures AlternatingTile(i) == AlternatingTile(i + 2)
    ensures AlternatingTile(i) == GroundTile || AlternatingTile(i) == GroundTile2
  {
  }

  /** The stub FillArea: it computes the left neighbour and drops it, so the
      grid is unchanged whatever the centroid and tile. */
  method FillArea(g: Grid, centroid: Cell, tile: Tile) returns (g': Grid)
    ensures g' == g
  {
    var left := Step(centroid, Left);
    g' := g;
  }

  /** Some site with index in [lo, hi) marks `c`. */
  predicate MarkedBy(sites: seq<Vec2>, lo: int, hi: int, c: Cell)
    decreases hi - lo
  {
    0 <= lo < hi <= |sites| && (MarkedBy(sites, lo, hi - 1, c) || SiteCell(sites[hi - 1]) == c)
  }

  /** The state of the site loop after sites [lo, i): exactly their cells
      were overwritten, all with the point tile. */
  ghost predicate SitesState(g0: Grid, g: Grid, sites: seq<Vec2>, lo: int, i: int)
  {
    && 0 <= lo <= i && (i <= |sites| || i == lo)
    && (forall c :: c in g <==> c in g0 || MarkedBy(sites, lo, i, c))
    && (forall c :: MarkedBy(sites, lo, i, c) ==> c in g && g[c] == PointTile)
    && (forall c :: c in g0 && !MarkedBy(sites, lo, i, c) ==> g[c] == g0[c])
  }

  method SiteIteration(ghost g0: Grid, g: Grid, sites: seq<Vec2>, lo: int, i: int) returns (g': Grid)
    requires SitesState(g0, g, sites, lo, i) && i < |sites|
    ensures SitesState(g0, g', sites, lo, i + 1)
  {
    var p := SiteCell(sites[i]);
    g' := g[p := PointTile];
    g' := FillArea(g', p, AlternatingTile(i));
  }

  /** The `for (i = sitesStart; i < sitesEnd; i++)` loop: each site's cell
      gets the point tile, then the no-op FillArea. */
  method MarkSites(g0: Grid, sites: seq<Vec2>, lo: int, hi: int) returns (g: Grid)
    requires 0 <= lo && hi <= |sites|
    ensures SitesState(g0, g, sites, lo, Max(lo, hi))
  {
    g := g0;
    var i := lo;
    while i < hi
      invariant lo <= i && (i <= hi || i == lo)
      invariant SitesState(g0, g, sites, lo, i)
    {
      g := SiteIteration(g0, g, sites, lo, i);
      i := i + 1;
    }
  }

  /** A cell FillTilesOnGround may write: on the frame, on a drawn edge, or
      marking a site of the window. */
  predicate Written(mapSize: int, ge: seq<Edge>, sites: seq<Vec2>, w: Windows, c: Cell)
  {
    OnFrame(mapSize, c) || DrawnBy(ge, w.geStart, w.geEnd, c) || MarkedBy(sites, w.sitesStart, w.sitesEnd, c)
  }

  /** FillTilesOnGround: frame, then edges, then sites. A frame cell keeps
      the line tile unless an edge or a site of the window overwrites it,
      every site of the window ends on a point tile, the last drawn edge keeps
      its endpoints as point tiles, and nothing else changes. */
  method FillTilesOnGround(g0: Grid, mapSize: int, cutValue: real, ge: seq<Edge>, sites: seq<Vec2>)
    returns (g: Grid)
    requires 0.0 <= cutValue
    ensures var w := CutWindows(|ge|, |sites|, cutValue);
            forall c :: c in g <==> c in g0 || Written(mapSize, ge, sites, w, c)
    ensures var w := CutWindows(|ge|, |sites|, cutValue);
            forall c :: c in g0 && !Written(mapSize, ge, sites, w, c) ==> g[c] == g0[c]
    ensures var w := CutWindows(|ge|, |sites|, cutValue);
            forall c :: MarkedBy(sites, w.sitesStart, w.sitesEnd, c) ==> g[c] == PointTile
    ensures var w := CutWindows(|ge|, |sites|, cutValue);
            w.geStart < w.geEnd ==> g[EdgeStart(ge[w.geEnd - 1])] == PointTile && g[EdgeEnd(ge[w.geEnd - 1])] == PointTile
    ensures var w := CutWindows(|ge|, |sites|, cutValue);
            forall c :: OnFrame(mapSize, c) && !DrawnBy(ge, w.geStart, w.geEnd, c) && !MarkedBy(sites, w.sitesStart, w.sitesEnd, c) ==> g[c] == LineTile
    ensures forall c :: c in g && c !in g0 ==> g[c] != GroundTile && g[c] != GroundTile2
  {
    var w := CutWindows(|ge|, |sites|, cutValue);
    var framed := DrawFrame(g0, mapSize);
    var drawn := DrawEdges(framed, ge, w.geStart, w.geEnd);
    g := MarkSites(drawn, sites, w.sitesStart, w.sitesEnd);
    FillTilesDone(g0, framed, drawn, g, mapSize, ge, sites, w);
  }

  lemma FillTilesDone(g0: Grid, framed: Grid, drawn: Grid, g: Grid, mapSize: int, ge: seq<Edge>, sites: seq<Vec2>, w: Windows)
    requires 0 <= w.geStart && 0 <= w.sitesStart && w.geEnd <= |ge| && w.sitesEnd <= |sites|
    requires forall c :: c in framed <==> c in g0 || OnFrame(mapSize, c)
    requires forall c :: OnFrame(mapSize, c) ==> framed[c] == LineTile
    requires forall c :: c in g0 && !OnFrame(mapSize, c) ==> framed[c] == g0[c]
    requires EdgesState(framed, drawn, ge, w.geStart, Max(w.geStart, w.geEnd))
    requires SitesState(drawn, g, sites, w.sitesStart, Max(w.sitesStart, w.sitesEnd))
    ensures forall c :: c in g <==> c in g0 || Written(mapSize, ge, sites, w, c)
    ensures forall c :: c in g0 && !Written(mapSize, ge, sites, w, c) ==> g[c] == g0[c]
    ensures forall c :: MarkedBy(sites, w.sitesStart, w.sitesEnd, c) ==> g[c] == PointTile
    ensures w.geStart < w.geEnd ==> g[EdgeStart(ge[w.geEnd - 1])] == PointTile && g[EdgeEnd(ge[w.geEnd - 1])] == PointTile
    ensures forall c :: OnFrame(mapSize, c) && !DrawnBy(ge, w.geStart, w.geEnd, c) && !MarkedBy(sites, w.sitesStart, w.sitesEnd, c) ==> g[c] == LineTile
    ensures forall c :: c in g && c !in g0 ==> g[c] != GroundTile && g[c] != GroundTile2
  {
    forall c ensures DrawnBy(ge, w.geStart, Max(w.geStart, w.geEnd), c) == DrawnBy(ge, w.geStart, w.geEnd, c)
    {
    }
    forall c ensures MarkedBy(sites, w.sitesStart, Max(w.sitesStart, w.sitesEnd), c) == MarkedBy(sites, w.sitesStart, w.sitesEnd, c)
    {
    }
  }

  /** GenerateGround: ClearAllTiles, spreadPoints, then FillTilesOnGround on
      the Voronoi edges of the sites. Nothing of the previous grid survives. */
  method GenerateGround(previous: Grid, siteCount: int, mapSize: int, cutValue: real,
                        value: nat -> real, voronoi: seq<Vec2> -> seq<Edge>)
    returns (g: Grid, sites: seq<Vec2>, ge: seq<Edge>)
    requires 0.0 <= cutValue
    ensures |sites| == Max(siteCount, 0)
    ensures ge == voronoi(sites)
    ensures forall c :: c in g <==> Written(mapSize, ge, sites, CutWindows(|ge|, |sites|, cutValue), c)
    ensures forall c :: OnFrame(mapSize, c) ==> c in g
    ensures forall c :: c in g ==> g[c] == LineTile || g[c] == PointTile
  {
    var cleared: Grid := map[];
    sites := SpreadPoints(siteCount, mapSize, value);
    ge := voronoi(sites);
    g := FillTilesOnGround(cleared, mapSize, cutValue, ge, sites);
  }
}
