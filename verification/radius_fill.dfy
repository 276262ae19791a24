/** The radius policy of the new generator (FillTilesInRadius): which Voronoi
    sites seed a FillArea call, and what the seeded fills paint together.

    A site inside the outer circle (radius FillRadius around MapCenter) seeds a
    fill, unless it also lies outside the inner circle (radius FillRadius *
    cuteRadius) and a uniform draw from [0, 1] is at most chanceToSaveBorder.
    Only those border sites consume a draw, because the `&&` in the source
    short-circuits. The random stream is a parameter: `draw(k)` is the k-th
    value Random.Range(0.0f, 1f) returns. */
module RadiusFill {
  import opened Grids
  import opened FloodFill

  /** The inspector settings the policy reads (the field names are the
      source's, including the spelling of cuteRadius). */
  datatype Settings = Settings(mapSize: int, fillRadius: real, cuteRadius: real, chanceToSaveBorder: real)

  /** FillRadius: fillRadius times half the map size. Inside the inspector
      ranges the circle is no wider than the map. */
  function FillRadius(s: Settings): (r: real)
    ensures 0.0 <= s.fillRadius && 0 <= s.mapSize ==> 0.0 <= r
    ensures s.fillRadius <= 1.0 && 0 <= s.mapSize ==> r <= s.mapSize as real / 2.0
  {
    var m := s.mapSize as real;
    assert 0.0 <= m && s.fillRadius <= 1.0 ==> (1.0 - s.fillRadius) * m >= 0.0;
    s.fillRadius * m / 2.0
  }

  /** MapCenter: `(int)((float)mapSize / 2)` on both axes, which is integer
      halving rounded toward zero. */
  function MapCenter(mapSize: int): (c: Cell)
    ensures c.x == c.y
    ensures 0 <= mapSize ==> c.x == mapSize / 2
    ensures mapSize < 0 ==> c.x == -((-mapSize) / 2)
  {
    var h := Trunc(mapSize as real / 2.0);
    if 0 <= mapSize then
      assert 2 * h <= mapSize < 2 * h + 2;
      Cell(h, h)
    else
      assert 2 * h - 2 < mapSize <= 2 * h;
      Cell(h, h)
  }

  function CenterPoint(mapSize: int): Vec2
  {
    Vec2(MapCenter(mapSize).x as real, MapCenter(mapSize).y as real)
  }

  /** `Vector2.Distance(center, p) < radius` without the square root: the
      distance is never negative, so it is below the radius exactly when the
      radius is positive and the squared distance is below its square. */
  predicate InCircle(center: Vec2, p: Vec2, radius: real)
  {
    0.0 < radius && SqDist(center, p) < radius * radius
  }

  /** InCircle agrees with comparing the true distance against the radius. */
  lemma InCircleIsDistance(center: Vec2, p: Vec2, radius: real, dist: real)
    requires 0.0 <= dist && dist * dist == SqDist(center, p)
    ensures InCircle(center, p, radius) <==> dist < radius
  {
    if dist < radius {
      SquareBelow(dist, radius);
    } else if 0.0 < radius {
      SquareBelow(radius, dist);
    }
  }

  /** Squaring keeps the order of non-negative reals. */
  lemma SquareBelow(a: real, b: real)
    requires 0.0 <= a <= b
    ensures a * a <= b * b
    ensures a < b ==> a * a < b * b
  {
    if a < b {
      SquareBelowStrict(a, b);
    }
  }

  lemma SquareBelowStrict(a: real, b: real)
    requires 0.0 <= a < b
    ensures a * a < b * b
  {
    MulPositive(b - a, b + a);
    assert (b - a) * (b + a) == b * b - a * a;
  }

  /** A larger circle around the same centre contains a smaller one. */
  lemma InCircleMonotone(center: Vec2, p: Vec2, r1: real, r2: real)
    requires r1 <= r2
    ensures InCircle(center, p, r1) ==> InCircle(center, p, r2)
  {
    if InCircle(center, p, r1) {
      SquareBelow(r1, r2);
    }
  }

  /** CentroidInCircleByRadius: the site lies strictly within `radius` of
      MapCenter, hence strictly inside the square of half-side `radius`
      around it. */
  predicate CentroidInCircleByRadius(s: Settings, p: Vec2, radius: real): (b: bool)
    ensures b ==> 0.0 < radius
    ensures b ==> var c := CenterPoint(s.mapSize);
                  c.x - radius < p.x < c.x + radius && c.y - radius < p.y < c.y + radius
  {
    var c := CenterPoint(s.mapSize);
    if InCircle(c, p, radius) then
      DiscInBox(c, p, radius);
      true
    else false
  }

  /** With `dist` the true distance from MapCenter, the test is
      `Vector2.Distance(MapCenter, p) < radius`. */
  lemma CentroidInCircleIsDistance(s: Settings, p: Vec2, radius: real, dist: real)
    requires 0.0 <= dist && dist * dist == SqDist(CenterPoint(s.mapSize), p)
    ensures CentroidInCircleByRadius(s, p, radius) <==> dist < radius
  {
    InCircleIsDistance(CenterPoint(s.mapSize), p, radius, dist);
  }

  predicate InOuter(s: Settings, p: Vec2)
  {
    CentroidInCircleByRadius(s, p, FillRadius(s))
  }

  predicate InInner(s: Settings, p: Vec2)
  {
    CentroidInCircleByRadius(s, p, FillRadius(s) * s.cuteRadius)
  }

  /** The border band: in the outer circle but not the inner one. Exactly these
      sites consume a draw. */
  predicate InBand(s: Settings, p: Vec2)
  {
    InOuter(s, p) && !InInner(s, p)
  }

  /** The site seeds a fill, given the draw it would consume: it is in the outer
      circle and is not a border site whose draw is at most the chance. */
  predicate Accepted(s: Settings, p: Vec2, draw: real)
  {
    InOuter(s, p) && !(!InInner(s, p) && draw <= s.chanceToSaveBorder)
  }

  /** With cuteRadius in [0, 1] the inner circle lies inside the outer one, so
      an inner site seeds a fill whatever the draw. */
  lemma InnerSitesAlwaysSeed(s: Settings, p: Vec2, draw: real)
    requires 0.0 <= s.cuteRadius <= 1.0 && 0.0 <= s.fillRadius && 0 <= s.mapSize
    ensures InInner(s, p) ==> Accepted(s, p, draw)
  {
    var r := FillRadius(s);
    assert r * s.cuteRadius <= r;
    InCircleMonotone(CenterPoint(s.mapSize), p, r * s.cuteRadius, r);
  }

  /** The number of draws the loop consumes on `sites`. */
  function DrawsUsed(s: Settings, sites: seq<Vec2>): (n: nat)
    ensures n <= |sites|
  {
    if |sites| == 0 then 0
    else DrawsUsed(s, sites[..|sites| - 1]) + (if InBand(s, sites[|sites| - 1]) then 1 else 0)
  }

  /** The fill seeds chosen from `sites`, in visiting order: each site is
      judged with the draw numbered by the band sites before it. */
  function Seeds(s: Settings, sites: seq<Vec2>, draw: nat -> real): (r: seq<Cell>)
    ensures |r| <= |sites|
  {
    if |sites| == 0 then []
    else
      var prefix := sites[..|sites| - 1];
      var p := sites[|sites| - 1];
      Seeds(s, prefix, draw) + (if Accepted(s, p, draw(DrawsUsed(s, prefix))) then [CellOf(p)] else [])
  }

  /** The cells of the sites that satisfy `keep`, in order. */
  function CellsWhere(sites: seq<Vec2>, keep: Vec2 -> bool): (r: seq<Cell>)
    ensures |r| <= |sites|
  {
    if |sites| == 0 then []
    else CellsWhere(sites[..|sites| - 1], keep) + (if keep(sites[|sites| - 1]) then [CellOf(sites[|sites| - 1])] else [])
  }

  /** With a negative chanceToSaveBorder no draw from [0, 1] drops a border
      site: the seeds are exactly the sites of the outer circle. */
  lemma {:induction false} NegativeChanceKeepsBorder(s: Settings, sites: seq<Vec2>, draw: nat -> real)
    requires s.chanceToSaveBorder < 0.0
    requires forall k: nat :: 0.0 <= draw(k) <= 1.0
    ensures Seeds(s, sites, draw) == CellsWhere(sites, p => InOuter(s, p))
  {
    if |sites| > 0 {
      NegativeChanceKeepsBorder(s, sites[..|sites| - 1], draw);
    }
  }

  /** With chanceToSaveBorder at least 1 every draw from [0, 1] drops its border
      site: the seeds are exactly the sites in both circles. */
  lemma {:induction false} FullChanceDropsBorder(s: Settings, sites: seq<Vec2>, draw: nat -> real)
    requires 1.0 <= s.chanceToSaveBorder
    requires forall k: nat :: 0.0 <= draw(k) <= 1.0
    ensures Seeds(s, sites, draw) == CellsWhere(sites, p => InOuter(s, p) && InInner(s, p))
  {
    if |sites| > 0 {
      FullChanceDropsBorder(s, sites[..|sites| - 1], draw);
    }
  }

  /** A chanceToSaveBorder of 0 does not keep the whole border: the test is
      `<=` and Random.Range(0f, 1f) can return 0, so a border site whose draw
      is exactly 0 is still dropped. A border site is kept iff its draw is
      positive. */
  lemma ZeroChanceDropsZeroDraw(s: Settings, p: Vec2, draw: real)
    requires s.chanceToSaveBorder == 0.0 && InBand(s, p)
    ensures Accepted(s, p, draw) <==> 0.0 < draw
    ensures !Accepted(s, p, 0.0)
  {
  }

  /** Some seed reaches `c` through cells that were empty before the first fill. */
  ghost predicate ReachedFrom(g0: Grid, seeds: seq<Cell>, c: Cell)
  {
    exists j :: 0 <= j < |seeds| && Reachable(g0, seeds[j], c)
  }

  /** The loop state over the sites: the grid only gained ground tiles, every
      seed and every painted cell has all four neighbours occupied, and every
      painted cell is reachable from some seed in the original grid. */
  ghost predicate RadiusState(g0: Grid, region: set<Cell>, g: Grid, seeds: seq<Cell>)
  {
    && Enclosed(g, region)
    && Grows(g0, g, GroundTile)
    && (forall j :: 0 <= j < |seeds| ==> Saturated(g, seeds[j]))
    && (forall c {:trigger Saturated(g, c)} :: c in g && c !in g0 ==> Saturated(g, c))
    && (forall c {:trigger ReachedFrom(g0, seeds, c)} :: c in g && c !in g0 ==> ReachedFrom(g0, seeds, c))
  }

  lemma SaturatedGrows(g: Grid, g': Grid, c: Cell)
    requires g.Keys <= g'.Keys && Saturated(g, c)
    ensures Saturated(g', c)
  {
  }

  /** One more fill, from `point` on the current grid, keeps the loop state. */
  lemma FillKeepsState(g0: Grid, region: set<Cell>, g: Grid, seeds: seq<Cell>, point: Cell, g': Grid)
    requires RadiusState(g0, region, g, seeds)
    requires Grows(g, g', GroundTile) && Closed(g, g', point)
    requires forall c {:trigger Reachable(g, point, c)} :: c !in g ==> (c in g' <==> Reachable(g, point, c))
    ensures RadiusState(g0, region, g', seeds + [point])
  {
    var seeds' := seeds + [point];
    EnclosedGrows(g, g', region);
    forall j | 0 <= j < |seeds'|
      ensures Saturated(g', seeds'[j])
    {
      if j < |seeds| {
        SaturatedGrows(g, g', seeds[j]);
      }
    }
    forall c | c in g' && c !in g0
      ensures Saturated(g', c)
    {
      if c in g {
        SaturatedGrows(g, g', c);
      }
    }
    forall c | c in g' && c !in g0
      ensures ReachedFrom(g0, seeds', c)
    {
      if c in g {
        assert ReachedFrom(g0, seeds, c);
        var j :| 0 <= j < |seeds| && Reachable(g0, seeds[j], c);
        assert seeds'[j] == seeds[j];
      } else {
        assert Reachable(g, point, c);
        ReachableAntitone(g0, g, point, c);
        assert seeds'[|seeds|] == point;
      }
    }
  }

  /** Seeds and DrawsUsed extend by one site at a time. */
  lemma SeedsStep(s: Settings, sites: seq<Vec2>, draw: nat -> real, i: int)
    requires 0 <= i < |sites|
    ensures Seeds(s, sites[..i + 1], draw) ==
            Seeds(s, sites[..i], draw) + (if Accepted(s, sites[i], draw(DrawsUsed(s, sites[..i]))) then [CellOf(sites[i])] else [])
    ensures DrawsUsed(s, sites[..i + 1]) == DrawsUsed(s, sites[..i]) + (if InBand(s, sites[i]) then 1 else 0)
  {
    assert sites[..i + 1][..i] == sites[..i];
    assert sites[..i + 1][i] == sites[i];
  }

  /** The policy test for one site, consuming the `used`-th draw only for a
      border site: whether the site seeds a fill, and the draws used after it. */
  method Judge(s: Settings, p: Vec2, draw: nat -> real, used: nat) returns (accept: bool, used': nat)
    ensures accept == Accepted(s, p, draw(used))
    ensures used' == used + (if InBand(s, p) then 1 else 0)
  {
    accept, used' := false, used;
    var outer := CentroidInCircleByRadius(s, p, FillRadius(s));
    var inner := CentroidInCircleByRadius(s, p, FillRadius(s) * s.cuteRadius);
    assert outer == InOuter(s, p) && inner == InInner(s, p);
    if outer {
      if !inner {
        var d := draw(used');
        used' := used' + 1;
        if d <= s.chanceToSaveBorder {
          return;
        }
      }
      accept := true;
    }
  }

  /** One iteration of the loop over the sites. */
  method VisitSite(s: Settings, ghost g0: Grid, sites: seq<Vec2>, draw: nat -> real, ghost region: set<Cell>,
                   i: int, g: Grid, seeds: seq<Cell>, used: nat)
    returns (g': Grid, seeds': seq<Cell>, used': nat)
    requires 0 <= i < |sites|
    requires InOuter(s, sites[i]) ==> CellOf(sites[i]) in region
    requires seeds == Seeds(s, sites[..i], draw) && used == DrawsUsed(s, sites[..i])
    requires RadiusState(g0, region, g, seeds)
    ensures seeds' == Seeds(s, sites[..i + 1], draw) && used' == DrawsUsed(s, sites[..i + 1])
    ensures RadiusState(g0, region, g', seeds')
  {
    SeedsStep(s, sites, draw, i);
    var accept;
    accept, used' := Judge(s, sites[i], draw, used);
    g', seeds' := g, seeds;
    if accept {
      var point := CellOf(sites[i]);
      var passes, limit;
      g', passes, limit := FillArea(g, point, GroundTile, region);
      seeds' := seeds + [point];
      FillKeepsState(g0, region, g, seeds, point, g');
    }
  }

  /** FillTilesInRadius: visits the sites in order and fills from each accepted
      one. `region` is a finite set, containing every outer-circle site's cell,
      around which the original grid is fenced; the map itself is unbounded. */
  method FillTilesInRadius(s: Settings, g0: Grid, sites: seq<Vec2>, draw: nat -> real, ghost region: set<Cell>)
    returns (g: Grid, seeds: seq<Cell>, used: nat)
    requires Enclosed(g0, region)
    requires forall i :: 0 <= i < |sites| ==> InOuter(s, sites[i]) ==> CellOf(sites[i]) in region
    ensures seeds == Seeds(s, sites, draw)
    ensures used == DrawsUsed(s, sites)
    ensures Grows(g0, g, GroundTile)
    ensures forall c {:trigger ReachedFrom(g0, seeds, c)} :: c !in g0 ==> (c in g <==> ReachedFrom(g0, seeds, c))
  {
    g, seeds, used := g0, [], 0;
    var i := 0;
    while i < |sites|
      invariant 0 <= i <= |sites|
      invariant seeds == Seeds(s, sites[..i], draw) && used == DrawsUsed(s, sites[..i])
      invariant RadiusState(g0, region, g, seeds)
    {
      g, seeds, used := VisitSite(s, g0, sites, draw, region, i, g, seeds, used);
      i := i + 1;
    }
    assert sites[..i] == sites;
    StateIsComplete(g0, region, g, seeds);
  }

  /** At the end every cell reachable from any seed is painted: the painted
      ground is the union of the seeds' empty components, whatever the order
      of the fills. */
  lemma StateIsComplete(g0: Grid, region: set<Cell>, g: Grid, seeds: seq<Cell>)
    requires RadiusState(g0, region, g, seeds)
    ensures forall c {:trigger ReachedFrom(g0, seeds, c)} :: c !in g0 ==> (c in g <==> ReachedFrom(g0, seeds, c))
  {
    forall c | c !in g0 && ReachedFrom(g0, seeds, c)
      ensures c in g
    {
      var j :| 0 <= j < |seeds| && Reachable(g0, seeds[j], c);
      assert Saturated(g, seeds[j]);
      assert Closed(g0, g, seeds[j]);
      ClosedIsComplete(g0, g, seeds[j]);
    }
  }
}
