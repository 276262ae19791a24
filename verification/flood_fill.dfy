/** FillArea of the radius-based generator: a four-neighbour worklist fill
    that writes `tile` only into empty cells.

    The worklist `filled` starts as [centroid] (the centroid itself is not
    painted) and is appended to while the `for` loop walks it, so the first
    outer pass drains the whole reachable empty component; the processed cells
    are then removed one by one with List.Remove, leaving the worklist empty,
    and the second pass finds nothing. `limit` counts outer passes only.

    The tile map is unbounded, so the fill terminates only when the empty
    component around the centroid is finite; the model asks for a finite
    `region` that encloses it. */
module FloodFill {
  import opened Grids

  /** A walk of at least one 4-neighbour step whose cells after the start are
      all empty in `g` (the start itself may be occupied). */
  ghost predicate IsEmptyPath(g: Grid, path: seq<Cell>)
  {
    && |path| >= 2
    && (forall i :: 1 <= i < |path| ==> path[i] !in g)
    && (forall i :: 0 <= i < |path| - 1 ==> StepsAt(path, i))
  }

  /** The walk moves to a neighbour between positions i and i + 1. */
  ghost predicate StepsAt(path: seq<Cell>, i: int)
    requires 0 <= i < |path| - 1
  {
    Adjacent(path[i], path[i + 1])
  }

  /** `c` can be reached from `from` through cells that are empty in `g`. */
  ghost predicate Reachable(g: Grid, from: Cell, c: Cell)
  {
    exists path :: IsEmptyPath(g, path) && path[0] == from && path[|path| - 1] == c
  }

  /** All four neighbours of `c` hold a tile. */
  predicate Saturated(g: Grid, c: Cell)
  {
    Step(c, Right) in g && Step(c, Left) in g && Step(c, Up) in g && Step(c, Down) in g
  }

  /** Every neighbour of a cell of `region` is itself in `region` or holds a tile:
      the empty cells around `region` cannot leak out of it. */
  ghost predicate Enclosed(g: Grid, region: set<Cell>)
  {
    forall c {:trigger Fenced(g, region, c)} :: c in region ==> Fenced(g, region, c)
  }

  /** Each neighbour of `c` is in `region` or holds a tile. */
  ghost predicate Fenced(g: Grid, region: set<Cell>, c: Cell)
  {
    && (Step(c, Right) in region || Step(c, Right) in g)
    && (Step(c, Left) in region || Step(c, Left) in g)
    && (Step(c, Up) in region || Step(c, Up) in g)
    && (Step(c, Down) in region || Step(c, Down) in g)
  }

  /** `g` extends `g0`: no occupied cell changes, and every new cell holds `tile`. */
  ghost predicate Grows(g0: Grid, g: Grid, tile: Tile)
  {
    && (forall c :: c in g0 ==> c in g && g[c] == g0[c])
    && (forall c :: c in g && c !in g0 ==> g[c] == tile)
  }

  /** The fill reached a fixpoint around `seed`: the seed and every painted cell
      have no empty neighbour left. */
  ghost predicate Closed(g0: Grid, g: Grid, seed: Cell)
  {
    && Saturated(g, seed)
    && (forall c {:trigger Saturated(g, c)} :: c in g && c !in g0 ==> Saturated(g, c))
  }

  /** List.Remove: drops the first occurrence of `x`, if any. */
  function RemoveFirst<T(==)>(s: seq<T>, x: T): (r: seq<T>)
    ensures multiset(r) == multiset(s) - multiset{x}
    ensures x in s ==> |r| == |s| - 1
    ensures x !in s ==> r == s
  {
    if |s| == 0 then s
    else
      assert s == [s[0]] + s[1..];
      if s[0] == x then s[1..]
      else [s[0]] + RemoveFirst(s[1..], x)
  }

  lemma ReachExtend(g0: Grid, from: Cell, p: Cell, n: Cell)
    requires p == from || Reachable(g0, from, p)
    requires Adjacent(p, n) && n !in g0
    ensures Reachable(g0, from, n)
  {
    if p == from {
      var path := [from, n];
      assert StepsAt(path, 0);
      assert IsEmptyPath(g0, path);
    } else {
      var path :| IsEmptyPath(g0, path) && path[0] == from && path[|path| - 1] == p;
      var path' := path + [n];
      assert StepsAt(path', |path| - 1);
      forall i | 0 <= i < |path'| - 1
        ensures StepsAt(path', i)
      {
        if i < |path| - 1 {
          assert StepsAt(path, i);
        }
      }
      assert IsEmptyPath(g0, path');
    }
  }

  /** Reachability through empty cells only shrinks as the grid gains tiles. */
  lemma ReachableAntitone(g0: Grid, g1: Grid, from: Cell, c: Cell)
    requires g0.Keys <= g1.Keys
    requires Reachable(g1, from, c)
    ensures Reachable(g0, from, c)
  {
    var path :| IsEmptyPath(g1, path) && path[0] == from && path[|path| - 1] == c;
    assert IsEmptyPath(g0, path);
  }

  lemma PrefixIsEmptyPath(g0: Grid, path: seq<Cell>, n: int)
    requires IsEmptyPath(g0, path) && 2 <= n <= |path|
    ensures IsEmptyPath(g0, path[..n])
  {
    var prefix := path[..n];
    forall k | 0 <= k < |prefix| - 1
      ensures StepsAt(prefix, k)
    {
      assert StepsAt(path, k);
    }
  }

  lemma NeighbourOfSaturated(g: Grid, a: Cell, b: Cell)
    requires Saturated(g, a) && Adjacent(a, b)
    ensures b in g
  {
  }

  /** Once the seed and every painted cell are saturated, every walk from the
      seed through originally empty cells lies in painted cells. */
  lemma {:induction false} EmptyPathPainted(g0: Grid, g: Grid, path: seq<Cell>)
    requires IsEmptyPath(g0, path)
    requires Closed(g0, g, path[0])
    ensures forall i :: 1 <= i < |path| ==> path[i] in g
    decreases |path|
  {
    var n := |path|;
    if n > 2 {
      var prefix := path[..n - 1];
      PrefixIsEmptyPath(g0, path, n - 1);
      EmptyPathPainted(g0, g, prefix);
      assert path[n - 2] == prefix[n - 2];
      assert path[n - 2] in g && path[n - 2] !in g0;
      assert Saturated(g, path[n - 2]);
      assert StepsAt(path, n - 2);
      NeighbourOfSaturated(g, path[n - 2], path[n - 1]);
    } else {
      assert StepsAt(path, 0);
      NeighbourOfSaturated(g, path[0], path[1]);
    }
  }

  lemma ClosedIsComplete(g0: Grid, g: Grid, seed: Cell)
    requires Closed(g0, g, seed)
    ensures forall c :: Reachable(g0, seed, c) ==> c in g
  {
    forall c | Reachable(g0, seed, c)
      ensures c in g
    {
      var path :| IsEmptyPath(g0, path) && path[0] == seed && path[|path| - 1] == c;
      EmptyPathPainted(g0, g, path);
    }
  }

  /** Every cell of an empty-cell walk, after the start, is itself reachable. */
  lemma PathCellsReachable(g0: Grid, path: seq<Cell>, i: int)
    requires IsEmptyPath(g0, path) && 1 <= i < |path|
    ensures Reachable(g0, path[0], path[i])
  {
    PrefixIsEmptyPath(g0, path, i + 1);
    var prefix := path[..i + 1];
    assert prefix[|prefix| - 1] == path[i];
  }

  /** The painted set is connected to the centroid through painted cells. */
  lemma PaintedRegionConnected(g0: Grid, g: Grid, centroid: Cell, c: Cell)
    requires forall x {:trigger Reachable(g0, centroid, x)} :: x !in g0 ==> (x in g <==> Reachable(g0, centroid, x))
    requires c in g && c !in g0
    ensures exists path :: && IsEmptyPath(g0, path) && path[0] == centroid && path[|path| - 1] == c
                           && forall i :: 1 <= i < |path| ==> path[i] in g
  {
    assert Reachable(g0, centroid, c);
    var path :| IsEmptyPath(g0, path) && path[0] == centroid && path[|path| - 1] == c;
    forall i | 1 <= i < |path|
      ensures path[i] in g
    {
      PathCellsReachable(g0, path, i);
    }
  }

  /** A centroid whose four neighbours are occupied reaches nothing, so the
      fill paints nothing, not even an empty centroid. */
  lemma SaturatedCentroidReachesNothing(g0: Grid, centroid: Cell, c: Cell)
    requires Saturated(g0, centroid)
    ensures !Reachable(g0, centroid, c)
  {
    if Reachable(g0, centroid, c) {
      var path :| IsEmptyPath(g0, path) && path[0] == centroid && path[|path| - 1] == c;
      assert StepsAt(path, 0);
      NeighbourOfSaturated(g0, path[0], path[1]);
    }
  }

  /** Painting one more region cell removes it from the region's empty cells. */
  lemma PaintShrinksEmpty(region: set<Cell>, g: Grid, n: Cell, tile: Tile)
    requires n in region && n !in g
    ensures |region - g[n := tile].Keys| < |region - g.Keys|
  {
    assert region - g[n := tile].Keys == (region - g.Keys) - {n};
  }

  /** What holds of the worklist and the grid throughout one call: the grid
      only gained `tile` cells, each reachable from the centroid, and every
      queued cell lies in the region and is the centroid or a painted cell. */
  ghost predicate Worklist(g0: Grid, centroid: Cell, tile: Tile, region: set<Cell>, g: Grid, filled: seq<Cell>)
  {
    && Enclosed(g0, region)
    && Grows(g0, g, tile)
    && (forall c {:trigger Reachable(g0, centroid, c)} :: c in g && c !in g0 ==> Reachable(g0, centroid, c))
    && (forall k :: 0 <= k < |filled| ==> filled[k] in region)
    && (forall k :: 0 <= k < |filled| ==> filled[k] == centroid || (filled[k] in g && filled[k] !in g0))
  }

  lemma EnclosedGrows(g: Grid, g': Grid, region: set<Cell>)
    requires Enclosed(g, region) && g.Keys <= g'.Keys
    ensures Enclosed(g', region)
  {
    forall c | c in region
      ensures Fenced(g', region, c)
    {
      assert Fenced(g, region, c);
    }
  }

  /** Painting an empty neighbour of a queued cell and queueing it keeps the
      worklist facts. */
  lemma WorklistPaint(g0: Grid, centroid: Cell, tile: Tile, region: set<Cell>,
                      g: Grid, filled: seq<Cell>, point: Cell, next: Cell)
    requires Worklist(g0, centroid, tile, region, g, filled)
    requires point in region && (point == centroid || (point in g && point !in g0))
    requires Adjacent(point, next) && next !in g
    ensures next in region
    ensures Worklist(g0, centroid, tile, region, g[next := tile], filled + [next])
  {
    assert Fenced(g0, region, point);
    var g' := g[next := tile];
    var filled' := filled + [next];
    ReachExtend(g0, centroid, point, next);
    assert Grows(g0, g', tile);
    forall c | c in g' && c !in g0
      ensures Reachable(g0, centroid, c)
    {
    }
    forall k | 0 <= k < |filled'|
      ensures filled'[k] in region
      ensures filled'[k] == centroid || (filled'[k] in g' && filled'[k] !in g0)
    {
      if k < |filled| {
        assert filled'[k] == filled[k];
      }
    }
  }

  /** One `if (!ground.HasTile(next))` block of the fill: paints the neighbour
      of `point` in direction `d` and queues it, exactly when it is empty. */
  method Visit(ghost g0: Grid, ghost centroid: Cell, tile: Tile, ghost region: set<Cell>,
               g: Grid, filled: seq<Cell>, point: Cell, d: Dir)
    returns (g': Grid, filled': seq<Cell>, painted: bool)
    requires Worklist(g0, centroid, tile, region, g, filled)
    requires point in region && (point == centroid || (point in g && point !in g0))
    ensures Worklist(g0, centroid, tile, region, g', filled')
    ensures painted <==> Step(point, d) !in g
    ensures Step(point, d) in g'
    ensures g.Keys <= g'.Keys && |filled| <= |filled'|
    ensures forall k :: 0 <= k < |filled| ==> filled'[k] == filled[k]
    ensures forall c :: c in g' && c !in g ==> c in filled'
    ensures forall c :: c in filled ==> c in filled'
    ensures !painted ==> g' == g && filled' == filled
    ensures painted ==> g.Keys < g'.Keys && |region - g'.Keys| < |region - g.Keys|
    ensures |region - g'.Keys| <= |region - g.Keys|
  {
    var next := Step(point, d);
    g', filled', painted := g, filled, false;
    if next !in g {
      WorklistPaint(g0, centroid, tile, region, g, filled, point, next);
      PaintShrinksEmpty(region, g, next, tile);
      painted := true;
      g' := g[next := tile];
      filled' := filled + [next];
    }
  }

  /** `foreach (var p in pointsToDelete) filled.Remove(p);` */
  method RemoveEach<T(==)>(filled: seq<T>, pointsToDelete: seq<T>) returns (r: seq<T>)
    ensures multiset(r) == multiset(filled) - multiset(pointsToDelete)
  {
    r := filled;
    var j := 0;
    while j < |pointsToDelete|
      invariant 0 <= j <= |pointsToDelete|
      invariant multiset(r) == multiset(filled) - multiset(pointsToDelete[..j])
    {
      assert pointsToDelete[..j + 1] == pointsToDelete[..j] + [pointsToDelete[j]];
      r := RemoveFirst(r, pointsToDelete[j]);
      j := j + 1;
    }
    assert pointsToDelete[..j] == pointsToDelete;
  }

  lemma PrefixGrows<T>(a: seq<T>, b: seq<T>, i: int)
    requires 0 <= i < |a| <= |b|
    requires forall k :: 0 <= k < |a| ==> b[k] == a[k]
    ensures b[..i + 1] == a[..i] + [a[i]]
  {
  }

  /** Two consecutive neighbour visits of one `for` iteration. */
  method VisitPair(ghost g0: Grid, ghost centroid: Cell, tile: Tile, ghost region: set<Cell>,
                   g: Grid, filled: seq<Cell>, point: Cell, d1: Dir, d2: Dir)
    returns (g': Grid, filled': seq<Cell>, paintedAny: bool)
    requires Worklist(g0, centroid, tile, region, g, filled)
    requires point in region && (point == centroid || (point in g && point !in g0))
    ensures Worklist(g0, centroid, tile, region, g', filled')
    ensures Step(point, d1) in g' && Step(point, d2) in g'
    ensures g.Keys <= g'.Keys && |filled| <= |filled'|
    ensures forall k :: 0 <= k < |filled| ==> filled'[k] == filled[k]
    ensures forall c :: c in g' && c !in g ==> c in filled'
    ensures forall c :: c in filled ==> c in filled'
    ensures !paintedAny ==> g' == g && filled' == filled
    ensures paintedAny ==> g.Keys < g'.Keys && |region - g'.Keys| < |region - g.Keys|
  {
    var g1, f1, p1 := Visit(g0, centroid, tile, region, g, filled, point, d1);
    var p2;
    g', filled', p2 := Visit(g0, centroid, tile, region, g1, f1, point, d2);
    paintedAny := p1 || p2;
  }

  /** One iteration of the `for` loop: visits the right, left, up and down
      neighbours of `point` in that order. */
  method ProcessCell(ghost g0: Grid, ghost centroid: Cell, tile: Tile, ghost region: set<Cell>,
                     g: Grid, filled: seq<Cell>, point: Cell)
    returns (g': Grid, filled': seq<Cell>, paintedAny: bool)
    requires Worklist(g0, centroid, tile, region, g, filled)
    requires point in region && (point == centroid || (point in g && point !in g0))
    ensures Worklist(g0, centroid, tile, region, g', filled')
    ensures Saturated(g', point)
    ensures g.Keys <= g'.Keys && |filled| <= |filled'|
    ensures forall k :: 0 <= k < |filled| ==> filled'[k] == filled[k]
    ensures forall c :: c in g' && c !in g ==> c in filled'
    ensures forall c :: c in filled ==> c in filled'
    ensures !paintedAny ==> g' == g && filled' == filled
    ensures paintedAny ==> g.Keys < g'.Keys && |region - g'.Keys| < |region - g.Keys|
  {
    var g1, f1, p1 := VisitPair(g0, centroid, tile, region, g, filled, point, Right, Left);
    var p2;
    g', filled', p2 := VisitPair(g0, centroid, tile, region, g1, f1, point, Up, Down);
    paintedAny := p1 || p2;
  }

  /** Every painted cell, and the centroid, either has no empty neighbour left
      or is still queued in `filled`. */
  ghost predicate Pending(g0: Grid, g: Grid, centroid: Cell, filled: seq<Cell>)
  {
    && (Saturated(g, centroid) || centroid in filled)
    && (forall c {:trigger Saturated(g, c)} :: c in g && c !in g0 ==> Saturated(g, c) || c in filled)
  }

  /** What one `for` iteration over `filledBefore[i]` leaves behind: cells
      processed so far stay saturated and nothing pending is lost. */
  lemma PassStep(g0: Grid, centroid: Cell, gBefore: Grid, filledBefore: seq<Cell>,
                 g: Grid, filled: seq<Cell>, i: int)
    requires 0 <= i < |filledBefore| <= |filled|
    requires forall k :: 0 <= k < |filledBefore| ==> filled[k] == filledBefore[k]
    requires gBefore.Keys <= g.Keys
    requires forall k :: 0 <= k < i ==> Saturated(gBefore, filledBefore[k])
    requires Saturated(g, filledBefore[i])
    requires Pending(g0, gBefore, centroid, filledBefore)
    requires forall c :: c in g && c !in gBefore ==> c in filled
    requires forall c :: c in filledBefore ==> c in filled
    ensures forall k :: 0 <= k <= i ==> Saturated(g, filled[k])
    ensures Pending(g0, g, centroid, filled)
    ensures filled[..i + 1] == filledBefore[..i] + [filledBefore[i]]
  {
    forall k | 0 <= k <= i
      ensures Saturated(g, filled[k])
    {
      if k < i {
        assert Saturated(gBefore, filledBefore[k]);
      }
    }
    forall c | c in g && c !in g0
      ensures Saturated(g, c) || c in filled
    {
      if c in gBefore && !(c in filledBefore) {
        assert Saturated(gBefore, c);
      }
    }
    PrefixGrows(filledBefore, filled, i);
  }

  /** The state of the `for` loop before iteration `i`: cells before `i` are
      processed, `pointsToDelete` lists them, and `flag` (filledOneAtLeast)
      records whether anything was painted since the pass began. */
  ghost predicate PassState(g0: Grid, centroid: Cell, tile: Tile, region: set<Cell>,
                            gIn: Grid, filledIn: seq<Cell>,
                            g: Grid, filled: seq<Cell>, i: int, pointsToDelete: seq<Cell>, flag: bool)
  {
    && 0 <= i <= |filled|
    && Worklist(g0, centroid, tile, region, g, filled)
    && (forall k :: 0 <= k < i ==> Saturated(g, filled[k]))
    && Pending(g0, g, centroid, filled)
    && pointsToDelete == filled[..i]
    && (!flag ==> gIn.Keys == g.Keys && filled == filledIn)
    && (flag ==> gIn.Keys < g.Keys)
    && (filledIn == [] ==> !flag)
  }

  /** One iteration of the `for` loop: processes `filled[i]` and appends it to
      `pointsToDelete`. */
  method PassIteration(ghost g0: Grid, ghost centroid: Cell, tile: Tile, ghost region: set<Cell>,
                       ghost gIn: Grid, ghost filledIn: seq<Cell>,
                       g: Grid, filled: seq<Cell>, i: int, pointsToDelete: seq<Cell>, flag: bool)
    returns (g': Grid, filled': seq<Cell>, pointsToDelete': seq<Cell>, flag': bool)
    requires PassState(g0, centroid, tile, region, gIn, filledIn, g, filled, i, pointsToDelete, flag)
    requires i < |filled|
    ensures PassState(g0, centroid, tile, region, gIn, filledIn, g', filled', i + 1, pointsToDelete', flag')
    ensures |region - g'.Keys| < |region - g.Keys| || (g' == g && filled' == filled)
  {
    var point := filled[i];
    var paintedAny;
    g', filled', paintedAny := ProcessCell(g0, centroid, tile, region, g, filled, point);
    flag' := flag || paintedAny;
    PassStep(g0, centroid, g, filled, g', filled', i);
    pointsToDelete' := pointsToDelete + [point];
  }

  /** One pass of the outer loop up to the removals: the `for` loop over the
      growing worklist. Returns the grown worklist and `pointsToDelete`. */
  method Pass(ghost g0: Grid, ghost centroid: Cell, tile: Tile, ghost region: set<Cell>,
              gIn: Grid, filledIn: seq<Cell>)
    returns (g: Grid, filled: seq<Cell>, filledOneAtLeast: bool, pointsToDelete: seq<Cell>)
    requires Worklist(g0, centroid, tile, region, gIn, filledIn)
    requires Pending(g0, gIn, centroid, filledIn)
    ensures Worklist(g0, centroid, tile, region, g, filled)
    ensures Closed(g0, g, centroid)
    ensures pointsToDelete == filled
    ensures !filledOneAtLeast ==> gIn.Keys == g.Keys
    ensures filledOneAtLeast ==> gIn.Keys < g.Keys
    ensures filledIn == [] ==> !filledOneAtLeast
  {
    g, filled, filledOneAtLeast, pointsToDelete := gIn, filledIn, false, [];
    var i := 0;
    while i < |filled|
      invariant PassState(g0, centroid, tile, region, gIn, filledIn, g, filled, i, pointsToDelete, filledOneAtLeast)
      decreases |region - g.Keys|, |filled| - i
    {
      g, filled, pointsToDelete, filledOneAtLeast :=
        PassIteration(g0, centroid, tile, region, gIn, filledIn, g, filled, i, pointsToDelete, filledOneAtLeast);
      i := i + 1;
    }
    PassDone(g0, centroid, tile, region, gIn, filledIn, g, filled, i, pointsToDelete, filledOneAtLeast);
  }

  /** Once the `for` loop has run past the end of the worklist, every queued
      cell is saturated, hence so is every painted cell and the centroid. */
  lemma PassDone(g0: Grid, centroid: Cell, tile: Tile, region: set<Cell>,
                 gIn: Grid, filledIn: seq<Cell>,
                 g: Grid, filled: seq<Cell>, i: int, pointsToDelete: seq<Cell>, flag: bool)
    requires PassState(g0, centroid, tile, region, gIn, filledIn, g, filled, i, pointsToDelete, flag)
    requires i == |filled|
    ensures Closed(g0, g, centroid)
    ensures pointsToDelete == filled
  {
    assert filled[..i] == filled;
    forall c | c in g && c !in g0
      ensures Saturated(g, c)
    {
      assert Saturated(g, c) || c in filled;
    }
  }

  /** The fill seeded at `centroid`. Returns the grid, the number of outer
      passes, and the final value of the pass counter `limit`. */
  method FillArea(g0: Grid, centroid: Cell, tile: Tile, ghost region: set<Cell>)
    returns (g: Grid, passes: nat, limit: int)
    requires centroid in region && Enclosed(g0, region)
    ensures Grows(g0, g, tile)
    ensures forall c {:trigger Reachable(g0, centroid, c)} :: c !in g0 ==> (c in g <==> Reachable(g0, centroid, c))
    ensures Closed(g0, g, centroid)
    ensures passes == (if g.Keys == g0.Keys then 1 else 2)
    ensures limit == (if passes == 1 then 256 else 255)
  {
    limit := 256;
    var filled: seq<Cell> := [centroid];
    g := g0;
    passes := 0;
    while true
      invariant passes <= 1
      invariant Worklist(g0, centroid, tile, region, g, filled)
      invariant Pending(g0, g, centroid, filled)
      invariant passes == 0 ==> g == g0 && filled == [centroid] && limit == 256
      invariant passes == 1 ==> filled == [] && limit == 255 && g0.Keys < g.Keys
      decreases 2 - passes
    {
      var filledOneAtLeast, pointsToDelete;
      g, filled, filledOneAtLeast, pointsToDelete := Pass(g0, centroid, tile, region, g, filled);
      ClosedIsComplete(g0, g, centroid);
      filled := RemoveEach(filled, pointsToDelete);
      assert multiset(filled) == multiset{};
      passes := passes + 1;
      if !filledOneAtLeast {
        break;
      }
      var expired := limit < 0;
      limit := limit - 1;
      if expired {
        break;
      }
    }
  }
}
