# Tile-map generation: a Dafny model

This project models the tile-grid core of a Unity terrain generator with two
`MapGeneration` components: a newer one (`Assets/Scripts/Map/MapGeneration.cs`)
and an older one (`Assets/Scripts/MapGeneration.cs`). Both place Voronoi sites
on a square map and draw onto a `Tilemap`.

The tile map is modelled as `map<Cell, Tile>` (module `Grids`).
- `HasTile(c)` is key membership.
- `SetTile(c, t)` is map update.
- `ClearAllTiles` is the empty map.
- C#'s `(int)` cast of a float becomes `Trunc`, which rounds toward zero, unlike `Floor`.

Modules:

- **Lines**: `TileLine`, shared by both files. It steps diagonally, then straight, from `p1` toward `p2`. It paints every visited cell except `p2`.
- **FloodFill**: the new `FillArea`, a four-neighbour worklist fill that writes only into empty cells. The worklist grows while the `for` loop walks it, so the first outer pass drains the whole reachable empty component; the loop removes the processed cells afterwards, and the second pass finds nothing. There are therefore at most two passes, and `limit` ends at 256 or 255: it never stops the fill.
- **RadiusFill**: `FillTilesInRadius`, `CentroidInCircleByRadius`, `FillRadius` and `MapCenter`. A site inside the outer circle seeds a fill, unless it lies in the border band and its draw is at most `chanceToSaveBorder`. Only band sites consume a draw, because `&&` short-circuits. A chance of 0 does not keep the whole border: the test is `<=` and `Random.Range(0f, 1f)` can return 0, so a band site whose draw is exactly 0 is still dropped (`ZeroChanceDropsZeroDraw`). That is why the keep-everything lemma `NegativeChanceKeepsBorder` asks for a negative chance. The painted ground is the union of the seeds' empty components.
- **SiteLattice**: the new `SpreadPoints`. Sites are not confined to the map square [0, mapSize] x [0, mapSize]. A site lies within r = areaLen * minSizeBetweenPoints of its square's centre (`SiteInMapMargin`). With the default 0.7, r exceeds areaLen / 2, so a site of the first column can land left of x = 0 (`LeftSiteLeavesMap`). A top-row centre sits just below mapSize, so a site can land above y = mapSize: at the defaults (512, 200 sites) the first site of row 13 drawn at (0, 1) lies at y = 14.7 * areaLen, about 532 (`TopSiteLeavesMap`). One site per lattice square of side `areaLen`, row by row. Within a row the centre's y offset alternates between a full side (even columns) and half a side (odd columns). So columns, not rows, are staggered. Both loops run `StepCount(mapSize - areaLen, areaLen)` times: one square fewer than `mapSize / areaLen` when the side divides the map exactly. With the defaults (512, 200 sites) the result is 14 x 14 = 196 sites.
- **Edges**: drawing one Voronoi edge, as both files do. First the line in the line tile, then both truncated endpoints in the point tile.
- **LegacyGeneration**: the old component.
  - `spreadPoints` draws uniform sites.
  - `FillTilesOnGround` draws a frame in the line tile on all four sides (rows y = 0 and y = mapSize, columns x = 0 and x = mapSize), missing only the corner (mapSize, mapSize). Then it draws the edges of a trimmed window, and a point tile under each site of a trimmed window. A frame cell keeps the line tile unless an edge or site overwrites it.
  - Its `FillArea` is a stub that changes nothing.
  - The site window ends at `sites.Count - geStart`: its upper end is trimmed by the edge cut, not the site cut. With 200 sites, 600 edges and cut 0.2 the site window is [40, 80).

Random streams are parameters:
- `draw(k)` and `value(k)` are the k-th `Random.Range(0, 1)` or `Random.value` after seeding.
- `unitDraw(k)` is the k-th `Random.insideUnitCircle`.
- The Voronoi library is a function from sites to edges.

Floats are exact reals.

## Model

| member | source | states |
|---|---|---|
| Grids.Trunc | Assets/Scripts/MapGeneration.cs:108-109 | the `(int)` cast keeps the integer part: for non-negative r it is the largest integer at or below r, for negative r the smallest at or above |
| Grids.TruncIsNotFloor | Assets/Scripts/Map/MapGeneration.cs:188 | on a negative coordinate the cast differs from flooring: (int)(-1.5) is -1, the floor is -2 |
| Grids.TruncIsOdd | Assets/Scripts/MapGeneration.cs:122 | the cast is symmetric about zero: Trunc(-r) == -Trunc(r) |
| Grids.AdjacentIsUnitDistance | Assets/Scripts/Map/MapGeneration.cs:212-236 | the four neighbours right, left, up and down are exactly the cells at Manhattan distance one |
| Lines.TileLine | Assets/Scripts/Map/MapGeneration.cs:161-177 | (the legacy copy at Assets/Scripts/MapGeneration.cs:129-145 is the same) exactly Chebyshev(p1, p2) cells are painted, in line order; p1 is painted unless p1 == p2, when nothing changes; p2 is never painted; every painted cell lies in the bounding box; consecutive painted cells touch; cells off the line keep their tiles |
| Lines.LineStep | Assets/Scripts/Map/MapGeneration.cs:163-176 | one loop iteration paints the current cell, advances to the next line cell and lowers the Chebyshev distance to p2 by one, which makes the loop terminate |
| Lines.LineCellReaches | Assets/Scripts/Map/MapGeneration.cs:163 | the stepping reaches p2 exactly after Chebyshev(p1, p2) steps, one unit closer per step |
| Lines.LinePropertiesHold | Assets/Scripts/Map/MapGeneration.cs:165-176 | no line cell before the last step is p2, every line cell is inside the box, successive line cells are king-adjacent |
| Lines.LineDone | Assets/Scripts/Map/MapGeneration.cs:163 | when the loop condition fails the painted list is the whole line |
| FloodFill.FillArea | Assets/Scripts/Map/MapGeneration.cs:200-248 | no occupied cell changes and new cells hold `tile`; an empty cell is painted iff it is reachable from the centroid through empty cells; afterwards the centroid and every painted cell have all neighbours occupied; one pass if nothing was painted, otherwise two, with `limit` ending at 256 or 255 |
| FloodFill.Pass | Assets/Scripts/Map/MapGeneration.cs:207-244 | one outer pass over the growing worklist closes the fill (no painted cell and not the centroid keeps an empty neighbour), `pointsToDelete` equals the final worklist, and `filledOneAtLeast` is set iff the grid gained a cell |
| FloodFill.PassIteration | Assets/Scripts/Map/MapGeneration.cs:209-243 | one `for` iteration keeps the pass state and either strictly shrinks the region's empty cells or leaves grid and worklist unchanged |
| FloodFill.ProcessCell | Assets/Scripts/Map/MapGeneration.cs:211-242 | after visiting the four neighbours of a queued cell all of them are occupied, only cells that were empty got painted, and each newly painted cell is queued |
| FloodFill.Visit | Assets/Scripts/Map/MapGeneration.cs:212-218 | a neighbour is painted and queued iff it was empty; painting never overwrites a tile |
| FloodFill.WorklistPaint | Assets/Scripts/Map/MapGeneration.cs:213-217 | painting an empty neighbour of a queued cell keeps every painted cell reachable from the centroid and inside the region |
| FloodFill.PassDone | Assets/Scripts/Map/MapGeneration.cs:209-244 | when the `for` loop has walked the whole worklist every queued cell, hence every painted cell and the centroid, is saturated |
| FloodFill.RemoveFirst | Assets/Scripts/Map/MapGeneration.cs:245 | List.Remove drops one occurrence of the value, if any, and leaves the rest as a multiset |
| FloodFill.RemoveEach | Assets/Scripts/Map/MapGeneration.cs:245 | removing every element of `pointsToDelete` leaves the multiset difference, so removing the whole worklist empties it |
| FloodFill.ClosedIsComplete | Assets/Scripts/Map/MapGeneration.cs:205-247 | once the fill is closed, every cell reachable from the seed through originally empty cells is painted |
| FloodFill.EmptyPathPainted | Assets/Scripts/Map/MapGeneration.cs:209-244 | induction on a walk through empty cells: each step from a saturated cell lands on an occupied cell |
| FloodFill.PaintedRegionConnected | Assets/Scripts/Map/MapGeneration.cs:212-242 | every painted cell is joined to the centroid by a walk through painted cells |
| FloodFill.SaturatedCentroidReachesNothing | Assets/Scripts/Map/MapGeneration.cs:203-204 | a centroid whose four neighbours are occupied reaches nothing, so the fill paints nothing and an empty centroid stays empty |
| FloodFill.ReachableAntitone | Assets/Scripts/Map/MapGeneration.cs:213 | reachability through empty cells only shrinks as tiles are added |
| RadiusFill.FillRadius | Assets/Scripts/Map/MapGeneration.cs:44 | with fillRadius in [0, 1] the outer radius is between 0 and half the map size |
| RadiusFill.MapCenter | Assets/Scripts/Map/MapGeneration.cs:45 | both coordinates are mapSize / 2 rounded toward zero |
| RadiusFill.InCircleIsDistance | Assets/Scripts/Map/MapGeneration.cs:194-198 | the square-root-free test agrees with `Vector2.Distance(center, p) < radius` for the true distance |
| RadiusFill.CentroidInCircleByRadius | Assets/Scripts/Map/MapGeneration.cs:194-198 | a site that passes the test lies strictly inside the square of half-side `radius` around MapCenter, and the radius is positive; its partner `CentroidInCircleIsDistance` (through `InCircleIsDistance`) equates the test with `Vector2.Distance(MapCenter, p) < radius` |
| RadiusFill.CentroidInCircleIsDistance | Assets/Scripts/Map/MapGeneration.cs:196-197 | for the true distance `dist` from MapCenter, the test holds iff `dist < radius` |
| RadiusFill.InCircleMonotone | Assets/Scripts/Map/MapGeneration.cs:194-198 | a site within a radius is within every larger radius |
| RadiusFill.InnerSitesAlwaysSeed | Assets/Scripts/Map/MapGeneration.cs:183-186 | with cuteRadius in [0, 1] a site of the inner circle is accepted whatever the draw |
| RadiusFill.Judge | Assets/Scripts/Map/MapGeneration.cs:183-186 | a site is accepted iff it is in the outer circle and not a band site whose draw is at most the chance; exactly band sites consume a draw |
| RadiusFill.NegativeChanceKeepsBorder | Assets/Scripts/Map/MapGeneration.cs:185 | with a negative chance and draws in [0, 1] the seeds are exactly the outer-circle sites, in order |
| RadiusFill.ZeroChanceDropsZeroDraw | Assets/Scripts/Map/MapGeneration.cs:185 | with chanceToSaveBorder 0 a band site is kept iff its draw is positive, so a draw of exactly 0 still drops it |
| RadiusFill.FullChanceDropsBorder | Assets/Scripts/Map/MapGeneration.cs:185 | with chance at least 1 the seeds are exactly the inner-circle sites, in order |
| RadiusFill.VisitSite | Assets/Scripts/Map/MapGeneration.cs:181-190 | one iteration extends the seed list and the draw count by that site's verdict and keeps the fill state |
| RadiusFill.FillKeepsState | Assets/Scripts/Map/MapGeneration.cs:188-189 | one more fill keeps every earlier seed saturated and every painted cell reachable from some seed |
| RadiusFill.FillTilesInRadius | Assets/Scripts/Map/MapGeneration.cs:179-192 | the seeds are the truncated accepted sites in index order; draws used equal the band sites; only ground tiles are added; an empty cell ends painted iff some seed reaches it through originally empty cells |
| RadiusFill.StateIsComplete | Assets/Scripts/Map/MapGeneration.cs:179-192 | the painted ground is the union of the seeds' empty components, whatever the order of the fills |
| SiteLattice.Ceil | Assets/Scripts/Map/MapGeneration.cs:124 | the ceiling is the least integer at or above its argument |
| SiteLattice.StepCountSpec | Assets/Scripts/Map/MapGeneration.cs:124 | the k-th coordinate k * len is below the limit iff k < StepCount: the loop runs StepCount times |
| SiteLattice.OffsetIsProduct | Assets/Scripts/Map/MapGeneration.cs:127 | k additions of areaLen reach k * areaLen |
| SiteLattice.BelowLimit | Assets/Scripts/Map/MapGeneration.cs:127 | the accumulated coordinate is below `mapSize - areaLen` iff k < StepCount |
| SiteLattice.ExactLatticeLosesARow | Assets/Scripts/Map/MapGeneration.cs:122-127 | when n squares fit exactly, the loops visit only n - 1 rows and columns |
| SiteLattice.DefaultLatticeHas196Sites | Assets/Scripts/Map/MapGeneration.cs:122-127 | with mapSize 512 and siteCount 200 each loop runs 14 times, 196 sites |
| SiteLattice.RowColOf | Assets/Scripts/Map/MapGeneration.cs:124-138 | in row-major order index row * n + col is row `row`, column `col` |
| SiteLattice.SiteNearCentre | Assets/Scripts/Map/MapGeneration.cs:132-137 | a site is within areaLen * minSizeBetweenPoints of its square's centre when its draw is in the unit disc |
| SiteLattice.CentreInMap | Assets/Scripts/Map/MapGeneration.cs:127-131 | every visited centre is at least half a side inside the left and bottom edges, and below the right and top edges |
| SiteLattice.SiteInMapMargin | Assets/Scripts/Map/MapGeneration.cs:124-137 | a visited site lies in [areaLen/2 - r, mapSize - areaLen/2 + r) x [areaLen/2 - r, mapSize + r) for r = areaLen * minSizeBetweenPoints: inside the map only on the left and bottom, and only when r <= areaLen / 2 |
| SiteLattice.LeftSiteLeavesMap | Assets/Scripts/Map/MapGeneration.cs:130-137 | with minSizeBetweenPoints 0.7 and draw (-1, 0) the first site has a negative x |
| SiteLattice.TopSiteLeavesMap | Assets/Scripts/Map/MapGeneration.cs:122-137 | with mapSize 512 and siteCount 200 the loops visit 14 rows, and the site of square (13, 0) drawn at (0, 1) lies above y = 512 |
| SiteLattice.RowSitesAt | Assets/Scripts/Map/MapGeneration.cs:127-138 | column col of a row is the site of square (row, col) with draw base + col |
| SiteLattice.RowsAt | Assets/Scripts/Map/MapGeneration.cs:124-139 | site k of the loops is square (k / n, k % n) with the k-th draw |
| SiteLattice.SquareFromLoop | Assets/Scripts/Map/MapGeneration.cs:130-137 | the loop's arithmetic with corner (x, y) and the current slideY yields the site of square (row, col) |
| SiteLattice.AppendToRow | Assets/Scripts/Map/MapGeneration.cs:137 | appending the next site extends the partial row by its next square |
| SiteLattice.PlaceSite | Assets/Scripts/Map/MapGeneration.cs:130-137 | the site is the staggered centre (y + areaLen for even columns, y + areaLen / 2 for odd) plus the scaled draw |
| SiteLattice.SpreadSquare | Assets/Scripts/Map/MapGeneration.cs:129-137 | one inner iteration appends the site of the next square, advances x by areaLen and flips slideY |
| SiteLattice.SpreadRow | Assets/Scripts/Map/MapGeneration.cs:126-138 | a row starts with slideY false and appends n sites, one per column in order |
| SiteLattice.SpreadPoints | Assets/Scripts/Map/MapGeneration.cs:112-140 | exactly n * n sites for n = StepCount(mapSize - areaLen, areaLen), rows outermost, site k being square (k / n, k % n) with draw k |
| Edges.DrawEdge | Assets/Scripts/MapGeneration.cs:108-116 | (the new file's copy at Assets/Scripts/Map/MapGeneration.cs:149-157 is the same) both truncated endpoints end with the point tile even when the line crosses them; the other line cells hold the line tile; nothing else changes |
| Edges.OnLineIsPainted | Assets/Scripts/MapGeneration.cs:112 | the cells TileLine reports are exactly the cells on the line |
| LegacyGeneration.SpreadPoints | Assets/Scripts/MapGeneration.cs:66-81 | exactly siteCount sites (none for a non-positive count), site i built from draws 2i (x) and 2i + 1 (y) scaled by mapSize |
| LegacyGeneration.UniformSiteInMap | Assets/Scripts/MapGeneration.cs:77 | draws in [0, 1] place every site in [0, mapSize] x [0, mapSize] |
| LegacyGeneration.WindowsOf | Assets/Scripts/MapGeneration.cs:89-90 | the edge window ends geStart before the edge count, and the site window ends geStart before the site count |
| LegacyGeneration.CutWindows | Assets/Scripts/MapGeneration.cs:86-90 | with a non-negative cut both starts are the integer parts of count * cutValue, hence non-negative |
| LegacyGeneration.WindowsInBounds | Assets/Scripts/MapGeneration.cs:106-119 | with non-negative starts every index either loop reads lies inside its list |
| LegacyGeneration.EdgeWindowInBoundsIff | Assets/Scripts/MapGeneration.cs:86-106 | every edge index is in bounds iff geStart is not negative |
| LegacyGeneration.NegativeCutStartIff | Assets/Scripts/MapGeneration.cs:86 | for a negative cut, geStart is negative iff `ge.Count * cutValue <= -1`, and is 0 otherwise |
| LegacyGeneration.SmallNegativeCutKeepsAll | Assets/Scripts/MapGeneration.cs:86-90 | 600 edges, 200 sites and cut -0.001 give the whole lists as windows |
| LegacyGeneration.DefaultSiteWindow | Assets/Scripts/MapGeneration.cs:86-90 | 600 edges, 200 sites, cut 0.2 give edge window [120, 480) and site window [40, 80) |
| LegacyGeneration.SiteWindowSymmetricIff | Assets/Scripts/MapGeneration.cs:87-90 | the site window trims both ends equally iff geStart equals sitesStart |
| LegacyGeneration.FrameCorners | Assets/Scripts/MapGeneration.cs:94-103 | for a positive size three corners are on the frame; the corner (mapSize, mapSize) never is |
| LegacyGeneration.FrameRows | Assets/Scripts/MapGeneration.cs:94-98 | one x iteration adds (x, 0) and (x, mapSize) to the frame painted so far |
| LegacyGeneration.FrameColumns | Assets/Scripts/MapGeneration.cs:99-103 | one y iteration adds (0, y) and (mapSize, y) to the frame painted so far |
| LegacyGeneration.DrawFrame | Assets/Scripts/MapGeneration.cs:94-103 | exactly the frame cells are added or overwritten, all with the line tile |
| LegacyGeneration.EdgeIteration | Assets/Scripts/MapGeneration.cs:106-117 | drawing edge i adds its cells to the drawn set, only with line or point tiles, and leaves its endpoints as point tiles |
| LegacyGeneration.DrawEdges | Assets/Scripts/MapGeneration.cs:106-117 | exactly the cells of the window's edges change, each to a line or point tile, and the last edge's endpoints hold the point tile |
| LegacyGeneration.AlternatingTileAlternates | Assets/Scripts/MapGeneration.cs:125 | consecutive sites get different ground tiles, repeating with period two |
| LegacyGeneration.FillArea | Assets/Scripts/MapGeneration.cs:147-150 | the stub leaves the grid unchanged |
| LegacyGeneration.SiteIteration | Assets/Scripts/MapGeneration.cs:119-126 | site i's cell `((int)(x - 1.5), (int)(y - 1.5))` gets the point tile and nothing else changes |
| LegacyGeneration.MarkSites | Assets/Scripts/MapGeneration.cs:119-126 | exactly the cells of the window's sites change, all to the point tile |
| LegacyGeneration.FillTilesDone | Assets/Scripts/MapGeneration.cs:94-126 | the three stages compose: written cells are frame, edge or site cells, site cells end as point tiles, and a frame cell no edge or site touches keeps the line tile |
| LegacyGeneration.FillTilesOnGround | Assets/Scripts/MapGeneration.cs:83-127 | frame, edges, then sites: only frame, window-edge and window-site cells change; a frame cell that no window edge or site touches holds the line tile; every window site ends on a point tile; the last edge keeps point-tile endpoints; no ground tile is ever written |
| LegacyGeneration.GenerateGround | Assets/Scripts/MapGeneration.cs:46-51 | after clearing, the grid holds exactly the written cells, all frame cells included, and only line and point tiles: nothing of the previous grid survives |

## Left out

- Unity lifecycle and input (`Start`, `Update`, `HandleDevButtons`, `Debug.Log`, `Debug.Break`): engine plumbing with no tile logic.
- `OnDrawGizmos` in both files: debug drawing only.
- `MakeVoronoiGraph` and the Voronoi2 library: an external library. Edges are a parameter, or a function of the sites in `LegacyGeneration.GenerateGround`.
- `ObjectsDistribution`: Perlin noise is an external float function, and the tree instantiation is commented out.
- The new `GenerateGround`: every call except `ObjectsDistribution` is commented out, so it runs none of the modelled code.
- `_FillTestTiles`: the same edge loop as the legacy one, over all edges. `Edges.DrawEdge` covers one iteration.
- UnityEngine.Random internals and seeding: draws are given as functions from draw index to value.
- SiteLattice.SpreadPoints: float rounding of the accumulated `x += areaLen` and `y += areaLen` is not modelled. Coordinates are exact reals, so the loop counts hold for exact arithmetic only.
- SiteLattice.SpreadPoints: `Mathf.Sqrt` is not modelled. `areaLen` is a given positive real (with `areaLen * areaLen * siteCount == mapSize * mapSize` where that matters).
- SiteLattice.SpreadPoints: the `(float)` casts of the site coordinates are identities on reals.
- LegacyGeneration.SpreadPoints: the `(float)` casts and the `Random.Range` call before `InitState` are not modelled. That call consumes a draw of the unseeded stream.
- FloodFill.FillArea: it asks for a finite `region` that encloses the centroid's empty component, because the Tilemap is unbounded and the fill terminates only on a finite component.
- RadiusFill.FillTilesInRadius: it asks for the same enclosing region, containing every outer-circle site's cell.
- LegacyGeneration.FillTilesOnGround: it requires `cutValue >= 0`, the lower end of its inspector range [0, 0.7]. A negative cut reads an out-of-range edge index only when `ge.Count * cutValue <= -1` (`NegativeCutStartIff` with `EdgeWindowInBoundsIff`). Above that, both starts truncate to 0 and the lists are read whole (`SmallNegativeCutKeepsAll`). The negative-cut run and the exception it can raise are not modelled.
- Vector3Int's z coordinate: it is always 0, so cells are pairs.
