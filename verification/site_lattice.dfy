/** SpreadPoints of the new generator: one Voronoi site per lattice square.

    The map is cut into squares of side `areaLen` (the square root of
    mapSize² / siteCount, taken as given). Rows and columns start at 0 and
    advance by areaLen while the coordinate is below mapSize - areaLen, so both
    loops run StepCount(mapSize - areaLen, areaLen) times. Square (row, col) has
    its centre half a side in along x and, on y, a full side up in even columns
    and half a side up in odd ones (`slideY` starts false in every row and
    flips after every square). The site is the centre plus a random point of
    the unit disc scaled by areaLen * minSizeBetweenPoints; the k-th site
    uses the k-th draw `unitDraw(k)` of Random.insideUnitCircle. */
module SiteLattice {
  import opened Grids

  /** The smallest integer at or above `r`. */
  function Ceil(r: real): (n: int)
    ensures r <= n as real < r + 1.0
  {
    -((-r).Floor)
  }

  /** How many of the values 0, len, 2 len, ... lie below `limit`. */
  function StepCount(limit: real, len: real): nat
    requires 0.0 < len
  {
    if limit <= 0.0 then 0 else Ceil(limit / len)
  }

  /** The k-th lattice coordinate is below the limit exactly when k is below
      StepCount: the loops `for (v = 0; v < limit; v += len)` run StepCount times. */
  lemma StepCountSpec(limit: real, len: real, k: nat)
    requires 0.0 < len
    ensures k as real * len < limit <==> k < StepCount(limit, len)
  {
    if 0.0 < limit {
      CeilBound(limit / len, k);
      BelowQuotient(k as real, limit, len);
    } else {
      MulNonNegative(k as real, len);
    }
  }

  /** An integer is below the ceiling of `q` exactly when it is below `q`. */
  lemma CeilBound(q: real, k: int)
    ensures k < Ceil(q) <==> k as real < q
  {
    var c := Ceil(q);
    if k < c {
      assert k as real <= c as real - 1.0;
    }
  }

  /** A multiple of `len` is below `limit` exactly when the factor is below
      the quotient. */
  lemma BelowQuotient(a: real, limit: real, len: real)
    requires 0.0 < len
    ensures a * len < limit <==> a < limit / len
  {
    var q := limit / len;
    assert q * len == limit;
    ScaleKeepsOrder(a, q, len);
  }

  /** Multiplying by a positive factor keeps the strict order. */
  lemma ScaleKeepsOrder(a: real, b: real, len: real)
    requires 0.0 < len
    ensures a < b <==> a * len < b * len
  {
    assert (b - a) * len == b * len - a * len;
    if a < b {
      MulPositive(b - a, len);
    } else {
      MulNonNegative(a - b, len);
      assert (a - b) * len == a * len - b * len;
    }
  }

  /** When the side divides the map exactly, n squares per side, the loops
      stop one square early: they visit n - 1 rows and n - 1 columns. */
  lemma ExactLatticeLosesARow(mapSize: int, len: real, n: nat)
    requires 0.0 < len && 1 <= n && mapSize as real == n as real * len
    ensures StepCount(mapSize as real - len, len) == n - 1
  {
    var limit := mapSize as real - len;
    assert limit == (n - 1) as real * len;
    StepCountSpec(limit, len, n - 1);
    if 2 <= n {
      StepCountSpec(limit, len, n - 2);
      MulPositive(1.0, len);
    }
  }

  /** With the default inspector values (mapSize 512, siteCount 200) the side
      is about 36.2 and the lattice holds 14 x 14 = 196 sites, not 200. */
  lemma DefaultLatticeHas196Sites(len: real)
    requires 0.0 < len && len * len * 200.0 == 512.0 * 512.0
    ensures StepCount(512.0 - len, len) == 14
  {
    var limit := 512.0 - len;
    assert 34.2 < len < 36.5;
    StepCountSpec(limit, len, 13);
    StepCountSpec(limit, len, 14);
  }

  function RowOf(n: nat, k: nat): nat
  {
    if n == 0 then 0 else k / n
  }

  function ColOf(n: nat, k: nat): nat
  {
    if n == 0 then 0 else k % n
  }

  lemma MulAtLeast(d: int, n: int)
    ensures 1 <= d && 0 <= n ==> n <= d * n
  {
    if 1 <= d && 0 <= n {
      assert d * n == (d - 1) * n + n;
    }
  }

  lemma MulSub(a: int, b: int, n: int)
    ensures (a - b) * n == a * n - b * n
  {
  }

  /** Index row * n + col is row `row`, column `col` of an n-wide lattice. */
  lemma RowColOf(n: nat, row: nat, col: nat)
    requires col < n
    ensures RowOf(n, row * n + col) == row && ColOf(n, row * n + col) == col
  {
    var k := row * n + col;
    var q, r := k / n, k % n;
    assert k == q * n + r && 0 <= r < n;
    MulSub(row, q, n);
    MulSub(q, row, n);
    MulAtLeast(row - q, n);
    MulAtLeast(q - row, n);
  }

  /** The k-th lattice coordinate 0, len, 2 len, ... as the loops reach it,
      by k additions of len. */
  function Offset(k: nat, len: real): real
  {
    if k == 0 then 0.0 else Offset(k - 1, len) + len
  }

  /** k additions of len make k * len. */
  lemma {:induction false} OffsetIsProduct(k: nat, len: real)
    ensures Offset(k, len) == k as real * len
  {
    if k > 0 {
      OffsetIsProduct(k - 1, len);
      assert k as real * len == (k - 1) as real * len + len;
    }
  }

  /** The loop `for (v = 0; v < limit; v += len)` is still running at its
      k-th step exactly when k is below StepCount. */
  lemma BelowLimit(limit: real, len: real, k: nat)
    requires 0.0 < len
    ensures Offset(k, len) < limit <==> k < StepCount(limit, len)
  {
    OffsetIsProduct(k, len);
    StepCountSpec(limit, len, k);
  }

  /** The centre of square (row, col). */
  function Centre(len: real, row: nat, col: nat): Vec2
  {
    Vec2(Offset(col, len) + len / 2.0, Offset(row, len) + (if col % 2 == 1 then len / 2.0 else len))
  }

  /** The k-th site of an n-wide lattice. */
  function SiteAt(len: real, minSizeBetweenPoints: real, n: nat, k: nat, unitDraw: nat -> Vec2): Vec2
  {
    Square(len, minSizeBetweenPoints, RowOf(n, k), ColOf(n, k), unitDraw(k))
  }

  /** Scaling a vector scales its squared length by the square of the factor. */
  lemma Norm2Scale(u: Vec2, r: real)
    ensures Norm2(Vec2(u.x * r, u.y * r)) == (r * r) * Norm2(u)
  {
    assert (u.x * r) * (u.x * r) == (r * r) * (u.x * u.x);
    assert (u.y * r) * (u.y * r) == (r * r) * (u.y * u.y);
  }

  /** A site lies in the disc of radius areaLen * minSizeBetweenPoints around
      its square's centre whenever its draw lies in the unit disc. */
  lemma SiteNearCentre(len: real, minSizeBetweenPoints: real, n: nat, k: nat, unitDraw: nat -> Vec2)
    requires Norm2(unitDraw(k)) <= 1.0
    ensures var r := len * minSizeBetweenPoints;
            SqDist(SiteAt(len, minSizeBetweenPoints, n, k, unitDraw), Centre(len, RowOf(n, k), ColOf(n, k))) <= r * r
  {
    var r := len * minSizeBetweenPoints;
    var u := unitDraw(k);
    var site := SiteAt(len, minSizeBetweenPoints, n, k, unitDraw);
    var c := Centre(len, RowOf(n, k), ColOf(n, k));
    var d := Vec2(u.x * r, u.y * r);
    assert site.x - c.x == d.x && site.y - c.y == d.y;
    assert SqDist(site, c) == Norm2(d);
    Norm2Scale(u, r);
    MulNonNegative(r * r, 1.0 - Norm2(u));
    assert (r * r) * (1.0 - Norm2(u)) == r * r - (r * r) * Norm2(u);
  }

  /** Every square centre the loops visit (both accumulated coordinates pass
      the loop guard) lies in the map: half a side from the left and bottom
      edges, and below the right and top edges. */
  lemma CentreInMap(mapSize: int, len: real, row: nat, col: nat)
    requires 0.0 < len
    requires Offset(row, len) < mapSize as real - len && Offset(col, len) < mapSize as real - len
    ensures var c := Centre(len, row, col);
            && len / 2.0 <= c.x < mapSize as real - len / 2.0
            && len / 2.0 <= c.y < mapSize as real
  {
    OffsetIsProduct(row, len);
    OffsetIsProduct(col, len);
    MulNonNegative(row as real, len);
    MulNonNegative(col as real, len);
  }

  /** The site of square (row, col) for a given unit-disc draw. */
  function Square(len: real, minSizeBetweenPoints: real, row: nat, col: nat, draw: Vec2): Vec2
  {
    var c := Centre(len, row, col);
    var radius := len * minSizeBetweenPoints;
    Vec2(draw.x * radius + c.x, draw.y * radius + c.y)
  }

  /** The bound the loops do give: a visited square's site lies within
      r = areaLen * minSizeBetweenPoints of its centre, so it can stick out of
      the map by up to r - areaLen / 2 on the left and bottom and by up to r
      on the right and top. Only for r <= areaLen / 2 does it stay clear of
      the left and bottom edges. */
  lemma SiteInMapMargin(mapSize: int, len: real, minSizeBetweenPoints: real, n: nat, k: nat, unitDraw: nat -> Vec2)
    requires 0.0 < len && 0.0 <= minSizeBetweenPoints && Norm2(unitDraw(k)) <= 1.0
    requires Offset(RowOf(n, k), len) < mapSize as real - len && Offset(ColOf(n, k), len) < mapSize as real - len
    ensures var site, r := SiteAt(len, minSizeBetweenPoints, n, k, unitDraw), len * minSizeBetweenPoints;
            && len / 2.0 - r <= site.x < mapSize as real - len / 2.0 + r
            && len / 2.0 - r <= site.y < mapSize as real + r
  {
    var r := len * minSizeBetweenPoints;
    MulNonNegative(len, minSizeBetweenPoints);
    CentreInMap(mapSize, len, RowOf(n, k), ColOf(n, k));
    SiteNearCentre(len, minSizeBetweenPoints, n, k, unitDraw);
    DiscInBox(Centre(len, RowOf(n, k), ColOf(n, k)), SiteAt(len, minSizeBetweenPoints, n, k, unitDraw), r);
  }

  /** Sites can leave the map on the left: with the default
      minSizeBetweenPoints 0.7, the first site drawn at (-1, 0) lies at
      x = -0.2 * areaLen. */
  lemma LeftSiteLeavesMap(len: real, n: nat, unitDraw: nat -> Vec2)
    requires 0.0 < len && unitDraw(0) == Vec2(-1.0, 0.0)
    ensures SiteAt(len, 0.7, n, 0, unitDraw).x < 0.0
  {
  }

  /** Sites can leave the map at the top: with the defaults (mapSize 512,
      siteCount 200, minSizeBetweenPoints 0.7) the loops visit 14 rows, and
      the site of square (13, 0) drawn at (0, 1) lies at y = 14.7 * areaLen,
      above 512. */
  lemma TopSiteLeavesMap(len: real, unitDraw: nat -> Vec2)
    requires 0.0 < len && len * len * 200.0 == 512.0 * 512.0
    requires unitDraw(13 * 14) == Vec2(0.0, 1.0)
    ensures StepCount(512.0 - len, len) == 14
    ensures SiteAt(len, 0.7, 14, 13 * 14, unitDraw).y > 512.0
  {
    DefaultLatticeHas196Sites(len);
    assert 34.9 < len by {
      SquareBounds(34.9, len);
    }
    OffsetIsProduct(13, len);
    RowColOf(14, 13, 0);
  }

  /** The first `count` sites of row `row`, whose draws start at index `base`. */
  function RowSites(len: real, minSizeBetweenPoints: real, row: nat, count: nat, base: nat, unitDraw: nat -> Vec2): (r: seq<Vec2>)
    ensures |r| == count
  {
    if count == 0 then []
    else RowSites(len, minSizeBetweenPoints, row, count - 1, base, unitDraw)
         + [Square(len, minSizeBetweenPoints, row, count - 1, unitDraw(base + count - 1))]
  }

  /** The first `rows` full rows of an n-wide lattice, rows in order. */
  function Rows(len: real, minSizeBetweenPoints: real, n: nat, rows: nat, unitDraw: nat -> Vec2): (r: seq<Vec2>)
    ensures |r| == rows * n
  {
    if rows == 0 then []
    else
      var before := Rows(len, minSizeBetweenPoints, n, rows - 1, unitDraw);
      assert rows * n == (rows - 1) * n + n;
      before + RowSites(len, minSizeBetweenPoints, rows - 1, n, |before|, unitDraw)
  }

  /** Site `col` of a row is the site of that square with draw base + col. */
  lemma {:induction false} RowSitesAt(len: real, minSizeBetweenPoints: real, row: nat, count: nat, base: nat,
                                      unitDraw: nat -> Vec2, col: nat)
    requires col < count
    ensures RowSites(len, minSizeBetweenPoints, row, count, base, unitDraw)[col]
            == Square(len, minSizeBetweenPoints, row, col, unitDraw(base + col))
    decreases count
  {
    if col < count - 1 {
      RowSitesAt(len, minSizeBetweenPoints, row, count - 1, base, unitDraw, col);
    }
  }

  /** The lattice the loops build agrees with the closed form SiteAt: entry
      k is square (k / n, k % n) with the k-th draw. */
  lemma {:induction false} RowsAt(len: real, minSizeBetweenPoints: real, n: nat, rows: nat, unitDraw: nat -> Vec2, k: nat)
    requires k < rows * n
    ensures Rows(len, minSizeBetweenPoints, n, rows, unitDraw)[k] == SiteAt(len, minSizeBetweenPoints, n, k, unitDraw)
    decreases rows
  {
    var before := Rows(len, minSizeBetweenPoints, n, rows - 1, unitDraw);
    assert |before| == (rows - 1) * n;
    if k < |before| {
      RowsAt(len, minSizeBetweenPoints, n, rows - 1, unitDraw, k);
    } else {
      var col := k - |before|;
      assert rows * n == (rows - 1) * n + n;
      RowSitesAt(len, minSizeBetweenPoints, rows - 1, n, |before|, unitDraw, col);
      RowColOf(n, rows - 1, col);
    }
  }

  /** The state of the inner loop of row `row` after `col` of the n squares:
      `x` is the column's coordinate, `slideY` tells whether the column is odd,
      and the row's first `col` sites follow the sites of earlier rows. */
  ghost predicate RowState(len: real, minSizeBetweenPoints: real, unitDraw: nat -> Vec2, n: nat,
                           row: nat, col: nat, x: real, slideY: bool, before: seq<Vec2>, sites: seq<Vec2>)
  {
    && x == Offset(col, len) && col <= n
    && slideY == (col % 2 == 1)
    && sites == before + RowSites(len, minSizeBetweenPoints, row, col, |before|, unitDraw)
  }

  /** The loop's arithmetic for one square computes Square. */
  lemma SquareFromLoop(len: real, minSizeBetweenPoints: real, row: nat, col: nat, x: real, y: real, slideY: bool, draw: Vec2)
    requires x == Offset(col, len) && y == Offset(row, len) && slideY == (col % 2 == 1)
    ensures Square(len, minSizeBetweenPoints, row, col, draw)
            == Vec2(draw.x * (len * minSizeBetweenPoints) + (x + len / 2.0),
                    draw.y * (len * minSizeBetweenPoints) + (y + (if slideY then len / 2.0 else len)))
  {
    var c := Centre(len, row, col);
    assert c == Vec2(x + len / 2.0, y + (if slideY then len / 2.0 else len));
  }

  /** Appending the next square's site to a partial row extends the row. */
  lemma AppendToRow(len: real, minSizeBetweenPoints: real, row: nat, col: nat,
                    before: seq<Vec2>, sites: seq<Vec2>, unitDraw: nat -> Vec2)
    requires sites == before + RowSites(len, minSizeBetweenPoints, row, col, |before|, unitDraw)
    ensures sites + [Square(len, minSizeBetweenPoints, row, col, unitDraw(|sites|))]
            == before + RowSites(len, minSizeBetweenPoints, row, col + 1, |before|, unitDraw)
  {
    assert |sites| == |before| + col;
  }

  lemma ParityFlips(col: nat)
    ensures ((col + 1) % 2 == 1) == !(col % 2 == 1)
  {
  }

  /** The loop body's arithmetic: the random point in the circle inside
      square (row, col), whose corner is (x, y). */
  method PlaceSite(areaLen: real, minSizeBetweenPoints: real, draw: Vec2,
                   ghost row: nat, ghost col: nat, x: real, y: real, slideY: bool)
    returns (site: Vec2)
    requires x == Offset(col, areaLen) && y == Offset(row, areaLen) && slideY == (col % 2 == 1)
    ensures site == Square(areaLen, minSizeBetweenPoints, row, col, draw)
  {
    var squareCenterX := x + areaLen / 2.0;
    var squareCenterY := y + (if slideY then areaLen / 2.0 else areaLen);
    var radius := areaLen * minSizeBetweenPoints;
    var point := Vec2(draw.x * radius, draw.y * radius);
    site := Vec2(point.x + squareCenterX, point.y + squareCenterY);
    SquareFromLoop(areaLen, minSizeBetweenPoints, row, col, x, y, slideY, draw);
  }

  /** One square of the inner loop: appends the site of square (row, col). */
  method SpreadSquare(areaLen: real, minSizeBetweenPoints: real, unitDraw: nat -> Vec2, ghost n: nat,
                      ghost row: nat, y: real, ghost col: nat, x: real, slideY: bool,
                      ghost before: seq<Vec2>, sites: seq<Vec2>)
    returns (x': real, slideY': bool, sites': seq<Vec2>)
    requires y == Offset(row, areaLen) && col < n
    requires RowState(areaLen, minSizeBetweenPoints, unitDraw, n, row, col, x, slideY, before, sites)
    ensures RowState(areaLen, minSizeBetweenPoints, unitDraw, n, row, col + 1, x', slideY', before, sites')
  {
    var site := PlaceSite(areaLen, minSizeBetweenPoints, unitDraw(|sites|), row, col, x, y, slideY);
    slideY' := !slideY;
    ParityFlips(col);
    sites' := sites + [site];
    AppendToRow(areaLen, minSizeBetweenPoints, row, col, before, sites, unitDraw);
    x' := x + areaLen;
  }

  /** The inner `for (x ...)` loop of row `row` at height y = row * areaLen. */
  method SpreadRow(mapSize: int, areaLen: real, minSizeBetweenPoints: real, unitDraw: nat -> Vec2, ghost n: nat,
                   ghost row: nat, y: real, sites: seq<Vec2>)
    returns (sites': seq<Vec2>)
    requires 0.0 < areaLen && n == StepCount(mapSize as real - areaLen, areaLen)
    requires y == Offset(row, areaLen)
    ensures sites' == sites + RowSites(areaLen, minSizeBetweenPoints, row, n, |sites|, unitDraw)
  {
    var limit := mapSize as real - areaLen;
    sites' := sites;
    var x := 0.0;
    var slideY := false;
    ghost var col: nat := 0;
    while x < limit
      invariant RowState(areaLen, minSizeBetweenPoints, unitDraw, n, row, col, x, slideY, sites, sites')
      decreases n - col
    {
      BelowLimit(limit, areaLen, col);
      x, slideY, sites' := SpreadSquare(areaLen, minSizeBetweenPoints, unitDraw, n, row, y, col, x, slideY, sites, sites');
      col := col + 1;
    }
    BelowLimit(limit, areaLen, col);
  }

  /** SpreadPoints without the Voronoi call: the sites in the order the loops
      add them, rows outermost, n x n of them for n = StepCount. */
  method SpreadPoints(mapSize: int, areaLen: real, minSizeBetweenPoints: real, unitDraw: nat -> Vec2)
    returns (sites: seq<Vec2>)
    requires 0.0 < areaLen
    ensures |sites| == StepCount(mapSize as real - areaLen, areaLen) * StepCount(mapSize as real - areaLen, areaLen)
    ensures forall k :: 0 <= k < |sites| ==>
              sites[k] == SiteAt(areaLen, minSizeBetweenPoints, StepCount(mapSize as real - areaLen, areaLen), k, unitDraw)
  {
    var limit := mapSize as real - areaLen;
    ghost var n := StepCount(limit, areaLen);
    sites := [];
    var y := 0.0;
    ghost var row: nat := 0;
    while y < limit
      invariant y == Offset(row, areaLen) && row <= n
      invariant sites == Rows(areaLen, minSizeBetweenPoints, n, row, unitDraw)
      decreases n - row
    {
      BelowLimit(limit, areaLen, row);
      sites := SpreadRow(mapSize, areaLen, minSizeBetweenPoints, unitDraw, n, row, y, sites);
      y := y + areaLen;
      row := row + 1;
    }
    BelowLimit(limit, areaLen, row);
    forall k | 0 <= k < |sites|
      ensures sites[k] == SiteAt(areaLen, minSizeBetweenPoints, n, k, unitDraw)
    {
      RowsAt(areaLen, minSizeBetweenPoints, n, row, unitDraw, k);
    }
  }
}
