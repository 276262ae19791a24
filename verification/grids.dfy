/** Cells, tiles and the tile grid shared by both map generators, plus the
    numeric conversions the generators perform on coordinates. */
module Grids {

  /** An integer tile position (the z coordinate of Unity's Vector3Int is always 0). */
  datatype Cell = Cell(x: int, y: int)

  /** The tile assets a generator writes. */
  datatype Tile = PointTile | LineTile | GroundTile | GroundTile2

  /** The tile map: a cell holds a tile exactly when it is a key.
      HasTile(c) is `c in g`, SetTile(c, t) is `g[c := t]`, ClearAllTiles is `map[]`. */
  type Grid = map<Cell, Tile>

  /** A continuous 2D point (Unity's Vector2), with exact real coordinates. */
  datatype Vec2 = Vec2(x: real, y: real)

  /** The four axis directions Vector3Int.right, left, up and down. */
  datatype Dir = Right | Left | Up | Down

  function Step(c: Cell, d: Dir): Cell
  {
    match d
    case Right => Cell(c.x + 1, c.y)
    case Left => Cell(c.x - 1, c.y)
    case Up => Cell(c.x, c.y + 1)
    case Down => Cell(c.x, c.y - 1)
  }

  /** `b` is one of the four axis neighbours of `a`. */
  predicate Adjacent(a: Cell, b: Cell)
  {
    b == Step(a, Right) || b == Step(a, Left) || b == Step(a, Up) || b == Step(a, Down)
  }

  function Abs(n: int): nat
  {
    if n < 0 then -n else n
  }

  function Max(a: int, b: int): int
  {
    if a < b then b else a
  }

  function Min(a: int, b: int): int
  {
    if a < b then a else b
  }

  /** Adjacency is exactly a Manhattan distance of one. */
  lemma AdjacentIsUnitDistance(a: Cell, b: Cell)
    ensures Adjacent(a, b) <==> Abs(a.x - b.x) + Abs(a.y - b.y) == 1
  {
    if Abs(a.x - b.x) + Abs(a.y - b.y) == 1 {
      if a.x == b.x {
        assert b == Step(a, Up) || b == Step(a, Down);
      } else {
        assert b == Step(a, Right) || b == Step(a, Left);
      }
    }
  }

  /** C#'s `(int)` cast of a floating value: truncation toward zero. */
  function Trunc(r: real): (n: int)
    ensures 0.0 <= r ==> 0 <= n && n as real <= r < n as real + 1.0
    ensures r < 0.0 ==> n <= 0 && n as real - 1.0 < r <= n as real
  {
    if 0.0 <= r then r.Floor else -((-r).Floor)
  }

  /** Truncation is symmetric about zero, which flooring is not. */
  lemma TruncIsOdd(r: real)
    ensures Trunc(-r) == -Trunc(r)
  {
    if r != 0.0 && 0.0 <= r {
      assert Trunc(-r) == -(r.Floor);
    }
  }

  /** The cast differs from flooring on negative non-integral values. */
  lemma TruncIsNotFloor()
    ensures Trunc(-1.5) == -1 && (-1.5).Floor == -2
  {
  }

  lemma MulPositive(a: real, b: real)
    requires 0.0 < a && 0.0 < b
    ensures 0.0 < a * b
  {
  }

  lemma MulNonNegative(a: real, b: real)
    requires 0.0 <= a && 0.0 <= b
    ensures 0.0 <= a * b
  {
  }

  function SqDist(a: Vec2, b: Vec2): real
  {
    (a.x - b.x) * (a.x - b.x) + (a.y - b.y) * (a.y - b.y)
  }

  function Norm2(v: Vec2): real
  {
    v.x * v.x + v.y * v.y
  }

  lemma SquareNonNegative(d: real)
    ensures 0.0 <= d * d
  {
    if d < 0.0 {
      MulPositive(-d, -d);
    }
  }

  /** A coordinate difference whose square is at most r * r is at most r
      in size, strictly so when the square is strictly below. */
  lemma SquareBounds(d: real, r: real)
    requires 0.0 <= r && d * d <= r * r
    ensures -r <= d <= r
    ensures d * d < r * r ==> -r < d < r
  {
    if r < d {
      MulPositive(d - r, d + r);
      assert false;
    }
    if d < -r {
      MulPositive(-d - r, -d + r);
      assert false;
    }
    if d == -r {
      assert d * d == r * r;
    }
  }

  /** A point within squared distance r * r of `a` lies in the square of
      half-side r around `a`; strictly inside when the distance is strictly below. */
  lemma DiscInBox(a: Vec2, b: Vec2, r: real)
    requires 0.0 <= r && SqDist(a, b) <= r * r
    ensures a.x - r <= b.x <= a.x + r && a.y - r <= b.y <= a.y + r
    ensures SqDist(a, b) < r * r ==> a.x - r < b.x < a.x + r && a.y - r < b.y < a.y + r
  {
    var dx, dy := b.x - a.x, b.y - a.y;
    assert SqDist(a, b) == dx * dx + dy * dy;
    SquareNonNegative(dx);
    SquareNonNegative(dy);
    SquareBounds(dx, r);
    SquareBounds(dy, r);
  }

  /** The cell `((int)p.x, (int)p.y)`. */
  function CellOf(p: Vec2): Cell
  {
    Cell(Trunc(p.x), Trunc(p.y))
  }
}
