/** Drawing one Voronoi edge on the grid, as both generators do: the line
    between the truncated endpoints in the line tile, then both endpoints in
    the point tile. */
module Edges {
  import opened Grids
  import opened Lines

  /** A GraphEdge of the Voronoi library: its two end points. */
  datatype Edge = Edge(x1: real, y1: real, x2: real, y2: real)

  /** The cell `((int)x1, (int)y1)`. */
  function EdgeStart(e: Edge): Cell
  {
    CellOf(Vec2(e.x1, e.y1))
  }

  /** The cell `((int)x2, (int)y2)`. */
  function EdgeEnd(e: Edge): Cell
  {
    CellOf(Vec2(e.x2, e.y2))
  }

  /** The cells drawing `e` writes. */
  predicate EdgeCell(e: Edge, c: Cell)
  {
    OnLine(EdgeStart(e), EdgeEnd(e), c) || c == EdgeStart(e) || c == EdgeEnd(e)
  }

  /** TileLine between the endpoints with the line tile, then SetTile of the
      point tile on the start and on the end, in that order. */
  method DrawEdge(g: Grid, e: Edge) returns (g': Grid)
    ensures EdgeStart(e) in g' && g'[EdgeStart(e)] == PointTile
    ensures EdgeEnd(e) in g' && g'[EdgeEnd(e)] == PointTile
    ensures forall c :: c in g' <==> c in g || EdgeCell(e, c)
    ensures forall c :: EdgeCell(e, c) && c != EdgeStart(e) && c != EdgeEnd(e) ==> g'[c] == LineTile
    ensures forall c :: c in g && !EdgeCell(e, c) ==> g'[c] == g[c]
  {
    var p1 := EdgeStart(e);
    var p2 := EdgeEnd(e);
    var lined, painted := TileLine(g, p1, p2, LineTile);
    OnLineIsPainted(p1, p2, painted);
    g' := lined[p1 := PointTile][p2 := PointTile];
  }

  /** The cells TileLine reports are exactly the cells on the line. */
  lemma OnLineIsPainted(p1: Cell, p2: Cell, painted: seq<Cell>)
    requires |painted| == Chebyshev(p1, p2)
    requires forall k :: 0 <= k < |painted| ==> painted[k] == LineCellAt(p1, p2, k)
    ensures forall c :: c in painted <==> OnLine(p1, p2, c)
  {
    forall c | OnLine(p1, p2, c)
      ensures c in painted
    {
      var k :| 0 <= k < Chebyshev(p1, p2) && c == LineCellAt(p1, p2, k);
      assert painted[k] == c;
    }
  }
}
