/** TileLine: integer stepping from p1 toward p2, diagonal while both
    coordinates differ and straight afterwards, painting every visited cell
    except the destination. Both generators share the same routine. */
module Lines {
  import opened Grids

  /** `a` moved `k` unit steps toward `b`, stopping once it reaches `b`. */
  function Toward(a: int, b: int, k: nat): int
  {
    if a < b then Min(a + k, b) else Max(a - k, b)
  }

  /** The Chebyshev (king-move) distance between two cells. */
  function Chebyshev(a: Cell, b: Cell): nat
  {
    if Abs(a.x - b.x) < Abs(a.y - b.y) then Abs(a.y - b.y) else Abs(a.x - b.x)
  }

  /** The cell the line from p1 to p2 occupies after `k` steps. */
  function LineCellAt(p1: Cell, p2: Cell, k: nat): Cell
  {
    Cell(Toward(p1.x, p2.x, k), Toward(p1.y, p2.y, k))
  }

  /** One iteration of the source's stepping on one coordinate. */
  function StepToward(a: int, b: int): int
  {
    if a < b then a + 1 else if a > b then a - 1 else a
  }

  predicate InBox(p1: Cell, p2: Cell, c: Cell)
  {
    Min(p1.x, p2.x) <= c.x <= Max(p1.x, p2.x) && Min(p1.y, p2.y) <= c.y <= Max(p1.y, p2.y)
  }

  /** Distinct cells that touch by a side or a corner. */
  predicate KingAdjacent(a: Cell, b: Cell)
  {
    a != b && Abs(a.x - b.x) <= 1 && Abs(a.y - b.y) <= 1
  }

  /** The cells TileLine paints, in painting order: every step before the destination. */
  predicate OnLine(p1: Cell, p2: Cell, c: Cell)
  {
    exists k :: 0 <= k < Chebyshev(p1, p2) && c == LineCellAt(p1, p2, k)
  }

  lemma TowardStep(a: int, b: int, k: nat)
    ensures Toward(a, b, k + 1) == StepToward(Toward(a, b, k), b)
  {
  }

  /** A coordinate reaches its target exactly after |a - b| steps. */
  lemma TowardReaches(a: int, b: int, k: nat)
    ensures Toward(a, b, k) == b <==> k >= Abs(a - b)
    ensures Abs(Toward(a, b, k) - b) == Max(Abs(a - b) - k, 0)
  {
  }

  /** The line is at its destination exactly from step Chebyshev(p1, p2) on, and
      the remaining Chebyshev distance shrinks by one per step. */
  lemma LineCellReaches(p1: Cell, p2: Cell, k: nat)
    ensures LineCellAt(p1, p2, k) == p2 <==> k >= Chebyshev(p1, p2)
    ensures k <= Chebyshev(p1, p2) ==> Chebyshev(LineCellAt(p1, p2, k), p2) == Chebyshev(p1, p2) - k
  {
    TowardReaches(p1.x, p2.x, k);
    TowardReaches(p1.y, p2.y, k);
  }

  /** The loop state of TileLine: `painted` holds the first |painted| line
      cells, `p` is the next one, and the grid is `g0` with exactly those
      cells overwritten. */
  ghost predicate LineState(g0: Grid, p1: Cell, p2: Cell, tile: Tile, g: Grid, painted: seq<Cell>, p: Cell)
  {
    && |painted| <= Chebyshev(p1, p2)
    && p == LineCellAt(p1, p2, |painted|)
    && Chebyshev(p, p2) == Chebyshev(p1, p2) - |painted|
    && (forall k :: 0 <= k < |painted| ==> painted[k] == LineCellAt(p1, p2, k))
    && (forall c :: c in g <==> c in g0 || c in painted)
    && (forall c :: c in painted ==> g[c] == tile)
    && (forall c :: c in g0 && c !in painted ==> g[c] == g0[c])
  }

  /** One iteration of the `while (p != p2)` loop: paint `p`, then step both
      coordinates toward the destination. */
  method LineStep(ghost g0: Grid, p1: Cell, p2: Cell, tile: Tile, g: Grid, painted: seq<Cell>, p: Cell)
    returns (g': Grid, painted': seq<Cell>, p': Cell)
    requires LineState(g0, p1, p2, tile, g, painted, p) && p != p2
    ensures LineState(g0, p1, p2, tile, g', painted', p')
    ensures painted' == painted + [p]
    ensures Chebyshev(p', p2) < Chebyshev(p, p2)
  {
    LineCellReaches(p1, p2, |painted|);
    g' := g[p := tile];
    painted' := painted + [p];
    TowardStep(p1.x, p2.x, |painted|);
    TowardStep(p1.y, p2.y, |painted|);
    p' := Cell(StepToward(p.x, p2.x), StepToward(p.y, p2.y));
    LineCellReaches(p1, p2, |painted'|);
  }

  /** Paints the line from p1 toward p2 with `tile` and reports the painted
      cells in order. */
  method TileLine(g0: Grid, p1: Cell, p2: Cell, tile: Tile) returns (g: Grid, painted: seq<Cell>)
    ensures |painted| == Chebyshev(p1, p2)
    ensures forall k :: 0 <= k < |painted| ==> painted[k] == LineCellAt(p1, p2, k)
    ensures p1 != p2 ==> painted[0] == p1
    ensures p1 == p2 ==> painted == [] && g == g0
    ensures p2 !in painted
    ensures forall k :: 0 <= k < |painted| ==> InBox(p1, p2, painted[k])
    ensures forall k :: 0 <= k < |painted| - 1 ==> KingAdjacent(painted[k], painted[k + 1])
    ensures forall c :: c in g <==> c in g0 || c in painted
    ensures forall c :: c in painted ==> g[c] == tile
    ensures forall c :: c in g0 && c !in painted ==> g[c] == g0[c]
  {
    g := g0;
    painted := [];
    var p := p1;
    LineCellReaches(p1, p2, 0);
    while p != p2
      invariant LineState(g0, p1, p2, tile, g, painted, p)
      decreases Chebyshev(p, p2)
    {
      g, painted, p := LineStep(g0, p1, p2, tile, g, painted, p);
    }
    LineDone(g0, p1, p2, tile, g, painted, p);
  }

  /** When the loop reaches the destination, `painted` is the whole line. */
  lemma LineDone(g0: Grid, p1: Cell, p2: Cell, tile: Tile, g: Grid, painted: seq<Cell>, p: Cell)
    requires LineState(g0, p1, p2, tile, g, painted, p) && p == p2
    ensures |painted| == Chebyshev(p1, p2)
    ensures p2 !in painted
    ensures forall k :: 0 <= k < |painted| ==> InBox(p1, p2, painted[k])
    ensures forall k :: 0 <= k < |painted| - 1 ==> KingAdjacent(painted[k], painted[k + 1])
  {
    LineCellReaches(p1, p2, |painted|);
    LinePropertiesHold(p1, p2);
  }

  /** Every line cell lies in the bounding box, never equals the destination,
      and consecutive cells are king-adjacent. */
  lemma LinePropertiesHold(p1: Cell, p2: Cell)
    ensures forall k: nat :: k < Chebyshev(p1, p2) ==> LineCellAt(p1, p2, k) != p2
    ensures forall k: nat :: InBox(p1, p2, LineCellAt(p1, p2, k))
    ensures forall k: nat :: k + 1 < Chebyshev(p1, p2) ==>
              KingAdjacent(LineCellAt(p1, p2, k), LineCellAt(p1, p2, k + 1))
  {
    forall k: nat | k < Chebyshev(p1, p2)
      ensures LineCellAt(p1, p2, k) != p2
    {
      LineCellReaches(p1, p2, k);
    }
    forall k: nat | k + 1 < Chebyshev(p1, p2)
      ensures KingAdjacent(LineCellAt(p1, p2, k), LineCellAt(p1, p2, k + 1))
    {
      LineCellReaches(p1, p2, k);
      TowardStep(p1.x, p2.x, k);
      TowardStep(p1.y, p2.y, k);
    }
  }
}
