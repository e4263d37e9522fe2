/** The fixed Shax board: a 7x7 grid of cells of which 24 are intersections of
    three nested squares joined by four spokes, and the adjacency between them. */
module Board {

  datatype Option<+T> = None | Some(value: T)

  /** A grid position (x, y): x is the column, y the row, as in the keys of the
      adjacency table. */
  type Coord = (int, int)

  const BoardSize := 7

  predicate InBoard(c: Coord) {
    0 <= c.0 < BoardSize && 0 <= c.1 < BoardSize
  }

  /** What a cell of `boardState` holds: `None` (not an intersection), -1
      (empty intersection) or a piece ID. */
  datatype Cell = Blocked | Empty | Occupied(id: int)

  /** The board, indexed [y][x] like `boardState`. */
  type Grid = seq<seq<Cell>>

  predicate WellShaped(g: Grid) {
    |g| == BoardSize && forall y | 0 <= y < |g| :: |g[y]| == BoardSize
  }

  /** The cell at c; anything outside the grid reads as blocked. */
  function At(g: Grid, c: Coord): Cell {
    if 0 <= c.1 < |g| && 0 <= c.0 < |g[c.1]| then g[c.1][c.0] else Blocked
  }

  /** The grid with the cell at c replaced by v (`boardState[y][x] = v`). */
  function Put(g: Grid, c: Coord, v: Cell): (r: Grid)
    ensures |r| == |g| && forall y | 0 <= y < |g| :: |r[y]| == |g[y]|
    ensures WellShaped(g) && InBoard(c) ==> forall d :: At(r, d) == if d == c then v else At(g, d)
  {
    if 0 <= c.1 < |g| && 0 <= c.0 < |g[c.1]| then g[c.1 := g[c.1][c.0 := v]] else g
  }

  /** Two well-shaped grids that agree on every cell are equal. */
  lemma GridExt(g: Grid, h: Grid)
    requires WellShaped(g) && WellShaped(h)
    requires forall c :: InBoard(c) ==> At(g, c) == At(h, c)
    ensures g == h
  {
    forall y | 0 <= y < BoardSize
      ensures g[y] == h[y]
    {
      forall x | 0 <= x < BoardSize
        ensures g[y][x] == h[y][x]
      {
        assert At(g, (x, y)) == At(h, (x, y));
      }
    }
  }

  /** The initial `boardState`: blocked cells are `None`, intersections -1. */
  const InitialGrid: Grid := [
    [Empty,   Blocked, Blocked, Empty,   Blocked, Blocked, Empty  ],
    [Blocked, Empty,   Blocked, Empty,   Blocked, Empty,   Blocked],
    [Blocked, Blocked, Empty,   Empty,   Empty,   Blocked, Blocked],
    [Empty,   Empty,   Empty,   Blocked, Empty,   Empty,   Empty  ],
    [Blocked, Blocked, Empty,   Empty,   Empty,   Blocked, Blocked],
    [Blocked, Empty,   Blocked, Empty,   Blocked, Empty,   Blocked],
    [Empty,   Blocked, Blocked, Empty,   Blocked, Blocked, Empty  ]]

  /** The game never changes which cells are blocked. */
  ghost predicate SameLayout(g: Grid) {
    WellShaped(g) &&
    forall c | InBoard(c) :: (At(g, c) == Blocked) == (At(InitialGrid, c) == Blocked)
  }

  /** The adjacency table `adjacentPieces`: the neighbours of each
      intersection, in the order the jare detector visits them. A cell that is
      not a key of the table has no neighbours. */
  function Neighbors(c: Coord): seq<Coord> {
    match c
    // outer square
    case (0, 0) => [(0, 3), (3, 0)]
    case (0, 3) => [(0, 0), (1, 3), (0, 6)]
    case (0, 6) => [(0, 3), (3, 6)]
    case (3, 6) => [(0, 6), (3, 5), (6, 6)]
    case (6, 6) => [(3, 6), (6, 3)]
    case (6, 3) => [(6, 6), (5, 3), (6, 0)]
    case (6, 0) => [(6, 3), (3, 0)]
    case (3, 0) => [(6, 0), (3, 1), (0, 0)]
    // middle square
    case (1, 1) => [(1, 3), (3, 1)]
    case (1, 3) => [(1, 1), (2, 3), (0, 3), (1, 5)]
    case (1, 5) => [(1, 3), (3, 5)]
    case (3, 5) => [(1, 5), (3, 4), (3, 6), (5, 5)]
    case (5, 5) => [(3, 5), (5, 3)]
    case (5, 3) => [(5, 5), (4, 3), (6, 3), (5, 1)]
    case (5, 1) => [(5, 3), (3, 1)]
    case (3, 1) => [(5, 1), (3, 2), (3, 0), (1, 1)]
    // inner square
    case (2, 2) => [(3, 2), (2, 3)]
    case (2, 3) => [(2, 2), (1, 3), (2, 4)]
    case (2, 4) => [(2, 3), (3, 4)]
    case (3, 4) => [(2, 4), (3, 5), (4, 4)]
    case (4, 4) => [(3, 4), (4, 3)]
    case (4, 3) => [(4, 4), (5, 3), (4, 2)]
    case (4, 2) => [(4, 3), (3, 2)]
    case (3, 2) => [(4, 2), (3, 1), (2, 2)]
    case _ => []
  }

  /** The keys of the adjacency table, in the table's order. */
  const Intersections: seq<Coord> := [
    (0, 0), (0, 3), (0, 6), (3, 6), (6, 6), (6, 3), (6, 0), (3, 0),
    (1, 1), (1, 3), (1, 5), (3, 5), (5, 5), (5, 3), (5, 1), (3, 1),
    (2, 2), (2, 3), (2, 4), (3, 4), (4, 4), (4, 3), (4, 2), (3, 2)]

  predicate IsIntersection(c: Coord) {
    Neighbors(c) != []
  }

  /** The adjacency table has exactly 24 keys. */
  lemma TwentyFourIntersections()
    ensures |Intersections| == 24
    ensures forall i, j :: 0 <= i < j < |Intersections| ==> Intersections[i] != Intersections[j]
    ensures forall c :: c in Intersections <==> IsIntersection(c)
  {
    forall c | IsIntersection(c)
      ensures c in Intersections
    {
    }
  }

  /** The keys of the adjacency table are exactly the cells that start out
      empty (-1) in `boardState`. */
  lemma IntersectionsAreInitialEmpties()
    ensures forall c :: IsIntersection(c) <==> InBoard(c) && At(InitialGrid, c) == Empty
  {
    forall c | InBoard(c)
      ensures IsIntersection(c) <==> At(InitialGrid, c) == Empty
    {
      var (x, y) := c;
      if y == 0 {} else if y == 1 {} else if y == 2 {} else if y == 3 {}
      else if y == 4 {} else if y == 5 {} else {}
    }
  }

  /** Every other cell of the initial board is blocked (`None`). */
  lemma InitialCellsBlockedOrEmpty()
    ensures forall c :: InBoard(c) ==> At(InitialGrid, c) == Blocked || At(InitialGrid, c) == Empty
  {
    forall c | InBoard(c)
      ensures At(InitialGrid, c) == Blocked || At(InitialGrid, c) == Empty
    {
      var (x, y) := c;
      if y == 0 {} else if y == 1 {} else if y == 2 {} else if y == 3 {}
      else if y == 4 {} else if y == 5 {} else {}
    }
  }

  /** Every intersection has between two and four neighbours. */
  lemma NeighborCounts()
    ensures forall c :: IsIntersection(c) ==> 2 <= |Neighbors(c)| <= 4
  {
    forall c | IsIntersection(c)
      ensures 2 <= |Neighbors(c)| <= 4
    {
    }
  }

  /** Every neighbour is an intersection on the board other than the cell
      itself. */
  lemma NeighborsAreIntersections()
    ensures forall c, n :: n in Neighbors(c) ==> IsIntersection(n) && InBoard(n) && n != c
  {
    forall c, n | n in Neighbors(c)
      ensures IsIntersection(n) && InBoard(n) && n != c
    {
      var (x, y) := c;
      if y == 0 {} else if y == 1 {} else if y == 2 {} else if y == 3 {}
      else if y == 4 {} else if y == 5 {} else {}
    }
  }

  /** No neighbour is listed twice. */
  lemma NeighborsDistinct()
    ensures forall c, i, j :: 0 <= i < j < |Neighbors(c)| ==> Neighbors(c)[i] != Neighbors(c)[j]
  {
    forall c, i, j | 0 <= i < j < |Neighbors(c)|
      ensures Neighbors(c)[i] != Neighbors(c)[j]
    {
      assert IsIntersection(c);
    }
  }

  /** Adjacency is symmetric. */
  lemma AdjacencySymmetric()
    ensures forall a, b :: b in Neighbors(a) <==> a in Neighbors(b)
  {
    forall a, b | b in Neighbors(a)
      ensures a in Neighbors(b)
    {
      var (x, y) := a;
      if y == 0 {} else if y == 1 {} else if y == 2 {} else if y == 3 {}
      else if y == 4 {} else if y == 5 {} else {}
    }
  }
}
