/** Piece IDs and the read-only board queries of the board manager: locating a
    piece, listing a player's pieces, checking a spot, listing possible moves
    and the pieces that can move. */
module Pieces {
  import opened Board

  // ---------------------------------------------------------------- piece IDs

  /** `(seq << ID_SHIFT) | player` with ID_SHIFT = 2; for an owner below 4 the
      shifted-out bits are zero, so the packing is `seq * 4 + player`. */
  function PackId(sequence: int, player: int): int
    requires 0 <= player < 4
  {
    sequence * 4 + player
  }

  /** `id & 3`. Dafny's `%` with a positive divisor is the floored remainder,
      which is what the mask gives on Python's integers, negative ones too. */
  function Owner(id: int): int {
    id % 4
  }

  /** `id >> 2`, floored like Python's shift. */
  function Sequence(id: int): int {
    id / 4
  }

  /** Unpacking an ID gives back the owner and the sequence number. */
  lemma PackIdRoundTrip(sequence: int, player: int)
    requires 0 <= player < 4
    ensures Owner(PackId(sequence, player)) == player
    ensures Sequence(PackId(sequence, player)) == sequence
  {
  }

  /** Every ID is the packing of its own owner and sequence number. */
  lemma UnpackRoundTrip(id: int)
    ensures PackId(Sequence(id), Owner(id)) == id
  {
  }

  // ------------------------------------------------------------- cell values

  /** Python's `boardState[y][x] == v`: an empty cell stores -1, a blocked one
      (`None`) equals no integer. */
  predicate Holds(c: Cell, v: int) {
    match c
    case Blocked => false
    case Empty => v == -1
    case Occupied(id) => id == v
  }

  /** The cell that `boardState[y][x] = v` leaves behind. */
  function Stored(v: int): (c: Cell)
    ensures c != Blocked && Holds(c, v)
    ensures forall w :: Holds(c, w) ==> w == v
  {
    if v == -1 then Empty else Occupied(v)
  }

  /** Cell c holds a piece of player p (`value != -1 and value & 3 == p`). */
  predicate OwnedBy(g: Grid, c: Coord, p: int) {
    At(g, c).Occupied? && Owner(At(g, c).id) == p
  }

  /** No piece ID appears in two cells. */
  ghost predicate UniqueIds(g: Grid) {
    forall c, d | InBoard(c) && InBoard(d) && At(g, c).Occupied? && At(g, d).Occupied? ::
      At(g, c).id == At(g, d).id ==> c == d
  }

  /** Emptying a cell keeps the IDs distinct and owned by the players. */
  lemma PutEmptyKeepsPieces(g: Grid, c: Coord)
    requires WellShaped(g) && InBoard(c) && UniqueIds(g) && OwnersValid(g)
    ensures UniqueIds(Put(g, c, Empty)) && OwnersValid(Put(g, c, Empty))
  {
  }

  /** Writing an ID that no cell holds, of one of the players, keeps the IDs
      distinct and owned by the players. */
  lemma PutFreshKeepsPieces(g: Grid, c: Coord, id: int)
    requires WellShaped(g) && InBoard(c) && UniqueIds(g) && OwnersValid(g) && 0 <= Owner(id) < 2
    requires forall d | InBoard(d) :: At(g, d) != Occupied(id)
    ensures UniqueIds(Put(g, c, Occupied(id))) && OwnersValid(Put(g, c, Occupied(id)))
  {
  }

  // -------------------------------------------------------- row-major order

  const CellCount := BoardSize * BoardSize

  /** The cell at flat index i in C order, the order `np.where` reports. */
  function CoordAt(i: int): Coord {
    (i % BoardSize, i / BoardSize)
  }

  function IndexOf(c: Coord): int {
    c.1 * BoardSize + c.0
  }

  /** Flat indices and board cells correspond one to one. */
  lemma IndexBijection()
    ensures forall c {:trigger IndexOf(c)} :: InBoard(c) ==> 0 <= IndexOf(c) < CellCount && CoordAt(IndexOf(c)) == c
    ensures forall i {:trigger CoordAt(i)} :: 0 <= i < CellCount ==> InBoard(CoordAt(i)) && IndexOf(CoordAt(i)) == i
  {
  }

  /** The first cell, in row-major order from flat index i on, that holds v. */
  function LocateFrom(g: Grid, v: int, i: nat): (r: Option<Coord>)
    decreases CellCount - i
    ensures r.Some? ==> InBoard(r.value) && i <= IndexOf(r.value) && Holds(At(g, r.value), v)
    ensures r.Some? ==> forall k | i <= k < IndexOf(r.value) :: !Holds(At(g, CoordAt(k)), v)
    ensures r.None? ==> forall k | i <= k < CellCount :: !Holds(At(g, CoordAt(k)), v)
  {
    if i >= CellCount then None
    else if Holds(At(g, CoordAt(i)), v) then
      IndexBijection();
      Some(CoordAt(i))
    else LocateFrom(g, v, i + 1)
  }

  /** `_pieceIDtoCoord`: the first cell holding v; None where Python raises
      IndexError. */
  function Locate(g: Grid, v: int): Option<Coord> {
    LocateFrom(g, v, 0)
  }

  /** Locate fails exactly when no cell holds v, and otherwise finds the
      first such cell in row-major order. */
  lemma LocateFindsFirst(g: Grid, v: int)
    ensures Locate(g, v).None? <==> forall c :: InBoard(c) ==> !Holds(At(g, c), v)
    ensures Locate(g, v).Some? ==>
      InBoard(Locate(g, v).value) && Holds(At(g, Locate(g, v).value), v) &&
      forall d :: InBoard(d) && IndexOf(d) < IndexOf(Locate(g, v).value) ==> !Holds(At(g, d), v)
  {
    IndexBijection();
    if Locate(g, v).None? {
      forall c | InBoard(c)
        ensures !Holds(At(g, c), v)
      {
        assert CoordAt(IndexOf(c)) == c;
      }
    } else {
      forall d | InBoard(d) && IndexOf(d) < IndexOf(Locate(g, v).value)
        ensures !Holds(At(g, d), v)
      {
        assert CoordAt(IndexOf(d)) == d;
      }
    }
  }

  /** With unique IDs, a piece is found in the one cell that holds it. */
  lemma LocateUnique(g: Grid, c: Coord)
    requires UniqueIds(g) && InBoard(c) && At(g, c).Occupied? && At(g, c).id != -1
    ensures Locate(g, At(g, c).id) == Some(c)
  {
    LocateFindsFirst(g, At(g, c).id);
  }

  /** The cells among the first n in row-major order that hold a piece of p:
      the indices `np.where(board_copy == p)` returns. */
  function OwnedUpTo(g: Grid, p: int, n: nat): seq<Coord>
    requires n <= CellCount
  {
    if n == 0 then []
    else
      var rest := OwnedUpTo(g, p, n - 1);
      if OwnedBy(g, CoordAt(n - 1), p) then rest + [CoordAt(n - 1)] else rest
  }

  /** The scan lists exactly p's cells among the first n, in strictly
      increasing row-major order. */
  lemma {:induction false} OwnedUpToSpec(g: Grid, p: int, n: nat)
    requires n <= CellCount
    ensures forall c :: c in OwnedUpTo(g, p, n) <==> InBoard(c) && IndexOf(c) < n && OwnedBy(g, c, p)
    ensures forall a, b | 0 <= a < b < |OwnedUpTo(g, p, n)| :: IndexOf(OwnedUpTo(g, p, n)[a]) < IndexOf(OwnedUpTo(g, p, n)[b])
    ensures forall a | 0 <= a < |OwnedUpTo(g, p, n)| :: IndexOf(OwnedUpTo(g, p, n)[a]) < n
  {
    if n > 0 {
      OwnedUpToSpec(g, p, n - 1);
      IndexBijection();
    }
  }

  /** The cells holding a piece of p, in row-major order. */
  function OwnedCells(g: Grid, p: int): seq<Coord> {
    OwnedUpTo(g, p, CellCount)
  }

  /** How many pieces p has on the board. */
  function Count(g: Grid, p: int): nat {
    |OwnedCells(g, p)|
  }

  /** Among the first n cells, a player without pieces there owns none. */
  lemma {:induction false} OwnedUpToNone(g: Grid, p: int, n: nat)
    requires n <= CellCount
    requires forall c :: InBoard(c) ==> !OwnedBy(g, c, p)
    ensures OwnedUpTo(g, p, n) == []
  {
    if n > 0 {
      OwnedUpToNone(g, p, n - 1);
      IndexBijection();
    }
  }

  /** A player without pieces on the board has a count of zero. */
  lemma CountNone(g: Grid, p: int)
    requires forall c :: InBoard(c) ==> !OwnedBy(g, c, p)
    ensures Count(g, p) == 0
  {
    OwnedUpToNone(g, p, CellCount);
  }

  /** Each of p's pieces is listed once. */
  lemma OwnedCellsDistinct(g: Grid, p: int)
    ensures forall a, b | 0 <= a < b < |OwnedCells(g, p)| :: OwnedCells(g, p)[a] != OwnedCells(g, p)[b]
  {
    OwnedUpToSpec(g, p, CellCount);
  }

  /** One more cell adds one to the count exactly when p owns it. */
  lemma OwnedUpToStep(g: Grid, p: int, n: nat)
    requires 0 < n <= CellCount
    ensures |OwnedUpTo(g, p, n)| == |OwnedUpTo(g, p, n - 1)| + (if OwnedBy(g, CoordAt(n - 1), p) then 1 else 0)
  {
  }

  /** One more cell of the row-major scan. */
  lemma OwnedUpToNext(g: Grid, p: int, n: nat)
    requires n < CellCount
    ensures InBoard(CoordAt(n))
    ensures OwnedUpTo(g, p, n + 1) ==
      if OwnedBy(g, CoordAt(n), p) then OwnedUpTo(g, p, n) + [CoordAt(n)] else OwnedUpTo(g, p, n)
  {
    IndexBijection();
  }

  /** How the count of p's pieces among the first n cells changes when one
      cell is overwritten. */
  lemma {:induction false} OwnedUpToPut(g: Grid, p: int, c: Coord, v: Cell, n: nat)
    requires WellShaped(g) && InBoard(c) && n <= CellCount
    ensures |OwnedUpTo(Put(g, c, v), p, n)| ==
      |OwnedUpTo(g, p, n)|
      + (if IndexOf(c) < n && v.Occupied? && Owner(v.id) == p then 1 else 0)
      - (if IndexOf(c) < n && OwnedBy(g, c, p) then 1 else 0)
  {
    if n > 0 {
      var d := CoordAt(n - 1);
      assert d == c <==> IndexOf(c) == n - 1 by {
        IndexBijection();
      }
      OwnedUpToPut(g, p, c, v, n - 1);
      OwnedUpToStep(g, p, n);
      OwnedUpToStep(Put(g, c, v), p, n);
      if d != c {
        assert At(Put(g, c, v), d) == At(g, d);
      }
    }
  }

  /** Overwriting one cell changes p's count by the pieces of p it adds and
      takes away. */
  lemma CountPut(g: Grid, p: int, c: Coord, v: Cell)
    requires WellShaped(g) && InBoard(c)
    ensures Count(Put(g, c, v), p) ==
      Count(g, p) + (if v.Occupied? && Owner(v.id) == p then 1 else 0)
                  - (if OwnedBy(g, c, p) then 1 else 0)
  {
    OwnedUpToPut(g, p, c, v, CellCount);
    IndexBijection();
  }

  // ------------------------------------------------------------ bulk update

  /** `boardState[boardState == v] = -1`: every cell holding v becomes empty. */
  function ClearAll(g: Grid, v: int): (r: Grid)
    ensures |r| == |g| && forall y | 0 <= y < |g| :: |r[y]| == |g[y]|
    ensures forall c :: At(r, c) == if Holds(At(g, c), v) then Empty else At(g, c)
    ensures SameLayout(g) ==> SameLayout(r)
  {
    seq(|g|, y requires 0 <= y < |g| =>
      seq(|g[y]|, x requires 0 <= x < |g[y]| =>
        if Holds(g[y][x], v) then Empty else g[y][x]))
  }

  /** Clearing the empty marker -1 changes nothing while no piece carries
      the ID -1. */
  lemma ClearAllEmptyMarker(g: Grid)
    requires WellShaped(g) && OwnersValid(g)
    ensures ClearAll(g, -1) == g
  {
    forall c | InBoard(c)
      ensures At(ClearAll(g, -1), c) == At(g, c)
    {
      if At(g, c) == Empty {
        assert Holds(At(g, c), -1);
      }
    }
    GridExt(ClearAll(g, -1), g);
  }

  /** With unique IDs, clearing a present piece empties its one cell. */
  lemma ClearAllUnique(g: Grid, c: Coord)
    requires WellShaped(g) && UniqueIds(g) && InBoard(c) && At(g, c).Occupied? && At(g, c).id != -1
    ensures ClearAll(g, At(g, c).id) == Put(g, c, Empty)
  {
    var v := At(g, c).id;
    forall d | InBoard(d)
      ensures At(ClearAll(g, v), d) == At(Put(g, c, Empty), d)
    {
    }
    GridExt(ClearAll(g, v), Put(g, c, Empty));
  }

  // ------------------------------------------------------------- spots, moves

  /** `_isValidSpot` on integer coordinates: (x, y) if it is a board cell that
      holds -1, else nothing. An integer has no rounding error, so the
      margin-of-error test always passes. */
  function ValidSpot(g: Grid, x: int, y: int): (r: Option<Coord>)
    ensures r.Some? ==> r.value == (x, y)
    ensures r.Some? <==> InBoard((x, y)) && At(g, (x, y)) == Empty
  {
    if x < 0 || x >= BoardSize || y < 0 || y >= BoardSize then None
    else if At(g, (x, y)) != Empty then None
    else Some((x, y))
  }

  /** A spot is accepted exactly when it is an intersection that is empty. */
  lemma ValidSpotIsEmptyIntersection(g: Grid, x: int, y: int)
    requires SameLayout(g)
    ensures ValidSpot(g, x, y).Some? <==> IsIntersection((x, y)) && At(g, (x, y)) == Empty
  {
    IntersectionsAreInitialEmpties();
    InitialCellsBlockedOrEmpty();
  }

  /** `_getPossibleMoves`' loop: the cells of `nbrs` that `_isValidSpot`
      accepts, in order. */
  function MovesAmong(g: Grid, nbrs: seq<Coord>): (r: seq<Coord>)
    ensures forall m :: m in r <==> m in nbrs && InBoard(m) && At(g, m) == Empty
    ensures |r| <= |nbrs|
  {
    if nbrs == [] then []
    else
      var last := nbrs[|nbrs| - 1];
      assert nbrs == nbrs[..|nbrs| - 1] + [last];
      MovesAmong(g, nbrs[..|nbrs| - 1]) + (if ValidSpot(g, last.0, last.1).Some? then [last] else [])
  }

  /** `_getPossibleMoves(v)`: the empty neighbours of the cell holding v;
      None where locating v raises. */
  function PossibleMoves(g: Grid, v: int): Option<seq<Coord>> {
    match Locate(g, v)
    case None => None
    case Some(c) => Some(MovesAmong(g, Neighbors(c)))
  }

  /** The piece in cell c can move: some neighbour is empty. */
  predicate Movable(g: Grid, c: Coord) {
    MovesAmong(g, Neighbors(c)) != []
  }

  /** `_getActivePieces`' loop over the cells `cells`: the IDs whose possible
      moves are not empty, in order. */
  function ActiveAmong(g: Grid, cells: seq<Coord>): seq<int> {
    if cells == [] then []
    else
      var c := cells[|cells| - 1];
      ActiveAmong(g, cells[..|cells| - 1]) + ActiveEntry(g, c)
  }

  /** One more cell of `_getActivePieces`' loop. */
  lemma ActiveAmongNext(g: Grid, cells: seq<Coord>, i: nat)
    requires i < |cells|
    ensures ActiveAmong(g, cells[..i + 1]) == ActiveAmong(g, cells[..i]) + ActiveEntry(g, cells[i])
  {
    assert cells[..i + 1][..i] == cells[..i];
  }

  /** What `_getActivePieces` appends for the cell c: the ID it holds when
      that piece has possible moves. */
  function ActiveEntry(g: Grid, c: Coord): seq<int> {
    match At(g, c)
    case Occupied(id) =>
      if PossibleMoves(g, id).Some? && PossibleMoves(g, id).value != [] then [id] else []
    case _ => []
  }

  /** `_getActivePieces()` for player p. */
  function ActivePieces(g: Grid, p: int): seq<int> {
    ActiveAmong(g, OwnedCells(g, p))
  }

  /** Owner IDs on the board are those of the two players. */
  ghost predicate OwnersValid(g: Grid) {
    forall c | InBoard(c) && At(g, c).Occupied? :: 0 <= Owner(At(g, c).id) < 2
  }

  /** An ID whose owner is a player is never the empty marker -1. */
  lemma PlayerIdsAreNotEmptyMarker(g: Grid, c: Coord)
    requires OwnersValid(g) && InBoard(c) && At(g, c).Occupied?
    ensures At(g, c).id != -1
  {
  }

  /** The last cell of the scan contributes its ID exactly when it can move. */
  lemma ActiveAmongLast(g: Grid, cells: seq<Coord>)
    requires UniqueIds(g) && OwnersValid(g) && cells != []
    requires InBoard(cells[|cells| - 1]) && At(g, cells[|cells| - 1]).Occupied?
    ensures ActiveAmong(g, cells) ==
      ActiveAmong(g, cells[..|cells| - 1]) +
      (if Movable(g, cells[|cells| - 1]) then [At(g, cells[|cells| - 1]).id] else [])
  {
    var c := cells[|cells| - 1];
    PlayerIdsAreNotEmptyMarker(g, c);
    LocateUnique(g, c);
  }

  /** The scan over cells of p's pieces lists exactly the IDs of those
      that can move. */
  lemma {:induction false} ActiveAmongSpec(g: Grid, cells: seq<Coord>, p: int)
    requires UniqueIds(g) && OwnersValid(g)
    requires forall c | c in cells :: InBoard(c) && OwnedBy(g, c, p)
    ensures forall v :: v in ActiveAmong(g, cells) <==>
      exists c :: c in cells && At(g, c) == Occupied(v) && Movable(g, c)
  {
    if cells != [] {
      var c := cells[|cells| - 1];
      var init := cells[..|cells| - 1];
      assert cells == init + [c];
      ActiveAmongSpec(g, init, p);
      ActiveAmongLast(g, cells);
      forall v
        ensures v in ActiveAmong(g, cells) <==> exists d :: d in cells && At(g, d) == Occupied(v) && Movable(g, d)
      {
        if v in ActiveAmong(g, cells) {
          if v in ActiveAmong(g, init) {
            var d :| d in init && At(g, d) == Occupied(v) && Movable(g, d);
            assert d in cells;
          } else {
            assert c in cells && At(g, c) == Occupied(v) && Movable(g, c);
          }
        }
        if d :| d in cells && At(g, d) == Occupied(v) && Movable(g, d) {
          if d == c {
            assert v in ActiveAmong(g, cells);
          } else {
            assert d in init;
            assert v in ActiveAmong(g, init);
          }
        }
      }
    }
  }

  /** `_getActivePieces` lists exactly the IDs of p's pieces that have an
      empty neighbour. */
  lemma ActivePiecesSpec(g: Grid, p: int)
    requires UniqueIds(g) && OwnersValid(g)
    ensures forall v :: v in ActivePieces(g, p) <==>
      exists c :: InBoard(c) && OwnedBy(g, c, p) && At(g, c) == Occupied(v) && Movable(g, c)
  {
    OwnedUpToSpec(g, p, CellCount);
    IndexBijection();
    ActiveAmongSpec(g, OwnedCells(g, p), p);
  }

  /** None of p's pieces has an empty neighbour. */
  ghost predicate Stuck(g: Grid, p: int) {
    forall c, n :: InBoard(c) && OwnedBy(g, c, p) && n in Neighbors(c) ==> At(g, n) != Empty
  }

  /** In particular p has no active piece exactly when none of p's pieces
      has an empty neighbour. */
  lemma NoActivePieces(g: Grid, p: int)
    requires UniqueIds(g) && OwnersValid(g)
    ensures ActivePieces(g, p) == [] <==> Stuck(g, p)
  {
    ActivePiecesSpec(g, p);
    NeighborsAreIntersections();
    if ActivePieces(g, p) != [] {
      var v := ActivePieces(g, p)[0];
      assert v in ActivePieces(g, p);
      var c :| InBoard(c) && OwnedBy(g, c, p) && At(g, c) == Occupied(v) && Movable(g, c);
      var n := MovesAmong(g, Neighbors(c))[0];
      assert n in MovesAmong(g, Neighbors(c));
    } else {
      forall c, n | InBoard(c) && OwnedBy(g, c, p) && n in Neighbors(c)
        ensures At(g, n) != Empty
      {
        assert At(g, c).id !in ActivePieces(g, p);
        assert !Movable(g, c);
        assert n !in MovesAmong(g, Neighbors(c));
      }
    }
  }
}
