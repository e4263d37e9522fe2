/** The board manager object: `boardState` is a 7x7 array updated in place,
    the counters are small arrays, and every slot is a method whose effect is
    proved to be the matching function of `Rules`. */
module Manager {
  import opened Board
  import opened Pieces
  import opened Jare
  import opened Rules
  import GameLaws

  class BoardManager {
    const boardState: array2<Cell>
    var gameRunning: bool
    var gameState: GameStage
    var currentTurn: int
    var totalPieces: array<int>
    var firstToJare: Option<int>
    var currentJare: array<int>

    /** The arrays have their fixed sizes and are distinct, and the player
        to move is a player. */
    ghost predicate WellFormed()
      reads this
    {
      boardState.Length0 == BoardSize && boardState.Length1 == BoardSize &&
      totalPieces.Length == TotalPlayers && currentJare.Length == TotalPlayers &&
      totalPieces != currentJare && IsPlayer(currentTurn)
    }

    /** `boardState` as a grid value. */
    ghost function BoardValue(): (g: Grid)
      reads boardState
      requires boardState.Length0 == BoardSize && boardState.Length1 == BoardSize
      ensures WellShaped(g)
      ensures forall c | InBoard(c) :: At(g, c) == boardState[c.1, c.0]
    {
      seq(BoardSize, y requires 0 <= y < BoardSize reads boardState =>
        seq(BoardSize, x requires 0 <= x < BoardSize reads boardState => boardState[y, x]))
    }

    /** All the fields as a snapshot. */
    ghost function State(): Snapshot
      reads this, boardState, totalPieces, currentJare
      requires WellFormed()
    {
      Snapshot(BoardValue(), gameState, gameRunning, currentTurn, totalPieces[..], firstToJare, currentJare[..])
    }

    /** The object invariant: the snapshot is consistent. */
    ghost predicate Valid()
      reads this, boardState, totalPieces, currentJare
    {
      WellFormed() && Consistent(State())
    }

    /** `__init__`: the initial board, stage STOPPED, zero counters. */
    constructor ()
      ensures Valid() && State() == Initial
      ensures fresh(boardState) && fresh(totalPieces) && fresh(currentJare)
    {
      boardState := new Cell[BoardSize, BoardSize]((y, x) requires 0 <= y < BoardSize && 0 <= x < BoardSize =>
        InitialGrid[y][x]);
      gameRunning := false;
      gameState := Stopped;
      currentTurn := 0;
      totalPieces := new int[TotalPlayers](_ => 0);
      firstToJare := None;
      currentJare := new int[TotalPlayers](_ => 0);
      new;
      GridExt(BoardValue(), InitialGrid);
      GameLaws.InitialConsistent();
    }

    // -------------------------------------------------------- board access

    /** `boardState[c.y][c.x] = v`. */
    method SetCell(c: Coord, v: Cell)
      requires boardState.Length0 == BoardSize && boardState.Length1 == BoardSize && InBoard(c)
      modifies boardState
      ensures BoardValue() == Put(old(BoardValue()), c, v)
    {
      boardState[c.1, c.0] := v;
      GridExt(BoardValue(), Put(old(BoardValue()), c, v));
    }

    /** `_isValidSpot(x, y)` on integer coordinates. */
    method IsValidSpot(x: int, y: int) returns (r: Option<Coord>)
      requires boardState.Length0 == BoardSize && boardState.Length1 == BoardSize
      ensures r == ValidSpot(BoardValue(), x, y)
    {
      if x < 0 || x >= BoardSize || y < 0 || y >= BoardSize {
        return None;
      } else if boardState[y, x] != Empty {
        return None;
      } else {
        return Some((x, y));
      }
    }

    /** `_pieceIDtoCoord(pieceID)`: the first cell in row-major order that
        holds the ID, or None where Python raises IndexError. */
    method PieceIdToCoord(pieceID: int) returns (r: Option<Coord>)
      requires boardState.Length0 == BoardSize && boardState.Length1 == BoardSize
      ensures r == Locate(BoardValue(), pieceID)
    {
      ghost var g := BoardValue();
      for i := 0 to CellCount
        invariant Locate(g, pieceID) == LocateFrom(g, pieceID, i)
      {
        var (x, y) := CoordAt(i);
        if Holds(boardState[y, x], pieceID) {
          return Some((x, y));
        }
      }
      return None;
    }

    /** `np.where(board_copy == p)`: the cells of p's pieces in row-major
        order. */
    method PlayerIndices(p: int) returns (cells: seq<Coord>)
      requires boardState.Length0 == BoardSize && boardState.Length1 == BoardSize
      ensures cells == OwnedCells(BoardValue(), p)
    {
      ghost var g := BoardValue();
      cells := [];
      for i := 0 to CellCount
        invariant cells == OwnedUpTo(g, p, i)
      {
        var (x, y) := CoordAt(i);
        OwnedUpToNext(g, p, i);
        assert boardState[y, x] == At(g, (x, y));
        match boardState[y, x]
        case Occupied(id) =>
          if Owner(id) == p {
            cells := cells + [(x, y)];
          }
        case _ =>
      }
    }

    /** `boardState[boardState == pieceID] = -1`. */
    method ClearPiece(pieceID: int)
      requires boardState.Length0 == BoardSize && boardState.Length1 == BoardSize
      modifies boardState
      ensures BoardValue() == ClearAll(old(BoardValue()), pieceID)
    {
      ghost var g := BoardValue();
      for y := 0 to BoardSize
        invariant forall c | InBoard(c) ::
          boardState[c.1, c.0] == if c.1 < y && Holds(At(g, c), pieceID) then Empty else At(g, c)
      {
        for x := 0 to BoardSize
          invariant forall c | InBoard(c) ::
            boardState[c.1, c.0] ==
              if (c.1 < y || (c.1 == y && c.0 < x)) && Holds(At(g, c), pieceID) then Empty else At(g, c)
        {
          if Holds(boardState[y, x], pieceID) {
            boardState[y, x] := Empty;
          }
        }
      }
      GridExt(BoardValue(), ClearAll(g, pieceID));
    }

    // -------------------------------------------------------------- queries

    /** `_getPossibleMoves(pieceID)`: the empty neighbours of the piece's
        cell, or None where locating the piece raises. */
    method GetPossibleMoves(pieceID: int) returns (r: Option<seq<Coord>>)
      requires boardState.Length0 == BoardSize && boardState.Length1 == BoardSize
      ensures r == PossibleMoves(BoardValue(), pieceID)
    {
      var loc := PieceIdToCoord(pieceID);
      if loc.None? {
        return None;
      }
      var possibleMoves := ValidAmong(Neighbors(loc.value));
      return Some(possibleMoves);
    }

    /** The loop of `_getPossibleMoves`: the spots of `spots` that
        `_isValidSpot` accepts, in order. */
    method ValidAmong(spots: seq<Coord>) returns (possibleMoves: seq<Coord>)
      requires boardState.Length0 == BoardSize && boardState.Length1 == BoardSize
      ensures possibleMoves == MovesAmong(BoardValue(), spots)
    {
      ghost var g := BoardValue();
      possibleMoves := [];
      for k := 0 to |spots|
        invariant possibleMoves == MovesAmong(g, spots[..k])
      {
        assert spots[..k + 1][..k] == spots[..k];
        var spot := IsValidSpot(spots[k].0, spots[k].1);
        if spot.Some? {
          possibleMoves := possibleMoves + [spots[k]];
        }
      }
      assert spots[..|spots|] == spots;
    }

    /** `_getActivePieces()`: the IDs of the pieces of the player to move
        that have somewhere to go. */
    method GetActivePieces() returns (activePieces: seq<int>)
      requires WellFormed()
      ensures activePieces == ActivePieces(BoardValue(), currentTurn)
    {
      ghost var g := BoardValue();
      var indices := PlayerIndices(currentTurn);
      activePieces := [];
      for i := 0 to |indices|
        invariant activePieces == ActiveAmong(g, indices[..i])
      {
        ActiveAmongNext(g, indices, i);
        var entry := ActiveEntryAt(indices[i]);
        activePieces := activePieces + entry;
      }
      assert indices[..|indices|] == indices;
    }

    /** One pass of `_getActivePieces`' loop: the ID in cell c when that
        piece has possible moves. */
    method ActiveEntryAt(c: Coord) returns (entry: seq<int>)
      requires boardState.Length0 == BoardSize && boardState.Length1 == BoardSize
      ensures entry == ActiveEntry(BoardValue(), c)
    {
      entry := [];
      if InBoard(c) {
        match boardState[c.1, c.0]
        case Occupied(id) =>
          var moves := GetPossibleMoves(id);
          if moves.Some? && moves.value != [] {
            entry := [id];
          }
        case _ =>
      }
    }

    /** `_isGameOver()`. */
    method IsGameOver() returns (over: bool)
      ensures over <==> GameOver(totalPieces[..])
    {
      for i := 0 to totalPieces.Length
        invariant forall j | 0 <= j < i :: totalPieces[j] > MinPieces
      {
        if totalPieces[i] <= MinPieces {
          assert totalPieces[..][i] <= MinPieces;
          return true;
        }
      }
      return false;
    }

    // ---------------------------------------------------------------- slots

    /** `placePiece(x, y)` on integer coordinates; the reply stands for the
        `placePieceEvaluated` signal. */
    method PlacePiece(x: int, y: int) returns (out: Outcome<PlaceReply>)
      requires Valid()
      modifies this, boardState, totalPieces, currentJare
      ensures Valid()
      ensures State() == Place(old(State()), x, y).next && out == Place(old(State()), x, y).out
      ensures totalPieces == old(totalPieces) && currentJare == old(currentJare)
    {
      ghost var s := State();
      GameLaws.PlaceConsistent(s, x, y);
      if gameState != Placement {
        return Ignored;
      }
      var validSpot := IsValidSpot(x, y);
      if validSpot.None? {
        return Ignored;
      }
      out := PlaceAt(validSpot.value);
    }

    /** The body of `placePiece` once the empty cell `spot` is accepted. */
    method PlaceAt(spot: Coord) returns (out: Outcome<PlaceReply>)
      requires WellFormed() && Shaped(State()) && InBoard(spot) && At(BoardValue(), spot) == Empty
      modifies this, boardState, totalPieces, currentJare
      ensures WellFormed()
      ensures State() == Rules.PlaceAt(old(State()), spot).next && out == Rules.PlaceAt(old(State()), spot).out
      ensures totalPieces == old(totalPieces) && currentJare == old(currentJare)
    {
      ghost var s := State();
      var newID := PackId(totalPieces[currentTurn], currentTurn);
      PutPiece(spot, newID);
      ghost var s1 := State();
      var nextStage := "placement";
      if AllPlaced(totalPieces[..]) {
        ChangeStage(FirstRemoval);
        nextStage := "removal";
      }
      out := Replied(PlaceReply(true, newID, spot.0, spot.1, nextStage, currentTurn));
      assert Rules.PlaceAt(s, spot) == Step(State(), out) by {
        assert s1 == Placed(s, spot) && NextId(s) == newID;
      }
    }

    /** `placePiece` from writing the new ID `newID` into `spot` to handing
        the turn on. */
    method PutPiece(spot: Coord, newID: int)
      requires WellFormed() && Shaped(State()) && InBoard(spot) && At(BoardValue(), spot) == Empty
      requires newID == NextId(State())
      modifies this, boardState, totalPieces, currentJare
      ensures WellFormed() && State() == Placed(old(State()), spot)
      ensures totalPieces == old(totalPieces) && currentJare == old(currentJare)
    {
      ghost var s := State();
      Occupy(spot, newID);
      ghost var board, counts := BoardValue(), totalPieces[..];
      assert board == Put(s.board, spot, Occupied(NextId(s)));
      assert counts == s.totalPieces[s.turn := s.totalPieces[s.turn] + 1];
      var made := MadeNewJare();
      assert totalPieces[..] == counts;
      assert BoardValue() == board;
      ghost var check := NewJare(board, s.turn, s.currentJare);
      assert made == check.made && currentJare[..] == check.currentJare;
      if made && firstToJare.None? {
        firstToJare := Some(currentTurn);
      }
      currentTurn := NextTurn(currentTurn);
      PlacedFrom(s, spot, board, counts, currentJare[..], firstToJare);
    }

    /** Writes `newID` into `spot` and counts the piece for the player to
        move. */
    method Occupy(spot: Coord, newID: int)
      requires WellFormed() && InBoard(spot)
      modifies boardState, totalPieces
      ensures BoardValue() == Put(old(BoardValue()), spot, Occupied(newID))
      ensures totalPieces[..] == old(totalPieces[..])[currentTurn := old(totalPieces[currentTurn]) + 1]
    {
      SetCell(spot, Occupied(newID));
      totalPieces[currentTurn] := totalPieces[currentTurn] + 1;
    }

    /** `removePiece(pieceID)`; the reply stands for the
        `removePieceEvaluated` signal, and Raised for the IndexError of
        `total_pieces[player]` when the ID is the empty marker -1. */
    method RemovePiece(pieceID: int) returns (out: Outcome<RemoveReply>)
      requires Valid()
      modifies this, boardState, totalPieces
      ensures Valid()
      ensures State() == Remove(old(State()), pieceID).next && out == Remove(old(State()), pieceID).out
      ensures totalPieces == old(totalPieces) && currentJare == old(currentJare)
    {
      ghost var s := State();
      GameLaws.RemoveConsistent(s, pieceID);
      if gameState != Removal && gameState != FirstRemoval {
        return Ignored;
      }
      var present := PieceIdToCoord(pieceID);
      if present.None? || Owner(pieceID) == currentTurn {
        return Ignored;
      }
      out := RemovePresent(pieceID);
    }

    /** `removePiece` once the ID is known to be on the board and not the
        mover's: clear it, then charge its owner. */
    method RemovePresent(pieceID: int) returns (out: Outcome<RemoveReply>)
      requires WellFormed() && Shaped(State()) && (gameState == Removal || gameState == FirstRemoval)
      requires Locate(BoardValue(), pieceID).Some? && Owner(pieceID) != currentTurn
      modifies this, boardState, totalPieces
      ensures WellFormed()
      ensures State() == Remove(old(State()), pieceID).next && out == Remove(old(State()), pieceID).out
      ensures totalPieces == old(totalPieces) && currentJare == old(currentJare)
    {
      ghost var s := State();
      ClearPiece(pieceID);
      assert State() == s.(board := ClearAll(s.board, pieceID));
      out := Charge(pieceID);
    }

    /** `total_pieces[player] -= 1` for the owner bits of the removed ID,
        then the rest of `removePiece`; Raised stands for the IndexError when
        the bits name no player. */
    method Charge(pieceID: int) returns (out: Outcome<RemoveReply>)
      requires WellFormed() && Shaped(State())
      modifies this, totalPieces
      ensures WellFormed()
      ensures State() == Rules.Charge(old(State()), pieceID).next && out == Rules.Charge(old(State()), pieceID).out
      ensures totalPieces == old(totalPieces) && currentJare == old(currentJare)
    {
      ghost var s := State();
      var player := Owner(pieceID);
      if !(0 <= player < TotalPlayers) {
        return Raised;
      }
      totalPieces[player] := totalPieces[player] - 1;
      assert totalPieces[..] == s.totalPieces[player := s.totalPieces[player] - 1];
      out := AfterRemoval(pieceID);
    }

    /** The rest of `removePiece` once the piece is off the board and its
        owner's count is down by one. */
    method AfterRemoval(pieceID: int) returns (out: Outcome<RemoveReply>)
      requires WellFormed() && Shaped(State())
      modifies this
      ensures WellFormed()
      ensures State() == Rules.AfterRemoval(old(State()), pieceID).next
      ensures out == Rules.AfterRemoval(old(State()), pieceID).out
      ensures totalPieces == old(totalPieces) && currentJare == old(currentJare)
    {
      ghost var s := State();
      var over := IsGameOver();
      if over {
        out := Replied(RemoveReply(true, pieceID, "removal", currentTurn, []));
        EndGame();
        return;
      }
      if gameState == FirstRemoval {
        currentTurn := NextTurn(currentTurn);
        if (firstToJare.None? && currentTurn == 1) || firstToJare == Some(currentTurn) {
          ChangeStage(Movement);
          var activePieces := GetActivePieces();
          out := Replied(RemoveReply(true, pieceID, "movement", currentTurn, activePieces));
        } else {
          out := Replied(RemoveReply(true, pieceID, "removal", currentTurn, []));
        }
      } else {
        ChangeStage(Movement);
        var activePieces := GetActivePieces();
        out := Replied(RemoveReply(true, pieceID, "movement", currentTurn, activePieces));
      }
    }

    /** `movePiece(ID, new_x, new_y)` on integer coordinates; the reply
        stands for the `movePieceEvaluated` signal, and Raised for the
        IndexError of `_pieceIDtoCoord` when no cell holds the ID. */
    method MovePiece(id: int, newX: int, newY: int) returns (out: Outcome<MoveReply>)
      requires Valid()
      modifies this, boardState, currentJare
      ensures Valid()
      ensures State() == Move(old(State()), id, newX, newY).next && out == Move(old(State()), id, newX, newY).out
      ensures totalPieces == old(totalPieces) && currentJare == old(currentJare)
    {
      ghost var s := State();
      GameLaws.MoveConsistent(s, id, newX, newY);
      if gameState != Movement {
        return Ignored;
      }
      var validSpot := IsValidSpot(newX, newY);
      if validSpot.None? {
        return Replied(MoveReply(false, id, 0, 0, "movement", currentTurn, []));
      }
      out := MoveTo(id, newX, newY, validSpot.value);
    }

    /** `movePiece` once the stage and the spot are accepted: locate the
        piece, then move it if the spot is adjacent. */
    method MoveTo(id: int, newX: int, newY: int, spot: Coord) returns (out: Outcome<MoveReply>)
      requires WellFormed() && Shaped(State()) && gameState == Movement
      requires ValidSpot(BoardValue(), newX, newY) == Some(spot)
      modifies this, boardState, currentJare
      ensures WellFormed()
      ensures State() == Move(old(State()), id, newX, newY).next && out == Move(old(State()), id, newX, newY).out
      ensures totalPieces == old(totalPieces) && currentJare == old(currentJare)
    {
      ghost var s := State();
      var oldBoard := PieceIdToCoord(id);
      if oldBoard.None? {
        return Raised;
      }
      GameLaws.LocatedIsIntersection(s, id);
      var isAdjacent := spot in Neighbors(oldBoard.value);
      if isAdjacent {
        out := MoveAlong(id, oldBoard.value, spot);
      } else {
        out := Replied(MoveReply(false, id, 0, 0, "movement", currentTurn, []));
      }
    }

    /** An accepted move: the piece steps from `from` to `spot`, then the
        jare detector decides between REMOVAL and passing the turn. */
    method MoveAlong(id: int, from: Coord, spot: Coord) returns (out: Outcome<MoveReply>)
      requires WellFormed() && Shaped(State()) && InBoard(from) && InBoard(spot)
      modifies this, boardState, currentJare
      ensures WellFormed()
      ensures State() == Rules.MoveAlong(old(State()), id, from, spot).next
      ensures out == Rules.MoveAlong(old(State()), id, from, spot).out
      ensures totalPieces == old(totalPieces) && currentJare == old(currentJare)
    {
      ghost var s := State();
      SetCell(from, Empty);
      SetCell(spot, Stored(id));
      var newJare := MadeNewJare();
      ghost var check := NewJare(Moved(s.board, id, from, spot), s.turn, s.currentJare);
      ghost var s1 := s.(board := Moved(s.board, id, from, spot), currentJare := check.currentJare);
      assert State() == s1;
      if newJare {
        ChangeStage(Removal);
        out := Replied(MoveReply(true, id, spot.0, spot.1, "removal", currentTurn, []));
      } else {
        currentTurn := NextTurn(currentTurn);
        var activePieces := GetActivePieces();
        if activePieces == [] {
          currentTurn := PreviousTurn(currentTurn);
        }
        out := Replied(MoveReply(true, id, spot.0, spot.1, "", currentTurn, activePieces));
      }
    }

    // ------------------------------------------------------- jare detector

    /** `_madeNewJare()`: scan the pieces of the player to move in row-major
        order, greedily group each unclaimed piece with its first two
        unclaimed neighbouring allies, then compare the number of jares with
        `currentJare[current_turn]` and overwrite it. */
    method MadeNewJare() returns (made: bool)
      requires WellFormed()
      modifies currentJare
      ensures made == NewJare(BoardValue(), currentTurn, old(currentJare[..])).made
      ensures currentJare[..] == NewJare(BoardValue(), currentTurn, old(currentJare[..])).currentJare
    {
      var totalJare := CountJares(currentTurn);
      if currentJare[currentTurn] < totalJare {
        currentJare[currentTurn] := totalJare;
        made := true;
      } else {
        currentJare[currentTurn] := totalJare;
        made := false;
      }
    }

    /** The scan of `_madeNewJare`: `totalJare` for player p, together with
        the cells `piecesInJare` it has claimed. */
    method CountJares(p: int) returns (totalJare: int)
      requires boardState.Length0 == BoardSize && boardState.Length1 == BoardSize
      ensures totalJare == JareCount(BoardValue(), p)
    {
      ghost var g := BoardValue();
      var piecesInJare: seq<Coord> := [];
      totalJare := 0;
      ghost var jares: seq<Jare> := [];
      var indices := PlayerIndices(p);
      for i := 0 to |indices|
        invariant jares == ScanRoots(g, p, indices[..i])
        invariant piecesInJare == Marked(jares) && totalJare == |jares|
      {
        var root := indices[i];
        if root !in piecesInJare {
          NeighborsAreIntersections();
          var probe := ProbeNeighbors(p, piecesInJare, Neighbors(root));
          ScanRootsStep(g, p, indices, i, probe);
          if probe.Found? {
            totalJare := totalJare + 1;
            piecesInJare := piecesInJare + [root, probe.second, probe.first];
            MarkedAppend(jares, Jare(root, probe.second, probe.first));
            jares := jares + [Jare(root, probe.second, probe.first)];
          }
        } else {
          ScanRootsStep(g, p, indices, i, Searching(None));
        }
      }
      assert indices[..|indices|] == indices;
    }

    /** The inner loop of `_madeNewJare` for one root: walk its neighbours
        `nbrs`, skip those already in a jare, remember the first ally and
        stop at the second. */
    method ProbeNeighbors(p: int, used: seq<Coord>, nbrs: seq<Coord>) returns (probe: Probe)
      requires boardState.Length0 == BoardSize && boardState.Length1 == BoardSize
      requires forall n | n in nbrs :: InBoard(n)
      ensures probe == ProbeAll(BoardValue(), p, used, nbrs)
    {
      ghost var g := BoardValue();
      var neighboringAlly: Option<Coord> := None;
      var k := 0;
      while k < |nbrs|
        invariant 0 <= k <= |nbrs|
        invariant ProbeAll(g, p, used, nbrs[..k]) == Searching(neighboringAlly)
      {
        assert nbrs[..k + 1][..k] == nbrs[..k];
        var n := nbrs[k];
        var ally := OwnsCell(n, p);
        if n !in used && ally {
          match neighboringAlly
          case None =>
            neighboringAlly := Some(n);
          case Some(first) =>
            assert ProbeAll(g, p, used, nbrs[..k + 1]) == Found(first, n);
            ProbeAllFinal(g, p, used, nbrs, k + 1);
            return Found(first, n);
        }
        k := k + 1;
      }
      assert nbrs[..k] == nbrs;
      return Searching(neighboringAlly);
    }

    // ------------------------------------------------------ stage changes

    /** `_changeStage(nextStage)`. */
    method ChangeStage(next: GameStage)
      requires WellFormed() && (firstToJare.Some? ==> IsPlayer(firstToJare.value))
      modifies this
      ensures WellFormed() && State() == Rules.ChangeStage(old(State()), next)
      ensures totalPieces == old(totalPieces) && currentJare == old(currentJare)
    {
      if next == FirstRemoval {
        if firstToJare.Some? {
          currentTurn := firstToJare.value;
        } else {
          currentTurn := 1;
        }
      }
      gameState := next;
    }

    /** `endGame()`; the `gameEnded` signal is implied by the stage. The
        slot keeps the object invariant. */
    method EndGame()
      requires WellFormed()
      modifies this
      ensures WellFormed() && State() == End(old(State()))
      ensures old(Valid()) ==> Valid()
      ensures totalPieces == old(totalPieces) && currentJare == old(currentJare)
    {
      ghost var s := State();
      gameState := Stopped;
      gameRunning := false;
      if Consistent(s) {
        GameLaws.EndConsistent(s);
      }
    }

    /** `startGame()`: fresh zero counters, no first jare, player 0 to move,
        stage PLACEMENT, and the board cleared back to its initial cells. */
    method StartGame() returns (running: bool)
      requires WellFormed()
      modifies this, boardState
      ensures Valid() && State() == Start(old(State())) && running
      ensures fresh(totalPieces) && fresh(currentJare)
    {
      ResetBoard();
      currentTurn := 0;
      totalPieces := new int[TotalPlayers](_ => 0);
      firstToJare := None;
      currentJare := new int[TotalPlayers](_ => 0);
      gameState := Placement;
      gameRunning := true;
      running := gameRunning;
      assert totalPieces[..] == [0, 0] && currentJare[..] == [0, 0];
      assert State() == Start(old(State()));
      StartConsistent(old(State()));
    }

    /** Write the initial cells back into `boardState`. */
    method ResetBoard()
      requires boardState.Length0 == BoardSize && boardState.Length1 == BoardSize
      modifies boardState
      ensures BoardValue() == InitialGrid
    {
      for i := 0 to CellCount
        invariant forall j | 0 <= j < i :: boardState[CoordAt(j).1, CoordAt(j).0] == At(InitialGrid, CoordAt(j))
      {
        IndexBijection();
        var (x, y) := CoordAt(i);
        boardState[y, x] := InitialGrid[y][x];
      }
      forall c | InBoard(c)
        ensures At(BoardValue(), c) == At(InitialGrid, c)
      {
        IndexBijection();
        assert CoordAt(IndexOf(c)) == c;
      }
      GridExt(BoardValue(), InitialGrid);
    }

    /** The neighbour test of the detector: the cell holds a piece whose
        owner bits are p's. */
    method OwnsCell(c: Coord, p: int) returns (r: bool)
      requires boardState.Length0 == BoardSize && boardState.Length1 == BoardSize && InBoard(c)
      ensures r <==> OwnedBy(BoardValue(), c, p)
    {
      match boardState[c.1, c.0]
      case Occupied(id) => r := Owner(id) == p;
      case _ => r := false;
    }
  }
}
