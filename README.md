# Shax board manager in Dafny

This project models the rule engine of a two-player Shax/Jare game. In the
original system the engine is the `BoardManager` class. It keeps:

- a 7x7 `boardState` of 24 intersections. Each intersection holds -1 (empty)
  or a piece ID, and every other cell holds `None`;
- the stage of the game (STOPPED, PLACEMENT, FIRST_REMOVAL, REMOVAL or
  MOVEMENT);
- whose turn it is;
- the number of pieces each player has;
- the first player to make a jare;
- the last jare count of each player.

The three slots `placePiece`, `removePiece` and `movePiece` check the stage
and the target, update the board and move the stage machine on.
`placePiece` and `movePiece` run the greedy jare detector for the player to
move after they change the board; `removePiece` does not run it. An accepted
action emits a signal that carries its outcome. Some paths end without a
signal:
- `placePiece` returns without one outside PLACEMENT and on a rejected spot;
- `removePiece` returns without one outside the removal stages, for an ID
  that is on no cell and for a piece of the player to move;
- `movePiece` returns without one outside MOVEMENT. On a rejected or
  non-adjacent spot it emits a failure signal.

The model has five modules:

- `Board` (board.dfy) holds the fixed board, its initial layout and the
  adjacency table, together with lemmas about the table's topology.
- `Pieces` (pieces.dfy) holds the piece IDs (`seq << 2 | player`) and the
  read-only board queries: locating a piece in row-major order, listing a
  player's pieces, checking a spot, listing possible moves and the pieces
  that can move.
- `Jare` (jare.dfy) holds the greedy jare detector as a pure function,
  proved sound: every jare found is three pieces of the player, and no piece
  serves two jares. It also proves a bound on the number of jares.
- `Rules` (rules.dfy) is the stage machine written as functions on a
  `Snapshot` of the manager's fields. Each action returns the next snapshot
  and an `Outcome`: ignored, IndexError raised, or the reply the signal
  carries.
- `GameLaws` (laws.dfy) proves what the stage machine promises:
  - the invariant `Consistent` holds after every action: IDs are distinct and
    owned by the two players, `total_pieces` counts the pieces on the board,
    and the game runs exactly outside STOPPED;
  - the ignore and raise conditions of each action, stated in both
    directions;
  - each action's effect on the board and the counters;
  - the turn and stage rules.
- `Manager` (manager.dfy) is the class `BoardManager`. Its board is an
  `array2<Cell>` updated in place, and its counters are arrays. Every slot
  and helper is a method, and each method is proved to leave exactly the
  state, and return exactly the outcome, of the matching `Rules` function.
  The loops of `np.where`, `_pieceIDtoCoord`, `_getPossibleMoves`,
  `_getActivePieces` and `_madeNewJare` are kept as loops with invariants.

Coordinates are integers. An integer has no rounding error, so the
margin-of-error test of `_isValidSpot` always passes. Python's `& 3` and
`>> 2` are Dafny's `% 4` and `/ 4`, which also floor on negative IDs. The
`None` cells of `boardState` are `Blocked`. Comparisons with -1 follow
NumPy: an empty cell equals -1, and a blocked cell equals no integer. So
`removePiece(-1)` and `movePiece(-1, ...)` behave as the source does.

## Model

| member | source | states |
|---|---|---|
| Board.Put | backend/board_manager.py:169 | writing one cell changes that cell and no other |
| Board.TwentyFourIntersections | backend/board_manager.py:88-115 | the adjacency table has exactly 24 distinct keys, and they are the intersections |
| Board.IntersectionsAreInitialEmpties | backend/board_manager.py:79-115 | the keys of the adjacency table are exactly the cells that start as -1 |
| Board.InitialCellsBlockedOrEmpty | backend/board_manager.py:79-85 | every cell of the initial board is `None` or -1 |
| Board.Neighbors | backend/board_manager.py:88-115 | the adjacency table, neighbours in table order; its properties are stated by `Board.NeighborCounts`, `Board.NeighborsAreIntersections`, `Board.NeighborsDistinct` and `Board.AdjacencySymmetric` |
| Board.NeighborCounts | backend/board_manager.py:88-115 | every intersection has two to four neighbours |
| Board.NeighborsAreIntersections | backend/board_manager.py:88-115 | every neighbour is an intersection on the board other than the cell itself |
| Board.NeighborsDistinct | backend/board_manager.py:88-115 | no neighbour is listed twice |
| Board.AdjacencySymmetric | backend/board_manager.py:88-115 | b is a neighbour of a exactly when a is a neighbour of b |
| Pieces.PackIdRoundTrip | backend/board_manager.py:166 | `id & 3` and `id >> 2` give back the player and the sequence number that were packed |
| Pieces.UnpackRoundTrip | backend/board_manager.py:196 | every ID is the packing of its own owner bits and sequence number |
| Pieces.PackId | backend/board_manager.py:166 | `count << 2` with the player's bits or-ed in, for an owner below 4; `Pieces.PackIdRoundTrip` shows it unpacks to its parts |
| Pieces.Owner | backend/board_manager.py:196 | `id & 3`, floored on negative IDs; given meaning by `Pieces.PackIdRoundTrip` and `Pieces.UnpackRoundTrip` |
| Pieces.Sequence | backend/board_manager.py:166 | `id >> 2`, floored on negative IDs; given meaning by `Pieces.PackIdRoundTrip` and `Pieces.UnpackRoundTrip` |
| Pieces.Holds | backend/board_manager.py:199 | NumPy's `cell == v`: an empty cell equals -1 and a `None` cell equals no integer; `Pieces.Stored` states the cell a write leaves |
| Pieces.OwnedBy | backend/board_manager.py:438-439 | the cell holds a piece whose owner bits are the player's; `Manager.BoardManager.OwnsCell` computes it |
| Pieces.Stored | backend/board_manager.py:273 | writing v into a cell leaves a cell that compares equal to v and to nothing else |
| Pieces.PutEmptyKeepsPieces | backend/board_manager.py:272 | emptying a cell keeps IDs distinct and owned by the players |
| Pieces.PutFreshKeepsPieces | backend/board_manager.py:169 | writing an ID that is on no cell keeps IDs distinct and owned by the players |
| Pieces.LocateFrom | backend/board_manager.py:313-314 | the scan from a flat index finds a cell holding v with no earlier match, or reports that no later cell holds v |
| Pieces.Locate | backend/board_manager.py:311-314 | `_pieceIDtoCoord`; `Pieces.LocateFindsFirst` states that it fails exactly when no cell holds the ID and otherwise gives the first such cell |
| Pieces.LocateFindsFirst | backend/board_manager.py:311-314 | locating v fails exactly when no cell holds v, and otherwise gives the first cell in row-major order that holds v |
| Pieces.LocateUnique | backend/board_manager.py:311-314 | with unique IDs a piece is found in the one cell that holds it |
| Pieces.OwnedUpToSpec | backend/board_manager.py:392-395 | the `np.where` scan lists exactly the player's cells, in strictly increasing row-major order |
| Pieces.OwnedUpTo | backend/board_manager.py:392-395 | the `np.where` scan over the first n cells; characterised by `Pieces.OwnedUpToSpec` |
| Pieces.OwnedCells | backend/board_manager.py:392-395 | the cells of a player's pieces in row-major order; `Pieces.OwnedUpToSpec` and `Pieces.OwnedCellsDistinct` characterise them |
| Pieces.Count | backend/board_manager.py:59 | how many pieces a player has on the board, which `total_pieces` tracks (see `Rules.Consistent` and `GameLaws.PlacedCounts`) |
| Pieces.CountNone | backend/board_manager.py:59 | a player with no piece on the board counts zero |
| Pieces.OwnedCellsDistinct | backend/board_manager.py:395 | each of a player's pieces is listed once |
| Pieces.OwnedUpToPut | backend/board_manager.py:169-172 | overwriting one cell changes the partial count by the pieces it adds and takes away |
| Pieces.CountPut | backend/board_manager.py:169-172 | overwriting one cell changes a player's count by the piece of that player it adds and the one it takes away |
| Pieces.ClearAll | backend/board_manager.py:209 | every cell that equals v becomes -1, every other cell is kept, and the layout is unchanged |
| Pieces.ClearAllEmptyMarker | backend/board_manager.py:209 | clearing the ID -1 leaves a board without piece -1 unchanged |
| Pieces.ClearAllUnique | backend/board_manager.py:209 | with unique IDs, clearing a present piece empties exactly its cell |
| Pieces.ValidSpot | backend/board_manager.py:317-337 | a spot is accepted, as the same (x, y), exactly when it is on the board and holds -1 |
| Pieces.ValidSpotIsEmptyIntersection | backend/board_manager.py:317-337 | on a board with the initial layout, a spot is accepted exactly when it is an empty intersection |
| Pieces.MovesAmong | backend/board_manager.py:379-385 | the possible moves are exactly the listed neighbours that are empty board cells |
| Pieces.PossibleMoves | backend/board_manager.py:370-385 | `_getPossibleMoves`: None where locating the ID raises, else the accepted neighbours (see `Pieces.MovesAmong`) |
| Pieces.Movable | backend/board_manager.py:402 | `if self._getPossibleMoves(id)`: the piece has an accepted neighbour; used by `Pieces.ActivePiecesSpec` |
| Pieces.ActiveEntry | backend/board_manager.py:399-403 | one pass of `_getActivePieces`' loop; `Pieces.ActiveAmongLast` states it for a piece of the player |
| Pieces.ActiveAmong | backend/board_manager.py:398-405 | the loop of `_getActivePieces` over given cells; characterised by `Pieces.ActiveAmongSpec` |
| Pieces.ActiveAmongSpec | backend/board_manager.py:398-405 | the scan over a player's cells lists exactly the IDs of the pieces that have an empty neighbour |
| Pieces.ActivePieces | backend/board_manager.py:387-405 | `_getActivePieces()` for a player; characterised by `Pieces.ActivePiecesSpec` and `Pieces.NoActivePieces` |
| Pieces.ActivePiecesSpec | backend/board_manager.py:387-405 | `_getActivePieces` lists exactly the IDs of the player's pieces that have an empty neighbour |
| Pieces.NoActivePieces | backend/board_manager.py:387-405 | a player has no active piece exactly when none of their pieces has an empty neighbour |
| Jare.Marked | backend/board_manager.py:447-450 | each recorded jare adds three cells to `piecesInJare` |
| Jare.ProbeStep | backend/board_manager.py:432-456 | one neighbour of the inner loop: skip it if marked, remember the first free ally, complete the jare at the second; see `Jare.ProbeAllSound` |
| Jare.ProbeAll | backend/board_manager.py:432-456 | the inner loop over a root's neighbours; `Jare.ProbeAllSound` and `Jare.ProbeAllFinal` state what it yields |
| Jare.RootStep | backend/board_manager.py:425-459 | one root of the outer loop; `Jare.RootStepSound` states that it keeps the scan sound |
| Jare.ScanRoots | backend/board_manager.py:422-459 | the outer loop over roots; `Jare.ScanRootsSound` and `Jare.ScanRootsExtends` state what it records |
| Jare.FindJares | backend/board_manager.py:409-459 | the jares one run of `_madeNewJare` records; `Jare.ScanRootsSound` and `Jare.CornerIsJare` are about it |
| Jare.JareCount | backend/board_manager.py:445 | `totalJare` at the end of the scan; bounded by `Jare.JareBound` |
| Jare.ProbeAllSound | backend/board_manager.py:432-456 | the ally remembered, and the two allies that complete a jare, are different free pieces of the player among the neighbours |
| Jare.ProbeAllFinal | backend/board_manager.py:456 | after the `break` the remaining neighbours change nothing |
| Jare.RootStepSound | backend/board_manager.py:425-459 | examining one more root keeps every recorded jare a jare of the player, with no cell claimed twice |
| Jare.ScanRootsSound | backend/board_manager.py:422-459 | every jare the scan records is a root with two distinct neighbouring pieces of the player, and no cell is claimed by two jares |
| Jare.JareBound | backend/board_manager.py:409-459 | the jare count is at most a third of the player's pieces |
| Jare.ScanRootsExtends | backend/board_manager.py:422-459 | a longer scan keeps the jares its prefix found |
| Jare.CornerRootStep | backend/board_manager.py:432-456 | the root (0, 0) with allies at (0, 3) and (3, 0) completes a jare |
| Jare.CornerFirst | backend/board_manager.py:419 | a piece at (0, 0) is the first the scan visits |
| Jare.CornerIsJare | backend/board_manager.py:422-456 | pieces at (0, 0), (0, 3) and (3, 0) form the first jare found, although they are not in a line |
| Rules.Start | backend/board_manager.py:118-139 | a new game is in PLACEMENT with player 0 to move, zero piece and jare counts, no first jare, and the initial board |
| Rules.StartConsistent | backend/board_manager.py:118-139 | a new game starts from a consistent state |
| Rules.StartAsWritten | backend/board_manager.py:120-139 | `startGame` as written resets counters, turn and stage but keeps the board |
| Rules.End | backend/board_manager.py:143-149 | `endGame` stops the game and changes nothing else |
| Rules.NewJare | backend/board_manager.py:461-467 | a new jare is reported exactly when the fresh count exceeds the recorded one; the player's entry becomes the fresh count and the other entry is kept |
| Rules.ChangeStage | backend/board_manager.py:340-367 | the stage becomes the target; entering FIRST_REMOVAL hands the turn to the first player to make a jare, or to player 1; nothing else changes |
| Rules.NextTurn | backend/board_manager.py:180 | the next turn is a player, and with two players it is the other one |
| Rules.PreviousTurn | backend/board_manager.py:297 | the floored `(t - 1) % 2` is a player, and with two players it is the other one |
| Rules.RemovalStarter | backend/board_manager.py:349-353 | the player who removes first: `firstToJare` if set, else player 1; used by `Rules.ChangeStage` and `GameLaws.FirstRemovalTurns` |
| Rules.GameOver | backend/board_manager.py:471-476 | `_isGameOver`: some count is at most MIN_PIECES; `GameLaws.AfterRemovalStops` relates it to the board |
| Rules.AllPlaced | backend/board_manager.py:185 | `np.all(total_pieces >= MAX_PIECES)`; `GameLaws.PlacementEnds` states when it ends placement |
| Rules.Place | backend/board_manager.py:154-190 | `placePiece` is ignored and changes nothing, or it replies success with the same (x, y) and the new turn |
| Rules.NextId | backend/board_manager.py:166 | the ID of the mover's next piece; `GameLaws.PlaceWritesOnePiece` and `GameLaws.PlacedIdIsFresh` state its owner, sequence number and freshness |
| Rules.PlaceAt | backend/board_manager.py:165-190 | an accepted placement replies with the next ID and writes that ID into the spot |
| Rules.Placed | backend/board_manager.py:166-180 | the new piece is written, its owner's count goes up by one, the stage is kept and the turn passes |
| Rules.Remove | backend/board_manager.py:194-209 | `removePiece` is ignored and changes nothing; otherwise the board is the old one with v cleared, and a reply carries v and the new turn |
| Rules.Charge | backend/board_manager.py:196-212 | the removal raises exactly when the owner bits of v name no player, and then the state is left as it was |
| Rules.AfterRemoval | backend/board_manager.py:214-242 | after a removal the board, the counts and the jare records are kept, and the reply carries v and the new turn |
| Rules.Move | backend/board_manager.py:250-306 | `movePiece` is ignored exactly outside MOVEMENT; when ignored, raised or rejected it changes nothing |
| Rules.Rejected | backend/board_manager.py:261 | the failure reply of `movePiece` (also line 305); `GameLaws.MoveOutcomes` states exactly when it is sent |
| Rules.Moved | backend/board_manager.py:272-273 | the board after a piece steps; `GameLaws.MovePieceBoard` and `GameLaws.MoveStepsOnePiece` state its effect |
| Rules.MoveAlong | backend/board_manager.py:270-301 | an accepted move replies success with the new spot, steps the piece there, and keeps the counts and the first-jare record |
| Rules.PassTurn | backend/board_manager.py:287-297 | the turn stays with the mover exactly when the other player has no active piece, and otherwise passes to the other player |
| Rules.EmptyInitialGrid | backend/board_manager.py:79-85 | the initial board holds no piece |
| GameLaws.InitialConsistent | backend/board_manager.py:47-85 | the constructor's state is consistent |
| GameLaws.EndConsistent | backend/board_manager.py:143-149 | `endGame` keeps the invariant |
| GameLaws.PlacedIdIsFresh | backend/board_manager.py:166 | the ID a placement writes is on no cell yet |
| GameLaws.PlacedBoard | backend/board_manager.py:166-169 | after a placement, IDs are still distinct and owned by the players |
| GameLaws.PlaceAtConsistent | backend/board_manager.py:165-190 | an accepted placement keeps the invariant |
| GameLaws.PlacedConsistent | backend/board_manager.py:166-180 | the state right after the piece is placed is consistent |
| GameLaws.PlacedCounts | backend/board_manager.py:169-172 | after a placement, `total_pieces` still counts each player's pieces |
| GameLaws.PlacedSequences | backend/board_manager.py:166-172 | after a placement, every sequence number on the board is below its owner's count |
| GameLaws.PlaceConsistent | backend/board_manager.py:154-190 | `placePiece` keeps the invariant |
| GameLaws.AfterRemovalConsistent | backend/board_manager.py:214-242 | the stage transitions after a removal keep the invariant |
| GameLaws.Removed | backend/board_manager.py:209-212 | taking a piece off empties its cell and keeps the layout |
| GameLaws.RemovedConsistent | backend/board_manager.py:209-212 | emptying a piece's cell and lowering its owner's count keeps the invariant |
| GameLaws.RemovePresentConsistent | backend/board_manager.py:194-242 | removing an opponent's piece that is on the board keeps the invariant |
| GameLaws.RemoveConsistent | backend/board_manager.py:194-242 | `removePiece` keeps the invariant |
| GameLaws.MoveEmptyMarkerBoard | backend/board_manager.py:272-273 | "moving" the ID -1 between two empty cells leaves the board as it is |
| GameLaws.MovePieceBoard | backend/board_manager.py:272-273 | moving a piece to an empty cell keeps the layout, distinct IDs and every count |
| GameLaws.MoveAlongConsistent | backend/board_manager.py:270-301 | an accepted move keeps the invariant |
| GameLaws.SameBoardConsistent | backend/board_manager.py:283-297 | changing only the turn, the jare records and the stage outside PLACEMENT and STOPPED keeps the invariant |
| GameLaws.MoveConsistent | backend/board_manager.py:250-306 | `movePiece` keeps the invariant |
| GameLaws.PlaceIgnoredIff | backend/board_manager.py:154-160 | `placePiece` does nothing exactly outside PLACEMENT or on a spot that is not an empty board cell |
| GameLaws.PlaceWritesOnePiece | backend/board_manager.py:165-172 | a placement writes one new piece of the mover, numbered by their previous count, raises that count by one and changes no other cell or count |
| GameLaws.PlacementEnds | backend/board_manager.py:179-187 | placement ends exactly when every player has MAX_PIECES out, and the first removal then starts with the removal starter; until then the turn alternates |
| GameLaws.FirstToJareSetOnce | backend/board_manager.py:174-176 | `firstToJare`, once set, is never overwritten; it is set by a placement that makes a new jare, to the player who placed |
| GameLaws.RemoveIgnoredIff | backend/board_manager.py:195-206 | `removePiece` does nothing exactly outside the removal stages, for an ID no cell holds, or for a piece of the mover |
| GameLaws.RemoveRaisesOnlyOnEmptyMarker | backend/board_manager.py:196-212 | on a consistent state, removal raises exactly for the ID -1 while some cell is empty, and then changes nothing |
| GameLaws.RemoveIsRemoved | backend/board_manager.py:208-212 | with unique IDs, removing a piece is emptying its cell and lowering its owner's count, followed by the stage transitions |
| GameLaws.AfterRemovalStops | backend/board_manager.py:214-218 | the game stops after a removal exactly when a player is down to MIN_PIECES or fewer, and the reply then lists no active pieces |
| GameLaws.RemoveTakesOnePiece | backend/board_manager.py:208-218 | a removal empties exactly the piece's cell, lowers its owner's count by one, keeps the other count, and stops the game exactly when a player is down to MIN_PIECES |
| GameLaws.FirstRemovalTurns | backend/board_manager.py:226-242 | in FIRST_REMOVAL each removal passes the turn, and MOVEMENT begins exactly when the turn is back with the removal starter; the reply then lists the active pieces of the new player to move, and otherwise none |
| GameLaws.FirstRemovalRound | backend/board_manager.py:226-234 | FIRST_REMOVAL gives each player exactly one removal and then starts MOVEMENT with the starting player |
| GameLaws.RemovalKeepsTurn | backend/board_manager.py:236-242 | REMOVAL returns to MOVEMENT with the same player to move, who is sent their active pieces |
| GameLaws.LocatedIsIntersection | backend/board_manager.py:265-268 | the lookup in the adjacency table never misses: any located cell is an intersection |
| GameLaws.MoveOutcomes | backend/board_manager.py:257-306 | in MOVEMENT a move raises exactly when the spot is accepted but no cell holds the ID, and is rejected exactly when the spot is not empty or not adjacent |
| GameLaws.MoveIsMoveAlong | backend/board_manager.py:264-273 | a move to an accepted, adjacent spot steps the piece from the cell where it was found |
| GameLaws.MoveStepsOnePiece | backend/board_manager.py:270-273 | a move empties the piece's old cell, puts it in the new one and changes no other cell and no count |
| GameLaws.MovedPieces | backend/board_manager.py:272-273 | after an accepted move, IDs are still distinct and owned by the players |
| GameLaws.PassTurnStuck | backend/board_manager.py:288-297 | the turn stays with the mover exactly when none of the other player's pieces has an empty neighbour |
| GameLaws.MoveAlongTurnRules | backend/board_manager.py:277-301 | after an accepted move: REMOVAL with the mover to play and no active pieces listed exactly on a new jare; otherwise MOVEMENT, the reply lists the other player's active pieces, and the turn passes unless the other player is stuck |
| GameLaws.MoveTurnRules | backend/board_manager.py:277-301 | the same turn rules and active-piece lists, stated for `movePiece` itself |
| GameLaws.PlaceStages | backend/board_manager.py:185-186 | placement moves the stage only from PLACEMENT to FIRST_REMOVAL |
| GameLaws.RemoveStages | backend/board_manager.py:215-239 | removal keeps the stage, stops the game, or goes from a removal stage to MOVEMENT |
| GameLaws.MoveStages | backend/board_manager.py:283-284 | a move keeps the stage or goes from MOVEMENT to REMOVAL |
| GameLaws.NewJareSettles | backend/board_manager.py:461-467 | a second jare check on an unchanged board reports nothing new and changes nothing |
| GameLaws.PlacedCell | backend/board_manager.py:166-169 | placing on an empty cell during PLACEMENT writes the next ID there and nowhere else |
| GameLaws.FirstPlacement | backend/board_manager.py:166-169 | the first placement of a new game writes ID 0 at (0, 0) |
| GameLaws.RestartAsWrittenDuplicatesIds | backend/board_manager.py:120-139 | after a restart as written, a board holding ID 0 is inconsistent, and the first placement writes ID 0 a second time |
| GameLaws.RestartKeepsIdsUnique | backend/board_manager.py:118-139 | with the corrected restart, the state is consistent and the first placement keeps IDs unique |
| Manager.BoardManager.constructor | backend/board_manager.py:26-115 | the new manager holds the initial state, and it is consistent |
| Manager.BoardManager.SetCell | backend/board_manager.py:169 | one array cell is written and the rest of the board is kept |
| Manager.BoardManager.IsValidSpot | backend/board_manager.py:317-337 | returns the value of `ValidSpot` on the current board |
| Manager.BoardManager.PieceIdToCoord | backend/board_manager.py:311-314 | the row-major loop returns the first cell holding the ID, or None where Python raises |
| Manager.BoardManager.PlayerIndices | backend/board_manager.py:392-395 | the loop returns the player's cells in row-major order |
| Manager.BoardManager.ClearPiece | backend/board_manager.py:209 | the nested loop leaves the board with every cell equal to the ID set to -1 |
| Manager.BoardManager.GetPossibleMoves | backend/board_manager.py:370-385 | returns the empty neighbours of the piece's cell, or None where locating it raises |
| Manager.BoardManager.ValidAmong | backend/board_manager.py:379-383 | the loop keeps the accepted spots, in order |
| Manager.BoardManager.GetActivePieces | backend/board_manager.py:387-405 | the loop returns the IDs of the mover's pieces that can move, in row-major order |
| Manager.BoardManager.ActiveEntryAt | backend/board_manager.py:399-403 | one pass appends the cell's ID exactly when that piece has possible moves |
| Manager.BoardManager.IsGameOver | backend/board_manager.py:471-476 | returns true exactly when some count is at most MIN_PIECES |
| Manager.BoardManager.PlacePiece | backend/board_manager.py:154-190 | leaves the state and returns the outcome of `Rules.Place`, and keeps the invariant |
| Manager.BoardManager.PlaceAt | backend/board_manager.py:165-190 | leaves the state and returns the outcome of `Rules.PlaceAt` |
| Manager.BoardManager.PutPiece | backend/board_manager.py:166-180 | leaves the state of `Rules.Placed` |
| Manager.BoardManager.Occupy | backend/board_manager.py:169-172 | writes the ID and raises the mover's count by one |
| Manager.BoardManager.RemovePiece | backend/board_manager.py:194-242 | leaves the state and returns the outcome of `Rules.Remove`, and keeps the invariant |
| Manager.BoardManager.RemovePresent | backend/board_manager.py:208-242 | clears the ID, then continues as `Rules.Remove` |
| Manager.BoardManager.Charge | backend/board_manager.py:212-242 | leaves the state and returns the outcome of `Rules.Charge`, raising when the owner bits name no player |
| Manager.BoardManager.AfterRemoval | backend/board_manager.py:214-242 | leaves the state and returns the outcome of `Rules.AfterRemoval` |
| Manager.BoardManager.MovePiece | backend/board_manager.py:250-306 | leaves the state and returns the outcome of `Rules.Move`, and keeps the invariant |
| Manager.BoardManager.MoveTo | backend/board_manager.py:264-306 | once the spot is accepted, leaves the state and returns the outcome of `Rules.Move` |
| Manager.BoardManager.MoveAlong | backend/board_manager.py:270-301 | leaves the state and returns the outcome of `Rules.MoveAlong` |
| Manager.BoardManager.MadeNewJare | backend/board_manager.py:409-467 | returns and records what `Rules.NewJare` gives for the mover |
| Manager.BoardManager.CountJares | backend/board_manager.py:410-459 | the scan loop counts exactly the jares of the greedy detector |
| Manager.BoardManager.ProbeNeighbors | backend/board_manager.py:432-456 | the neighbour loop, with its `break`, yields the probe of `Jare.ProbeAll` |
| Manager.BoardManager.ChangeStage | backend/board_manager.py:340-367 | leaves the state of `Rules.ChangeStage` |
| Manager.BoardManager.EndGame | backend/board_manager.py:143-149 | leaves the state of `Rules.End`, and keeps the invariant when it held before |
| Manager.BoardManager.StartGame | backend/board_manager.py:118-139 | leaves the consistent state of `Rules.Start` and returns that the game runs |
| Manager.BoardManager.ResetBoard | backend/board_manager.py:79-85 | writes the initial board back into `boardState` |
| Manager.BoardManager.OwnsCell | backend/board_manager.py:438-439 | the neighbour test holds exactly when the cell holds a piece whose owner bits are the player's |

## Left out

- Scene coordinates are integers. The float snapping of `_isValidSpot` (`round` and `MARGIN_OF_ERROR`) is not modelled, and neither are the float fields of the signals.
- `placePiece` indexes `boardState[y][x]` with its raw arguments (line 169), not with the rounded spot `_isValidSpot` returns. The UI passes floats (`pos.x()`, `pos.y()`), and NumPy refuses float indices. The model writes to the accepted spot, so this crash does not occur in it. On integer arguments, the only kind the model takes, the two are the same cell.
- `total_pieces` and `currentJare` are NumPy `int8` arrays. The model uses unbounded integers. No reachable count exceeds 5, so no wrap-around occurs in play.
- The Qt signals are modelled as the `Replied` outcome of each action. The `gameEnded` signal of `endGame` is implied by the STOPPED stage. `gameStarted` is never emitted by the class.
- `print` output is not modelled. This includes the prints of `_changeStage` for PLACEMENT, REMOVAL and MOVEMENT, which only print and set the stage.
- `game_piece.py`, the UI and `main.py` are not part of this model.
- Rules.Remove: where Python raises IndexError (`total_pieces[3]` for the ID -1), the model returns `Raised` with the state at the point of the raise. The board has already been cleared of -1 by then, which changes nothing on a consistent board.
- Rules.Move: where `_pieceIDtoCoord` raises IndexError, the model returns `Raised`. The KeyError of `adjacentPieces[...]` cannot occur, as `GameLaws.LocatedIsIntersection` shows, so it is not modelled.
- `movePiece` does not check that the moved piece belongs to the player to move. The model keeps this, as the source does.
- An occupied or invalid target makes `placePiece` return without a signal. The model follows the code and returns `Ignored`, not a failure reply.
- REMOVAL returns to MOVEMENT without advancing the turn (lines 236-239). The model follows the code.
- The `nextStage` strings are written directly in each branch's reply.
- `startGame` is modelled as its comment describes it, with the board reset (see Findings). The as-written version is kept as `Rules.StartAsWritten`.
- Each `Manager.BoardManager` method is proved to leave the state its `Rules` function gives. `GameLaws` proves the game's properties about those functions.

## Findings

| source | as written | input that shows it | evidently intended | confidence | as-written member | corrected member |
|---|---|---|---|---|---|---|
| backend/board_manager.py:118-139 | `startGame` resets the counters, the turn and the stage, but not `boardState`, although its comment says it sets the board to all its initial values | play a game in which player 0 places at (0, 0) (ID 0), then call `startGame` and place at any other empty cell: that cell also gets ID 0, and `total_pieces` no longer counts the board | `startGame` also writes the initial board back | not executed | GameLaws.RestartAsWrittenDuplicatesIds | GameLaws.RestartKeepsIdsUnique |
