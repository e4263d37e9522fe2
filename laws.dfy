/** What the stage machine promises: the invariant `Consistent` holds in every
    state the actions reach, and each action obeys the rules of its stage. */
module GameLaws {
  import opened Board
  import opened Pieces
  import opened Jare
  import opened Rules

  // ============================================================ invariant

  /** The constructor's state is consistent. */
  lemma InitialConsistent()
    ensures Consistent(Initial)
  {
    EmptyInitialGrid();
    CountNone(InitialGrid, 0);
    CountNone(InitialGrid, 1);
  }

  /** `endGame` keeps the invariant. */
  lemma EndConsistent(s: Snapshot)
    requires Consistent(s)
    ensures Consistent(End(s))
  {
  }

  /** The ID a successful placement writes is on no cell yet. */
  lemma PlacedIdIsFresh(s: Snapshot)
    requires Consistent(s) && s.stage == Placement
    ensures forall d | InBoard(d) :: At(s.board, d) != Occupied(PackId(s.totalPieces[s.turn], s.turn))
  {
    var id := PackId(s.totalPieces[s.turn], s.turn);
    PackIdRoundTrip(s.totalPieces[s.turn], s.turn);
    forall d | InBoard(d)
      ensures At(s.board, d) != Occupied(id)
    {
      if At(s.board, d).Occupied? && Owner(At(s.board, d).id) == s.turn {
        assert Sequence(At(s.board, d).id) < s.totalPieces[s.turn];
      }
    }
  }

  /** The board after a placement on the empty cell c still holds distinct
      IDs of the two players. */
  lemma PlacedBoard(s: Snapshot, c: Coord)
    requires Consistent(s) && s.stage == Placement && InBoard(c) && At(s.board, c) == Empty
    ensures UniqueIds(Put(s.board, c, Occupied(NextId(s)))) && OwnersValid(Put(s.board, c, Occupied(NextId(s))))
  {
    PackIdRoundTrip(s.totalPieces[s.turn], s.turn);
    PlacedIdIsFresh(s);
    PutFreshKeepsPieces(s.board, c, NextId(s));
  }

  /** A placement keeps the invariant. */
  lemma PlaceAtConsistent(s: Snapshot, c: Coord)
    requires Consistent(s) && s.stage == Placement && InBoard(c) && At(s.board, c) == Empty
    ensures Consistent(PlaceAt(s, c).next)
  {
    PlacedConsistent(s, c);
    assert Consistent(ChangeStage(Placed(s, c), FirstRemoval));
  }

  /** The state right after the piece is placed is consistent. */
  lemma PlacedConsistent(s: Snapshot, c: Coord)
    requires Consistent(s) && s.stage == Placement && InBoard(c) && At(s.board, c) == Empty
    ensures Consistent(Placed(s, c))
  {
    var s1 := Placed(s, c);
    assert UniqueIds(s1.board) && OwnersValid(s1.board) by {
      PlacedBoard(s, c);
    }
    PlacedCounts(s, c);
    PlacedSequences(s, c);
  }

  /** After a placement `total_pieces` still counts each player's pieces. */
  lemma PlacedCounts(s: Snapshot, c: Coord)
    requires Consistent(s) && s.stage == Placement && InBoard(c) && At(s.board, c) == Empty
    ensures forall q | IsPlayer(q) :: Placed(s, c).totalPieces[q] == Count(Placed(s, c).board, q)
  {
    var s1 := Placed(s, c);
    forall q | IsPlayer(q)
      ensures s1.totalPieces[q] == Count(s1.board, q)
    {
      CountPut(s.board, q, c, Occupied(NextId(s)));
      PackIdRoundTrip(s.totalPieces[s.turn], s.turn);
    }
  }

  /** After a placement every sequence number on the board is below its
      owner's count. */
  lemma PlacedSequences(s: Snapshot, c: Coord)
    requires Consistent(s) && s.stage == Placement && InBoard(c) && At(s.board, c) == Empty
    ensures var s1 := Placed(s, c);
      OwnersValid(s1.board) &&
      forall d | InBoard(d) && At(s1.board, d).Occupied? ::
        Sequence(At(s1.board, d).id) < s1.totalPieces[Owner(At(s1.board, d).id)]
  {
    var s1 := Placed(s, c);
    assert OwnersValid(s1.board) by {
      PlacedBoard(s, c);
    }
    PackIdRoundTrip(s.totalPieces[s.turn], s.turn);
    forall d | InBoard(d) && At(s1.board, d).Occupied?
      ensures Sequence(At(s1.board, d).id) < s1.totalPieces[Owner(At(s1.board, d).id)]
    {
      if d != c {
        assert At(s1.board, d) == At(s.board, d);
      }
    }
  }

  /** `placePiece` keeps the invariant. */
  lemma PlaceConsistent(s: Snapshot, x: int, y: int)
    requires Consistent(s)
    ensures Consistent(Place(s, x, y).next)
  {
    if s.stage == Placement && ValidSpot(s.board, x, y).Some? {
      PlaceAtConsistent(s, (x, y));
    }
  }

  /** The stage transitions after a removal keep the invariant. */
  lemma AfterRemovalConsistent(s: Snapshot, v: int)
    requires Consistent(s) && (s.stage == FirstRemoval || s.stage == Removal)
    ensures Consistent(AfterRemoval(s, v).next)
  {
  }

  /** The state after the piece in cell c is taken off the board and its
      owner's count is lowered. */
  function Removed(s: Snapshot, c: Coord): (r: Snapshot)
    requires Shaped(s) && InBoard(c) && At(s.board, c).Occupied?
    ensures Shaped(r) && r.board == Put(s.board, c, Empty)
  {
    PutKeepsLayout(s.board, c, Empty);
    var q := Owner(At(s.board, c).id);
    s.(board := Put(s.board, c, Empty),
       totalPieces := if IsPlayer(q) then s.totalPieces[q := s.totalPieces[q] - 1] else s.totalPieces)
  }

  /** Taking a piece off the board keeps the invariant outside placement. */
  lemma RemovedConsistent(s: Snapshot, c: Coord)
    requires Consistent(s) && s.stage != Placement && InBoard(c) && At(s.board, c).Occupied?
    ensures Consistent(Removed(s, c))
  {
    var q := Owner(At(s.board, c).id);
    var board := Put(s.board, c, Empty);
    PutEmptyKeepsPieces(s.board, c);
    CountPut(s.board, q, c, Empty);
    CountPut(s.board, 1 - q, c, Empty);
    PutKeepsLayout(s.board, c, Empty);
    assert Count(board, q) == s.totalPieces[q] - 1;
    assert Count(board, 1 - q) == s.totalPieces[1 - q];
  }

  /** Removing a piece that is on the board keeps the invariant. */
  lemma RemovePresentConsistent(s: Snapshot, c: Coord)
    requires Consistent(s) && (s.stage == Removal || s.stage == FirstRemoval)
    requires InBoard(c) && At(s.board, c).Occupied? && Owner(At(s.board, c).id) != s.turn
    ensures Consistent(Remove(s, At(s.board, c).id).next)
  {
    var v := At(s.board, c).id;
    PlayerIdsAreNotEmptyMarker(s.board, c);
    LocateUnique(s.board, c);
    ClearAllUnique(s.board, c);
    RemovedConsistent(s, c);
    AfterRemovalConsistent(Removed(s, c), v);
    assert Remove(s, v) == AfterRemoval(Removed(s, c), v);
  }

  /** `removePiece` keeps the invariant. */
  lemma RemoveConsistent(s: Snapshot, v: int)
    requires Consistent(s)
    ensures Consistent(Remove(s, v).next)
  {
    if (s.stage == Removal || s.stage == FirstRemoval) && Locate(s.board, v).Some? && Owner(v) != s.turn {
      var c := Locate(s.board, v).value;
      LocateFindsFirst(s.board, v);
      if v == -1 {
        ClearAllEmptyMarker(s.board);
        assert Remove(s, v).next == s;
      } else {
        RemovePresentConsistent(s, c);
      }
    }
  }

  /** A move whose piece is the empty marker -1 leaves the board as it is. */
  lemma MoveEmptyMarkerBoard(g: Grid, from: Coord, spot: Coord)
    requires WellShaped(g) && InBoard(from) && InBoard(spot)
    requires At(g, from) == Empty && At(g, spot) == Empty
    ensures Put(Put(g, from, Empty), spot, Stored(-1)) == g
  {
    GridExt(Put(Put(g, from, Empty), spot, Stored(-1)), g);
  }

  /** Moving piece v from `from` to the empty cell `spot` keeps the IDs
      distinct, the layout and every player's count. */
  lemma MovePieceBoard(g: Grid, v: int, from: Coord, spot: Coord)
    requires SameLayout(g) && UniqueIds(g) && OwnersValid(g)
    requires InBoard(from) && InBoard(spot) && At(g, from) == Occupied(v) && At(g, spot) == Empty
    ensures var h := Put(Put(g, from, Empty), spot, Stored(v));
      SameLayout(h) && UniqueIds(h) && OwnersValid(h) && forall q :: Count(h, q) == Count(g, q)
  {
    PlayerIdsAreNotEmptyMarker(g, from);
    var g1 := Put(g, from, Empty);
    PutKeepsLayout(g, from, Empty);
    PutEmptyKeepsPieces(g, from);
    assert forall d | InBoard(d) :: At(g1, d) != Occupied(v);
    PutFreshKeepsPieces(g1, spot, v);
    PutKeepsLayout(g1, spot, Occupied(v));
    forall q
      ensures Count(Put(g1, spot, Occupied(v)), q) == Count(g, q)
    {
      CountPut(g, q, from, Empty);
      CountPut(g1, q, spot, Occupied(v));
    }
  }

  /** An accepted move keeps the invariant. */
  lemma MoveAlongConsistent(s: Snapshot, v: int, from: Coord, spot: Coord)
    requires Consistent(s) && s.stage == Movement
    requires InBoard(from) && InBoard(spot) && Holds(At(s.board, from), v) && At(s.board, spot) == Empty
    ensures Consistent(MoveAlong(s, v, from, spot).next)
  {
    var s1 := s.(board := Moved(s.board, v, from, spot));
    assert Consistent(s1) by {
      if v == -1 {
        MoveEmptyMarkerBoard(s.board, from, spot);
      } else {
        MovePieceBoard(s.board, v, from, spot);
      }
    }
    var r := MoveAlong(s, v, from, spot).next;
    assert r.stage == Removal || r.stage == Movement;
    assert r.running == s.running && IsPlayer(r.turn) && |r.currentJare| == TotalPlayers;
    SameBoardConsistent(s1, r);
  }

  /** A state that differs from a consistent one, outside PLACEMENT and
      STOPPED, only in whose turn it is, in `currentJare` and in the stage
      is consistent. */
  lemma SameBoardConsistent(s: Snapshot, r: Snapshot)
    requires Consistent(s) && s.stage != Stopped
    requires r.board == s.board && r.totalPieces == s.totalPieces && r.firstToJare == s.firstToJare
    requires r.running == s.running && r.stage != Stopped && r.stage != Placement
    requires IsPlayer(r.turn) && |r.currentJare| == TotalPlayers
    ensures Consistent(r)
  {
  }

  /** `movePiece` keeps the invariant. */
  lemma MoveConsistent(s: Snapshot, v: int, x: int, y: int)
    requires Consistent(s)
    ensures Consistent(Move(s, v, x, y).next)
  {
    if s.stage == Movement && ValidSpot(s.board, x, y).Some? && Locate(s.board, v).Some? {
      var from := Locate(s.board, v).value;
      LocateFindsFirst(s.board, v);
      if (x, y) in Neighbors(from) {
        MoveAlongConsistent(s, v, from, (x, y));
      }
    }
  }

  // ============================================================ placement

  /** `placePiece` does nothing outside PLACEMENT and on a spot that is not
      an empty cell of the board. */
  lemma PlaceIgnoredIff(s: Snapshot, x: int, y: int)
    requires Shaped(s)
    ensures Place(s, x, y).out.Ignored? <==>
      s.stage != Placement || !InBoard((x, y)) || At(s.board, (x, y)) != Empty
  {
  }

  /** A successful placement writes one new piece of the player to move
      into the empty cell, numbered by that player's previous count, raises
      that count by one and changes no other cell or count. */
  lemma PlaceWritesOnePiece(s: Snapshot, x: int, y: int)
    requires Consistent(s) && s.stage == Placement && InBoard((x, y)) && At(s.board, (x, y)) == Empty
    ensures var r := Place(s, x, y); var id := r.out.reply.id;
      r.out.Replied? && Owner(id) == s.turn && Sequence(id) == s.totalPieces[s.turn] &&
      At(r.next.board, (x, y)) == Occupied(id) &&
      (forall d | d != (x, y) :: At(r.next.board, d) == At(s.board, d)) &&
      r.next.totalPieces[s.turn] == s.totalPieces[s.turn] + 1 &&
      r.next.totalPieces[1 - s.turn] == s.totalPieces[1 - s.turn]
  {
    PackIdRoundTrip(s.totalPieces[s.turn], s.turn);
    PlaceAtConsistent(s, (x, y));
  }

  /** Placement ends exactly when every player has MAX_PIECES out; the
      first removal then starts with the first player to make a jare, or
      with player 1. Until then the turn alternates. */
  lemma PlacementEnds(s: Snapshot, x: int, y: int)
    requires Consistent(s) && s.stage == Placement && InBoard((x, y)) && At(s.board, (x, y)) == Empty
    ensures var r := Place(s, x, y).next;
      (r.stage == FirstRemoval <==> forall p | IsPlayer(p) :: r.totalPieces[p] >= MaxPieces) &&
      (r.stage != FirstRemoval ==> r.stage == Placement && r.turn == 1 - s.turn) &&
      (r.stage == FirstRemoval ==> r.turn == RemovalStarter(r))
  {
    PlaceAtConsistent(s, (x, y));
  }

  /** `firstToJare` is set by a placement that makes the first jare of the
      game, to the player who placed, and is never overwritten by any
      action. */
  lemma FirstToJareSetOnce(s: Snapshot, x: int, y: int, v: int)
    requires Consistent(s)
    ensures s.firstToJare.Some? ==>
      Place(s, x, y).next.firstToJare == s.firstToJare &&
      Remove(s, v).next.firstToJare == s.firstToJare &&
      Move(s, v, x, y).next.firstToJare == s.firstToJare
    ensures s.firstToJare.None? && Place(s, x, y).out.Replied? ==>
      var r := Place(s, x, y).next;
      (r.firstToJare.Some? <==> s.currentJare[s.turn] < JareCount(r.board, s.turn)) &&
      (r.firstToJare.Some? ==> r.firstToJare.value == s.turn)
  {
  }

  // ============================================================= removal

  /** `removePiece` does nothing outside the removal stages, for an ID no
      cell holds, and for a piece of the player to move. */
  lemma RemoveIgnoredIff(s: Snapshot, v: int)
    requires Shaped(s)
    ensures Remove(s, v).out.Ignored? <==>
      (s.stage != Removal && s.stage != FirstRemoval) ||
      (forall c :: InBoard(c) ==> !Holds(At(s.board, c), v)) ||
      Owner(v) == s.turn
  {
    LocateFindsFirst(s.board, v);
  }

  /** On a consistent board the only ID that raises is the empty marker -1
      (owner `-1 & 3` = 3 indexes past `total_pieces`), and it raises as soon
      as some cell is empty. */
  lemma RemoveRaisesOnlyOnEmptyMarker(s: Snapshot, v: int)
    requires Consistent(s)
    ensures Remove(s, v).out.Raised? <==>
      (s.stage == Removal || s.stage == FirstRemoval) && v == -1 &&
      exists c :: InBoard(c) && At(s.board, c) == Empty
    ensures Remove(s, v).out.Raised? ==> Remove(s, v).next == s
  {
    if s.stage == Removal || s.stage == FirstRemoval {
      LocateFindsFirst(s.board, v);
      if Locate(s.board, v).None? {
        assert v == -1 ==> forall c :: InBoard(c) ==> At(s.board, c) != Empty by {
          assert Holds(Empty, -1);
        }
      } else if v != -1 {
        var c := Locate(s.board, v).value;
        assert At(s.board, c) == Occupied(v);
        assert IsPlayer(Owner(v));
      } else {
        var c := Locate(s.board, v).value;
        assert At(s.board, c) == Empty;
        assert Owner(v) == 3;
        assert Remove(s, v) == Charge(s.(board := ClearAll(s.board, v)), v);
        ClearAllEmptyMarker(s.board);
      }
    }
  }

  /** With unique IDs, removing the piece in cell c is taking it off the
      board followed by the stage transitions. */
  lemma RemoveIsRemoved(s: Snapshot, c: Coord)
    requires Consistent(s) && (s.stage == Removal || s.stage == FirstRemoval)
    requires InBoard(c) && At(s.board, c).Occupied? && Owner(At(s.board, c).id) != s.turn
    ensures Remove(s, At(s.board, c).id) == AfterRemoval(Removed(s, c), At(s.board, c).id)
  {
    var v := At(s.board, c).id;
    PutKeepsLayout(s.board, c, Empty);
    var cleared := s.(board := Put(s.board, c, Empty));
    assert Remove(s, v) == Charge(cleared, v) by {
      PlayerIdsAreNotEmptyMarker(s.board, c);
      LocateUnique(s.board, c);
      ClearAllUnique(s.board, c);
    }
    assert Removed(s, c) == cleared.(totalPieces := s.totalPieces[Owner(v) := s.totalPieces[Owner(v)] - 1]);
  }

  /** The game stops after a removal exactly when a player is down to
      MIN_PIECES or fewer. */
  lemma AfterRemovalStops(s: Snapshot, v: int)
    requires Consistent(s) && (s.stage == Removal || s.stage == FirstRemoval)
    ensures AfterRemoval(s, v).next.stage == Stopped <==>
      exists p | IsPlayer(p) :: Count(s.board, p) <= MinPieces
    ensures AfterRemoval(s, v).next.stage == Stopped ==> AfterRemoval(s, v).out.reply.active == []
  {
    if GameOver(s.totalPieces) {
      var i :| 0 <= i < |s.totalPieces| && s.totalPieces[i] <= MinPieces;
      assert IsPlayer(i);
    }
  }

  /** A successful removal empties exactly the cell of the piece, lowers its
      owner's count by one and leaves the other count; the game stops exactly
      when a player is down to MIN_PIECES or fewer. */
  lemma RemoveTakesOnePiece(s: Snapshot, c: Coord)
    requires Consistent(s) && (s.stage == Removal || s.stage == FirstRemoval)
    requires InBoard(c) && At(s.board, c).Occupied? && Owner(At(s.board, c).id) != s.turn
    ensures var v := At(s.board, c).id; var q := Owner(v); var r := Remove(s, v);
      r.out.Replied? && IsPlayer(q) &&
      r.next.board == Put(s.board, c, Empty) &&
      r.next.totalPieces[q] == s.totalPieces[q] - 1 &&
      r.next.totalPieces[1 - q] == s.totalPieces[1 - q] &&
      (r.next.stage == Stopped <==> exists p | IsPlayer(p) :: Count(r.next.board, p) <= MinPieces)
  {
    var v := At(s.board, c).id;
    RemoveIsRemoved(s, c);
    RemovedConsistent(s, c);
    AfterRemovalStops(Removed(s, c), v);
  }

  /** In FIRST_REMOVAL each removal that does not end the game passes the
      turn; the stage goes on to MOVEMENT exactly when the turn is back with
      the player who removed first, and only then is the new player to move
      sent the list of their pieces that can move. */
  lemma FirstRemovalTurns(s: Snapshot, v: int)
    requires Consistent(s) && s.stage == FirstRemoval
    requires Remove(s, v).out.Replied? && Remove(s, v).next.stage != Stopped
    ensures var r := Remove(s, v).next;
      r.turn == 1 - s.turn &&
      (r.stage == Movement <==> r.turn == RemovalStarter(s)) &&
      (r.stage != Movement ==> r.stage == FirstRemoval)
    ensures var r := Remove(s, v);
      r.out.reply.active == if r.next.stage == Movement then ActivePieces(r.next.board, r.next.turn) else []
  {
  }

  /** FIRST_REMOVAL gives each player exactly one removal: from the
      starting player, one removal hands the turn to the other player in the
      same stage, and the other player's removal leads to MOVEMENT with the
      starting player to move. */
  lemma FirstRemovalRound(s: Snapshot, v: int, w: int)
    requires Consistent(s) && s.stage == FirstRemoval && s.turn == RemovalStarter(s)
    requires Remove(s, v).out.Replied? && Remove(s, v).next.stage != Stopped
    requires Remove(Remove(s, v).next, w).out.Replied? && Remove(Remove(s, v).next, w).next.stage != Stopped
    ensures var r1 := Remove(s, v).next; var r2 := Remove(r1, w).next;
      r1.stage == FirstRemoval && r1.turn != s.turn &&
      r2.stage == Movement && r2.turn == s.turn
  {
    RemoveConsistent(s, v);
    var r1 := Remove(s, v).next;
    FirstRemovalTurns(s, v);
    assert r1.firstToJare == s.firstToJare;
    FirstRemovalTurns(r1, w);
  }

  /** REMOVAL returns to MOVEMENT with the same player to move, who is
      sent the list of their pieces that can move. */
  lemma RemovalKeepsTurn(s: Snapshot, v: int)
    requires Consistent(s) && s.stage == Removal
    requires Remove(s, v).out.Replied? && Remove(s, v).next.stage != Stopped
    ensures var r := Remove(s, v);
      r.next.stage == Movement && r.next.turn == s.turn &&
      r.out.reply.active == ActivePieces(r.next.board, s.turn)
  {
  }

  // ============================================================ movement

  /** The table lookup `adjacentPieces[...]` never misses: the cell found
      for any ID is an intersection. */
  lemma LocatedIsIntersection(s: Snapshot, v: int)
    requires Shaped(s) && Locate(s.board, v).Some?
    ensures IsIntersection(Locate(s.board, v).value)
  {
    LocateFindsFirst(s.board, v);
    IntersectionsAreInitialEmpties();
    InitialCellsBlockedOrEmpty();
  }

  /** In MOVEMENT a move raises exactly when the spot is accepted but no
      cell holds the ID, and is rejected exactly when the spot is not an
      empty cell or not adjacent to the piece. */
  lemma MoveOutcomes(s: Snapshot, v: int, x: int, y: int)
    requires Shaped(s) && s.stage == Movement
    ensures Move(s, v, x, y).out.Raised? <==>
      InBoard((x, y)) && At(s.board, (x, y)) == Empty &&
      forall c :: InBoard(c) ==> !Holds(At(s.board, c), v)
    ensures Move(s, v, x, y).out.Replied? && !Move(s, v, x, y).out.reply.success <==>
      !InBoard((x, y)) || At(s.board, (x, y)) != Empty ||
      (Locate(s.board, v).Some? && (x, y) !in Neighbors(Locate(s.board, v).value))
  {
    LocateFindsFirst(s.board, v);
  }

  /** A move to an accepted, adjacent spot is `MoveAlong` from the cell
      where the piece was found. */
  lemma MoveIsMoveAlong(s: Snapshot, v: int, x: int, y: int)
    requires Shaped(s) && s.stage == Movement && InBoard((x, y)) && At(s.board, (x, y)) == Empty
    requires Locate(s.board, v).Some? && (x, y) in Neighbors(Locate(s.board, v).value)
    ensures Move(s, v, x, y) == MoveAlong(s, v, Locate(s.board, v).value, (x, y))
  {
  }

  /** A successful move of a piece empties its old cell, puts the piece in
      the new one and changes no other cell and no count. */
  lemma MoveStepsOnePiece(s: Snapshot, c: Coord, x: int, y: int)
    requires Consistent(s) && s.stage == Movement && InBoard(c) && At(s.board, c).Occupied?
    requires InBoard((x, y)) && At(s.board, (x, y)) == Empty && (x, y) in Neighbors(c)
    ensures var v := At(s.board, c).id; var r := Move(s, v, x, y);
      r.out.Replied? && r.out.reply.success &&
      At(r.next.board, (x, y)) == Occupied(v) && At(r.next.board, c) == Empty &&
      (forall d | d != c && d != (x, y) :: At(r.next.board, d) == At(s.board, d)) &&
      r.next.totalPieces == s.totalPieces
  {
    var v := At(s.board, c).id;
    PlayerIdsAreNotEmptyMarker(s.board, c);
    LocateUnique(s.board, c);
    MoveIsMoveAlong(s, v, x, y);
    NeighborsAreIntersections();
    assert (x, y) != c;
    var g1 := Put(s.board, c, Empty);
    assert WellShaped(g1);
  }

  /** After an accepted move the pieces on the board still carry distinct
      IDs of the two players. */
  lemma MovedPieces(s: Snapshot, v: int, from: Coord, spot: Coord)
    requires Consistent(s)
    requires InBoard(from) && InBoard(spot) && Holds(At(s.board, from), v) && At(s.board, spot) == Empty
    ensures UniqueIds(Moved(s.board, v, from, spot)) && OwnersValid(Moved(s.board, v, from, spot))
  {
    if v == -1 {
      MoveEmptyMarkerBoard(s.board, from, spot);
    } else {
      MovePieceBoard(s.board, v, from, spot);
    }
  }

  /** The turn comes back to the mover exactly when the other player is
      stuck. */
  lemma PassTurnStuck(g: Grid, t: int)
    requires IsPlayer(t) && UniqueIds(g) && OwnersValid(g)
    ensures PassTurn(g, t) == t <==> Stuck(g, 1 - t)
    ensures PassTurn(g, t) != t ==> PassTurn(g, t) == 1 - t
  {
    NoActivePieces(g, 1 - t);
  }

  /** The turn rules of an accepted move, and the active pieces its reply
      carries. */
  lemma MoveAlongTurnRules(s: Snapshot, v: int, from: Coord, spot: Coord)
    requires Shaped(s) && s.stage == Movement
    requires UniqueIds(Moved(s.board, v, from, spot)) && OwnersValid(Moved(s.board, v, from, spot))
    ensures var r := MoveAlong(s, v, from, spot).next;
      r.stage == Removal <==> s.currentJare[s.turn] < JareCount(r.board, s.turn)
    ensures var r := MoveAlong(s, v, from, spot).next;
      r.stage == Removal ==> r.turn == s.turn
    ensures var r := MoveAlong(s, v, from, spot).next;
      r.stage != Removal ==> r.stage == Movement && (r.turn == s.turn <==> Stuck(r.board, 1 - s.turn))
    ensures var r := MoveAlong(s, v, from, spot).next;
      r.stage != Removal && r.turn != s.turn ==> r.turn == 1 - s.turn
    ensures var r := MoveAlong(s, v, from, spot);
      r.out.reply.active == if r.next.stage == Removal then [] else ActivePieces(r.next.board, 1 - s.turn)
  {
    PassTurnStuck(Moved(s.board, v, from, spot), s.turn);
  }

  /** After a successful move: a new jare for the mover means REMOVAL with
      the mover still to play and an empty list of active pieces; otherwise
      the reply lists the other player's pieces that can move, and the turn
      passes to the other player unless none of their pieces has an empty
      neighbour, in which case it stays with the mover. */
  lemma MoveTurnRules(s: Snapshot, v: int, x: int, y: int)
    requires Consistent(s)
    requires Move(s, v, x, y).out.Replied? && Move(s, v, x, y).out.reply.success
    ensures var r := Move(s, v, x, y).next;
      r.stage == Removal <==> s.currentJare[s.turn] < JareCount(r.board, s.turn)
    ensures var r := Move(s, v, x, y).next;
      r.stage == Removal ==> r.turn == s.turn
    ensures var r := Move(s, v, x, y).next;
      r.stage != Removal ==> r.stage == Movement && (r.turn == s.turn <==> Stuck(r.board, 1 - s.turn))
    ensures var r := Move(s, v, x, y).next;
      r.stage != Removal && r.turn != s.turn ==> r.turn == 1 - s.turn
    ensures var r := Move(s, v, x, y);
      r.out.reply.active == if r.next.stage == Removal then [] else ActivePieces(r.next.board, 1 - s.turn)
  {
    var from := Locate(s.board, v).value;
    LocateFindsFirst(s.board, v);
    MoveIsMoveAlong(s, v, x, y);
    MovedPieces(s, v, from, (x, y));
    MoveAlongTurnRules(s, v, from, (x, y));
  }

  // ============================================================== stages

  /** The stage machine only takes the transitions of the game:
      PLACEMENT to FIRST_REMOVAL, FIRST_REMOVAL to MOVEMENT, MOVEMENT to
      REMOVAL and back, and either removal stage to STOPPED. This is the
      part of placement. */
  lemma PlaceStages(s: Snapshot, x: int, y: int)
    requires Shaped(s)
    ensures var r := Place(s, x, y).next;
      r.stage == s.stage || (s.stage == Placement && r.stage == FirstRemoval)
  {
  }

  /** The stage transitions of `removePiece`. */
  lemma RemoveStages(s: Snapshot, v: int)
    requires Shaped(s)
    ensures var r := Remove(s, v).next;
      r.stage == s.stage || r.stage == Stopped ||
      ((s.stage == FirstRemoval || s.stage == Removal) && r.stage == Movement)
  {
  }

  /** The stage transitions of `movePiece`. */
  lemma MoveStages(s: Snapshot, v: int, x: int, y: int)
    requires Shaped(s)
    ensures var r := Move(s, v, x, y).next;
      r.stage == s.stage || (s.stage == Movement && r.stage == Removal)
  {
  }

  /** A second jare check on an unchanged board reports nothing new. */
  lemma NewJareSettles(g: Grid, p: int, currentJare: seq<int>)
    requires IsPlayer(p) && |currentJare| == TotalPlayers
    ensures var once := NewJare(g, p, currentJare);
      !NewJare(g, p, once.currentJare).made && NewJare(g, p, once.currentJare) == once.(made := false)
  {
  }

  // ============================================================= restart

  /** Placing on an empty cell during PLACEMENT writes the next ID there. */
  lemma PlacedCell(s: Snapshot, x: int, y: int)
    requires Shaped(s) && s.stage == Placement && InBoard((x, y)) && At(s.board, (x, y)) == Empty
    ensures Place(s, x, y).out.Replied?
    ensures Place(s, x, y).next.board == Put(s.board, (x, y), Occupied(NextId(s)))
    ensures forall d :: At(Place(s, x, y).next.board, d) == if d == (x, y) then Occupied(NextId(s)) else At(s.board, d)
  {
    assert ValidSpot(s.board, x, y) == Some((x, y));
  }

  /** The first placement of a fresh game puts ID 0 at (0, 0). */
  lemma FirstPlacement(s: Snapshot)
    ensures var s1 := Place(Start(s), 0, 0).next;
      WellShaped(s1.board) && At(s1.board, (0, 0)) == Occupied(0) && At(s1.board, (3, 0)) == Empty
  {
    var s0 := Start(s);
    assert Shaped(s0) by {
      EmptyInitialGrid();
    }
    assert At(s0.board, (0, 0)) == Empty && At(s0.board, (3, 0)) == Empty && NextId(s0) == 0 by {
      assert At(InitialGrid, (0, 0)) == Empty && At(InitialGrid, (3, 0)) == Empty;
    }
    var b := Place(s0, 0, 0).next.board;
    assert WellShaped(b) && At(b, (0, 0)) == Occupied(0) && At(b, (3, 0)) == Empty by {
      PlacedCell(s0, 0, 0);
    }
  }

  /** `startGame` as written keeps the pieces of the previous game while the
      counters restart: once any cell holds ID 0 (as after the first
      placement, see FirstPlacement), a restart leaves an inconsistent state
      and the first placement of the new game writes ID 0 a second time. */
  lemma RestartAsWrittenDuplicatesIds(s: Snapshot, c: Coord, x: int, y: int)
    requires Shaped(s) && InBoard(c) && At(s.board, c) == Occupied(0)
    requires InBoard((x, y)) && At(s.board, (x, y)) == Empty
    ensures var s2 := StartAsWritten(s);
      var s3 := Place(s2, x, y).next;
      !Consistent(s2) &&
      At(s3.board, c) == Occupied(0) && At(s3.board, (x, y)) == Occupied(0) &&
      !UniqueIds(s3.board)
  {
    var s2 := StartAsWritten(s);
    assert Shaped(s2);
    assert !Consistent(s2) by {
      assert Sequence(At(s2.board, c).id) == s2.totalPieces[0];
    }
    var b := Place(s2, x, y).next.board;
    assert b == Put(s.board, (x, y), Occupied(0)) by {
      assert NextId(s2) == 0;
      PlacedCell(s2, x, y);
    }
    assert c != (x, y) && At(b, c) == Occupied(0) && At(b, (x, y)) == Occupied(0);
  }

  /** The corrected `startGame` always starts from a consistent state, so
      IDs stay unique however many games are played on one manager. */
  lemma RestartKeepsIdsUnique(s: Snapshot, x: int, y: int)
    ensures Consistent(Start(s)) && UniqueIds(Place(Start(s), x, y).next.board)
  {
    StartConsistent(s);
    PlaceConsistent(Start(s), x, y);
  }
}
