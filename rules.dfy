/** The stage machine of the board manager as functions on a snapshot of its
    fields: what `startGame`, `endGame`, `placePiece`, `removePiece` and
    `movePiece` do to the state and what they signal back. These functions are
    the specification the methods of `Manager.BoardManager` are proved to meet. */
module Rules {
  import opened Board
  import opened Pieces
  import opened Jare

  datatype GameStage = Stopped | Placement | FirstRemoval | Removal | Movement

  const TotalPlayers := 2
  /** Pieces each player places before the first removal. */
  const MaxPieces := 5
  /** A player left with this many pieces or fewer has lost. */
  const MinPieces := 2

  /** The fields of the board manager. */
  datatype Snapshot = Snapshot(
    board: Grid,              // boardState
    stage: GameStage,         // gameState
    running: bool,            // gameRunning
    turn: int,                // current_turn
    totalPieces: seq<int>,    // total_pieces
    firstToJare: Option<int>,
    currentJare: seq<int>)

  /** The arguments of `placePieceEvaluated`. */
  datatype PlaceReply = PlaceReply(success: bool, id: int, x: int, y: int, nextStage: string, turn: int)
  /** The arguments of `removePieceEvaluated`. */
  datatype RemoveReply = RemoveReply(success: bool, id: int, nextStage: string, turn: int, active: seq<int>)
  /** The arguments of `movePieceEvaluated`. */
  datatype MoveReply = MoveReply(success: bool, id: int, x: int, y: int, nextStage: string, turn: int, active: seq<int>)

  /** How an action ends: it returns without a signal, it raises IndexError,
      or it emits its evaluation signal with a reply. */
  datatype Outcome<R> = Ignored | Raised | Replied(reply: R)

  /** The state after an action (at the point of the raise, if it raises)
      and its outcome. */
  datatype Step<R> = Step(next: Snapshot, out: Outcome<R>)

  predicate IsPlayer(p: int) {
    0 <= p < TotalPlayers
  }

  /** The shape every state of the manager has. */
  ghost predicate Shaped(s: Snapshot) {
    SameLayout(s.board) && IsPlayer(s.turn) &&
    |s.totalPieces| == TotalPlayers && |s.currentJare| == TotalPlayers &&
    (s.firstToJare.Some? ==> IsPlayer(s.firstToJare.value))
  }

  /** The invariant of the manager: the game runs exactly outside STOPPED,
      the pieces on the board carry distinct IDs of the two players,
      `total_pieces` counts each player's pieces on the board, and during
      placement every piece's sequence number is below its owner's count. */
  ghost predicate Consistent(s: Snapshot) {
    Shaped(s) &&
    (s.running <==> s.stage != Stopped) &&
    UniqueIds(s.board) && OwnersValid(s.board) &&
    (forall p | IsPlayer(p) :: s.totalPieces[p] == Count(s.board, p)) &&
    (s.stage == Placement ==>
      forall c | InBoard(c) && At(s.board, c).Occupied? ::
        Sequence(At(s.board, c).id) < s.totalPieces[Owner(At(s.board, c).id)])
  }

  /** The state the constructor leaves. */
  const Initial := Snapshot(InitialGrid, Stopped, false, 0, [0, 0], None, [0, 0])

  // ----------------------------------------------------------- start and end

  /** `startGame` as its comment describes it: every field, the board
      included, back to its initial value, stage PLACEMENT, player 0 to play. */
  function Start(s: Snapshot): (r: Snapshot)
    ensures r.stage == Placement && r.running && r.turn == 0
    ensures r.totalPieces == [0, 0] && r.currentJare == [0, 0] && r.firstToJare.None?
    ensures forall c :: At(r.board, c) == At(InitialGrid, c)
  {
    Snapshot(InitialGrid, Placement, true, 0, [0, 0], None, [0, 0])
  }

  /** A game always starts from a consistent state. */
  lemma StartConsistent(s: Snapshot)
    ensures Consistent(Start(s))
  {
    EmptyInitialGrid();
    CountNone(InitialGrid, 0);
    CountNone(InitialGrid, 1);
  }

  /** `startGame` as written: the counters are reset but `boardState` keeps
      the pieces of the previous game. */
  function StartAsWritten(s: Snapshot): (r: Snapshot)
    ensures r.board == s.board && r.stage == Placement && r.running && r.turn == 0
    ensures r.totalPieces == [0, 0] && r.currentJare == [0, 0] && r.firstToJare.None?
  {
    Snapshot(s.board, Placement, true, 0, [0, 0], None, [0, 0])
  }

  /** `endGame`. */
  function End(s: Snapshot): (r: Snapshot)
    ensures r.stage == Stopped && !r.running
    ensures r.board == s.board && r.turn == s.turn && r.totalPieces == s.totalPieces
    ensures r.firstToJare == s.firstToJare && r.currentJare == s.currentJare
  {
    s.(stage := Stopped, running := false)
  }

  // ---------------------------------------------------------------- helpers

  /** The result of `_madeNewJare` for player p: whether the fresh jare
      count exceeds the recorded one, and `currentJare` with p's entry
      overwritten by the fresh count. */
  datatype JareCheck = JareCheck(made: bool, currentJare: seq<int>)

  function NewJare(g: Grid, p: int, currentJare: seq<int>): (r: JareCheck)
    requires IsPlayer(p) && |currentJare| == TotalPlayers
    ensures |r.currentJare| == TotalPlayers
    ensures r.made <==> currentJare[p] < r.currentJare[p]
    ensures r.currentJare[p] == JareCount(g, p)
    ensures forall q | IsPlayer(q) && q != p :: r.currentJare[q] == currentJare[q]
  {
    JareCheck(currentJare[p] < JareCount(g, p), currentJare[p := JareCount(g, p)])
  }

  /** `_changeStage`: entering FIRST_REMOVAL hands the turn to the first
      player to make a jare, or to player 1 when nobody made one. */
  function ChangeStage(s: Snapshot, next: GameStage): (r: Snapshot)
    ensures r.stage == next
    ensures next == FirstRemoval ==> r.turn == RemovalStarter(s)
    ensures next == FirstRemoval ==> r == s.(stage := next, turn := RemovalStarter(s))
    ensures next != FirstRemoval ==> r == s.(stage := next)
  {
    if next == FirstRemoval then s.(stage := next, turn := RemovalStarter(s))
    else s.(stage := next)
  }

  /** The player who removes first in FIRST_REMOVAL. */
  function RemovalStarter(s: Snapshot): int {
    if s.firstToJare.Some? then s.firstToJare.value else 1
  }

  /** `(current_turn + 1) % TOTAL_PLAYERS`: with two players the turn
      alternates. */
  function NextTurn(t: int): (r: int)
    ensures IsPlayer(r)
    ensures IsPlayer(t) ==> r == 1 - t
  {
    (t + 1) % TotalPlayers
  }

  /** `(current_turn - 1) % TOTAL_PLAYERS`, floored like Python's `%`. */
  function PreviousTurn(t: int): (r: int)
    ensures IsPlayer(r)
    ensures IsPlayer(t) ==> r == 1 - t
  {
    (t - 1) % TotalPlayers
  }

  /** `_isGameOver`: some player is down to MIN_PIECES or fewer. */
  predicate GameOver(counts: seq<int>) {
    exists i | 0 <= i < |counts| :: counts[i] <= MinPieces
  }

  /** `np.all(total_pieces >= MAX_PIECES)`. */
  predicate AllPlaced(counts: seq<int>) {
    forall i | 0 <= i < |counts| :: counts[i] >= MaxPieces
  }

  // -------------------------------------------------------------- placement

  /** `placePiece(x, y)` on integer coordinates. */
  function Place(s: Snapshot, x: int, y: int): (r: Step<PlaceReply>)
    requires Shaped(s)
    ensures r.out.Ignored? || r.out.Replied?
    ensures r.out.Ignored? ==> r.next == s
    ensures r.out.Replied? ==> r.out.reply.success && r.out.reply.x == x && r.out.reply.y == y
    ensures r.out.Replied? ==> r.out.reply.turn == r.next.turn && Shaped(r.next)
  {
    if s.stage != Placement then Step(s, Ignored)
    else match ValidSpot(s.board, x, y)
      case None => Step(s, Ignored)
      case Some(spot) => PlaceAt(s, spot)
  }

  /** The ID `placePiece` gives the next piece of the player to move. */
  function NextId(s: Snapshot): int
    requires Shaped(s)
  {
    PackId(s.totalPieces[s.turn], s.turn)
  }

  /** A placement on the accepted empty cell `spot`: the new piece goes in
      (see Placed), and once every player has all pieces out the first
      removal begins. */
  function PlaceAt(s: Snapshot, spot: Coord): (r: Step<PlaceReply>)
    requires Shaped(s) && InBoard(spot) && At(s.board, spot) == Empty
    ensures r.out.Replied? && r.out.reply.success && r.out.reply.id == NextId(s)
    ensures r.out.reply.x == spot.0 && r.out.reply.y == spot.1 && r.out.reply.turn == r.next.turn
    ensures Shaped(r.next) && r.next.board == Put(s.board, spot, Occupied(NextId(s)))
  {
    var s1 := Placed(s, spot);
    if AllPlaced(s1.totalPieces) then
      var s2 := ChangeStage(s1, FirstRemoval);
      Step(s2, Replied(PlaceReply(true, NextId(s), spot.0, spot.1, "removal", s2.turn)))
    else
      Step(s1, Replied(PlaceReply(true, NextId(s), spot.0, spot.1, "placement", s1.turn)))
  }

  /** The state once the piece is placed: the new piece is written, its
      owner's count goes up, the jare detector runs for the placer (the first
      player to make a jare is remembered), and the turn passes on. */
  function Placed(s: Snapshot, spot: Coord): (r: Snapshot)
    requires Shaped(s) && InBoard(spot) && At(s.board, spot) == Empty
    ensures Shaped(r) && r.board == Put(s.board, spot, Occupied(NextId(s)))
    ensures r.stage == s.stage && r.running == s.running && r.turn == NextTurn(s.turn)
    ensures r.totalPieces == s.totalPieces[s.turn := s.totalPieces[s.turn] + 1]
  {
    var id := NextId(s);
    var board := Put(s.board, spot, Occupied(id));
    PutKeepsLayout(s.board, spot, Occupied(id));
    var counts := s.totalPieces[s.turn := s.totalPieces[s.turn] + 1];
    var check := NewJare(board, s.turn, s.currentJare);
    var ftj := if check.made && s.firstToJare.None? then Some(s.turn) else s.firstToJare;
    s.(board := board, totalPieces := counts, currentJare := check.currentJare,
       firstToJare := ftj, turn := NextTurn(s.turn))
  }

  /** `Placed` assembled field by field, as the manager builds it. */
  lemma PlacedFrom(s: Snapshot, spot: Coord, board: Grid, counts: seq<int>, jare: seq<int>, ftj: Option<int>)
    requires Shaped(s) && InBoard(spot) && At(s.board, spot) == Empty
    requires board == Put(s.board, spot, Occupied(NextId(s)))
    requires counts == s.totalPieces[s.turn := s.totalPieces[s.turn] + 1]
    requires jare == NewJare(board, s.turn, s.currentJare).currentJare
    requires ftj == if NewJare(board, s.turn, s.currentJare).made && s.firstToJare.None? then Some(s.turn) else s.firstToJare
    ensures Placed(s, spot) == Snapshot(board, s.stage, s.running, NextTurn(s.turn), counts, ftj, jare)
  {
  }

  // ---------------------------------------------------------------- removal

  /** `removePiece(pieceID)`. */
  function Remove(s: Snapshot, v: int): (r: Step<RemoveReply>)
    requires Shaped(s)
    ensures r.out.Ignored? ==> r.next == s
    ensures r.out.Replied? ==> r.out.reply.success && r.out.reply.id == v && r.out.reply.turn == r.next.turn
    ensures !r.out.Ignored? ==> r.next.board == ClearAll(s.board, v)
  {
    if s.stage != Removal && s.stage != FirstRemoval then Step(s, Ignored)
    else if Locate(s.board, v).None? then Step(s, Ignored)
    else if Owner(v) == s.turn then Step(s, Ignored)
    else Charge(s.(board := ClearAll(s.board, v)), v)
  }

  /** What follows clearing v from the board: `total_pieces[player] -= 1`
      raises IndexError when the owner bits of v name no player; otherwise
      the owner's count goes down and the removal goes on. */
  function Charge(s: Snapshot, v: int): (r: Step<RemoveReply>)
    requires Shaped(s)
    ensures r.out.Raised? <==> !IsPlayer(Owner(v))
    ensures r.out.Raised? ==> r.next == s
    ensures !r.out.Raised? ==> r.out.Replied? && r.out.reply.success && r.out.reply.id == v
    ensures !r.out.Raised? ==> r.out.reply.turn == r.next.turn
    ensures r.next.board == s.board
  {
    if !IsPlayer(Owner(v)) then Step(s, Raised)
    else AfterRemoval(s.(totalPieces := s.totalPieces[Owner(v) := s.totalPieces[Owner(v)] - 1]), v)
  }

  /** What follows a removal once the board and the counts are updated: the
      game ends if a player is down to MIN_PIECES; FIRST_REMOVAL passes the
      turn and ends when it comes back to the player who removed first;
      REMOVAL returns to MOVEMENT with the same player to move. */
  function AfterRemoval(s: Snapshot, v: int): (r: Step<RemoveReply>)
    requires Shaped(s)
    ensures r.out.Replied? && r.out.reply.success && r.out.reply.id == v && r.out.reply.turn == r.next.turn
    ensures r.next.board == s.board && r.next.totalPieces == s.totalPieces
    ensures r.next.firstToJare == s.firstToJare && r.next.currentJare == s.currentJare
  {
    if GameOver(s.totalPieces) then
      Step(End(s), Replied(RemoveReply(true, v, "removal", s.turn, [])))
    else if s.stage == FirstRemoval then
      var s2 := s.(turn := NextTurn(s.turn));
      if (s.firstToJare.None? && s2.turn == 1) || s.firstToJare == Some(s2.turn) then
        var s3 := ChangeStage(s2, Movement);
        Step(s3, Replied(RemoveReply(true, v, "movement", s3.turn, ActivePieces(s.board, s3.turn))))
      else
        Step(s2, Replied(RemoveReply(true, v, "removal", s2.turn, [])))
    else
      var s3 := ChangeStage(s, Movement);
      Step(s3, Replied(RemoveReply(true, v, "movement", s3.turn, ActivePieces(s.board, s3.turn))))
  }

  // --------------------------------------------------------------- movement

  /** The reply to a rejected move. */
  function Rejected(s: Snapshot, v: int): MoveReply {
    MoveReply(false, v, 0, 0, "movement", s.turn, [])
  }

  /** `movePiece(ID, x, y)` on integer coordinates. */
  function Move(s: Snapshot, v: int, x: int, y: int): (r: Step<MoveReply>)
    requires Shaped(s)
    ensures r.out.Ignored? <==> s.stage != Movement
    ensures r.out.Ignored? || r.out.Raised? || (r.out.Replied? && !r.out.reply.success) ==> r.next == s
    ensures r.out.Replied? ==> r.out.reply.id == v && r.out.reply.turn == r.next.turn
  {
    if s.stage != Movement then Step(s, Ignored)
    else match ValidSpot(s.board, x, y)
      case None => Step(s, Replied(Rejected(s, v)))
      case Some(spot) =>
        match Locate(s.board, v)
        case None => Step(s, Raised)
        case Some(from) =>
          if spot !in Neighbors(from) then Step(s, Replied(Rejected(s, v)))
          else MoveAlong(s, v, from, spot)
  }

  /** The board after piece v steps from `from` to `spot`. */
  function Moved(g: Grid, v: int, from: Coord, spot: Coord): Grid {
    Put(Put(g, from, Empty), spot, Stored(v))
  }

  /** An accepted move: the piece steps to the adjacent empty cell and the
      jare detector runs. A new jare sends the mover to REMOVAL; otherwise
      the turn passes on, and comes back to the mover when the other player
      has no piece that can move. */
  function MoveAlong(s: Snapshot, v: int, from: Coord, spot: Coord): (r: Step<MoveReply>)
    requires Shaped(s)
    ensures r.out.Replied? && r.out.reply.success && r.out.reply.id == v && r.out.reply.turn == r.next.turn
    ensures r.out.reply.x == spot.0 && r.out.reply.y == spot.1
    ensures r.next.board == Moved(s.board, v, from, spot)
    ensures r.next.totalPieces == s.totalPieces && r.next.firstToJare == s.firstToJare
  {
    var board := Moved(s.board, v, from, spot);
    var check := NewJare(board, s.turn, s.currentJare);
    var s1 := s.(board := board, currentJare := check.currentJare);
    if check.made then
      var s2 := ChangeStage(s1, Removal);
      Step(s2, Replied(MoveReply(true, v, spot.0, spot.1, "removal", s2.turn, [])))
    else
      var next := NextTurn(s.turn);
      var active := ActivePieces(board, next);
      var turn := PassTurn(board, s.turn);
      Step(s1.(turn := turn), Replied(MoveReply(true, v, spot.0, spot.1, "", turn, active)))
  }

  /** The turn after a move that made no jare: the other player's, unless
      `_getActivePieces` finds none of their pieces able to move, in which
      case it goes back to the mover. */
  function PassTurn(g: Grid, t: int): (r: int)
    requires IsPlayer(t)
    ensures IsPlayer(r)
    ensures r == t <==> ActivePieces(g, NextTurn(t)) == []
    ensures r != t ==> r == NextTurn(t)
  {
    var next := NextTurn(t);
    var stuck := ActivePieces(g, next) == [];
    if stuck then PreviousTurn(next) else next
  }

  // ======================================================== board lemmas

  /** The initial board holds no piece, and it has its own layout. */
  lemma EmptyInitialGrid()
    ensures SameLayout(InitialGrid)
    ensures forall c :: !At(InitialGrid, c).Occupied?
  {
    InitialCellsBlockedOrEmpty();
  }

  /** Writing a non-blocked value into a non-blocked cell keeps the layout. */
  lemma PutKeepsLayout(g: Grid, c: Coord, v: Cell)
    requires SameLayout(g) && InBoard(c) && At(g, c) != Blocked && v != Blocked
    ensures SameLayout(Put(g, c, v))
  {
  }
}
