/** The turn state machine of js/tictactoe.js: the globals `activePlayer` and
    `selectedSquares`, `placeXOrO`, the decision of `checkWinConditions`,
    `computersTurn` and the state reset of `resetGame`. Drawing, sound, click
    blocking and timers are left out; the timer callbacks become calls the
    caller makes. */
module Game {
  import opened Grid
  import opened MoveLog
  import opened Search

  datatype Option<T> = None | Some(value: T)

  /** What `checkWinConditions` decides: a win (with the line the code would
      draw), a tie, or that play goes on. */
  datatype Outcome = Win(winner: Player, line: Line) | Tie | Ongoing

  /** The lines `checkWinConditions` tries for each player, in its order and
      with the slots in the order it names them. */
  const WinChecks: seq<Line> := [
    Line(0, 1, 2), Line(3, 4, 5), Line(6, 7, 8),
    Line(0, 3, 6), Line(1, 4, 7), Line(2, 5, 8),
    Line(6, 4, 2), Line(0, 4, 8)
  ]

  /** `arrayIncludes` on the three entries of line `l` for player `p`. */
  predicate Logged(log: seq<string>, p: Player, l: Line) {
    MoveText(l.a, p) in log && MoveText(l.b, p) in log && MoveText(l.c, p) in log
  }

  /** The first line of `WinChecks` from `k` on that `p` holds in the log. */
  function FirstLogged(log: seq<string>, p: Player, k: nat): Option<Line>
    decreases |WinChecks| - k
  {
    if k >= |WinChecks| then None
    else if Logged(log, p, WinChecks[k]) then Some(WinChecks[k])
    else FirstLogged(log, p, k + 1)
  }

  /** The chain of tests of `checkWinConditions`: all of X's lines, then all
      of O's, then the tie at nine moves. */
  function CheckWinConditions(log: seq<string>): Outcome {
    match FirstLogged(log, X, 0)
    case Some(l) => Win(X, l)
    case None =>
      match FirstLogged(log, O, 0)
      case Some(l) => Win(O, l)
      case None => if |log| >= 9 then Tie else Ongoing
  }

  /** `p` holds some line of `WinChecks` in the log. */
  predicate LoggedLine(log: seq<string>, p: Player) {
    exists k :: 0 <= k < |WinChecks| && Logged(log, p, WinChecks[k])
  }

  lemma {:induction false} FirstLoggedFinds(log: seq<string>, p: Player, k: nat)
    requires k <= |WinChecks|
    ensures FirstLogged(log, p, k).None? <==> forall j :: k <= j < |WinChecks| ==> !Logged(log, p, WinChecks[j])
    ensures FirstLogged(log, p, k).Some? ==>
      exists j :: k <= j < |WinChecks| && FirstLogged(log, p, k).value == WinChecks[j] && Logged(log, p, WinChecks[j])
    decreases |WinChecks| - k
  {
    if k < |WinChecks| && !Logged(log, p, WinChecks[k]) {
      FirstLoggedFinds(log, p, k + 1);
    }
  }

  /** A win for X is reported whenever X holds a line, before any O line is
      looked at; a win for O only when X holds none; a tie only when nobody
      holds a line and the log has at least nine entries. The reported line is
      one the winner holds. */
  lemma CheckWinConditionsOrder(log: seq<string>)
    ensures var r := CheckWinConditions(log);
      (r.Win? && r.winner == X <==> LoggedLine(log, X)) &&
      (r.Win? && r.winner == O <==> !LoggedLine(log, X) && LoggedLine(log, O)) &&
      (r == Tie <==> !LoggedLine(log, X) && !LoggedLine(log, O) && |log| >= 9) &&
      (r == Ongoing <==> !LoggedLine(log, X) && !LoggedLine(log, O) && |log| < 9) &&
      (r.Win? ==> r.line in WinChecks && Logged(log, r.winner, r.line))
  {
    FirstLoggedFinds(log, X, 0);
    FirstLoggedFinds(log, O, 0);
  }

  /** All three slots of `l` hold `p`. */
  predicate Owns(board: Board, p: Player, l: Line) {
    board[l.a] == Mark(p) && board[l.b] == Mark(p) && board[l.c] == Mark(p)
  }

  /** `WinChecks` and `Lines` list the same eight lines. */
  lemma SameLines(board: Board, p: Player)
    ensures (exists k :: 0 <= k < |WinChecks| && Owns(board, p, WinChecks[k])) <==>
            (exists k :: 0 <= k < |Lines| && Owns(board, p, Lines[k]))
  {
    if k :| 0 <= k < |WinChecks| && Owns(board, p, WinChecks[k]) {
      var k' := if k == 6 then 7 else if k == 7 then 6 else k;
      assert Owns(board, p, Lines[k']);
    }
    if k :| 0 <= k < |Lines| && Owns(board, p, Lines[k]) {
      var k' := if k == 6 then 7 else if k == 7 then 6 else k;
      assert Owns(board, p, WinChecks[k']);
    }
  }

  /** With distinct slots, the log holds a line for `p` exactly when the board
      `getBoardState` builds does. */
  lemma LoggedLineIffHasLine(log: seq<string>, p: Player)
    requires WellFormedLog(log) && DistinctSquares(log)
    ensures LoggedLine(log, p) <==> HasLine(BoardOf(log), p)
  {
    var board := BoardOf(log);
    forall sq: Index ensures MoveText(sq, p) in log <==> board[sq] == Mark(p) {
      LoggedIffMarked(log, sq, p);
    }
    forall l: Line ensures Logged(log, p, l) <==> Owns(board, p, l) {
      assert MoveText(l.a, p) in log <==> board[l.a] == Mark(p);
      assert MoveText(l.b, p) in log <==> board[l.b] == Mark(p);
      assert MoveText(l.c, p) in log <==> board[l.c] == Mark(p);
    }
    SameLines(board, p);
    forall k | 0 <= k < |Lines| ensures Owns(board, p, Lines[k]) <==> Complete(board, Lines[k]) && board[Lines[k].a] == Mark(p) {
    }
  }

  /** The controller and the engine agree on the game's state: while
      `checkWinConditions` lets play go on, the board has no complete line and
      an empty slot; a tie is a full board with no line; a reported O win is
      a board `evaluateBoard` scores 10, a reported X win one it scores -10
      unless O holds a line too. */
  lemma EngineAgrees(log: seq<string>)
    requires WellFormedLog(log) && DistinctSquares(log)
    ensures var r, board := CheckWinConditions(log), BoardOf(log);
      (r == Ongoing ==> EvaluateBoard(board) == 0 && MovesLeft(board)) &&
      (r == Tie ==> EvaluateBoard(board) == 0 && !MovesLeft(board)) &&
      (r.Win? && r.winner == O ==> EvaluateBoard(board) == 10) &&
      (r.Win? && r.winner == X && !HasLine(board, O) ==> EvaluateBoard(board) == -10)
  {
    var board := BoardOf(log);
    CheckWinConditionsOrder(log);
    LoggedLineIffHasLine(log, X);
    LoggedLineIffHasLine(log, O);
    EvaluateOneSided(board);
    EmptySlots(log);
    MovesLeftCount(board);
  }

  /** Appending the entry of an empty slot keeps the log well formed with
      distinct slots, and keeps it alternating when the entry is for the
      player whose turn it is. */
  lemma LogAppend(log: seq<string>, sq: Index, p: Player)
    requires WellFormedLog(log) && DistinctSquares(log) && BoardOf(log)[sq] == Empty
    ensures var log' := log + [MoveText(sq, p)];
      WellFormedLog(log') && DistinctSquares(log') &&
      (Alternating(log) && p == TurnOf(|log|) ==> Alternating(log'))
  {
    var log' := log + [MoveText(sq, p)];
    BoardOfSlot(log, sq);
    EntryRoundTrip(sq, p);
    assert forall k :: 0 <= k < |log| ==> log'[k] == log[k];
  }

  /** The globals of the page: whose turn it is and the log of moves. */
  class Game {
    var activePlayer: Player
    var selectedSquares: seq<string>

    /** Every entry has the shape `placeXOrO` writes and names its own slot. */
    ghost predicate Valid()
      reads this
    {
      WellFormedLog(selectedSquares) && DistinctSquares(selectedSquares)
    }

    /** The moves alternate from X, and `activePlayer` is the player to move
        while play goes on, or the one who ended the game once it is over. */
    ghost predicate TurnsAlternate()
      reads this
      requires Valid()
    {
      Alternating(selectedSquares) &&
      activePlayer == (if CheckWinConditions(selectedSquares) == Ongoing then TurnOf(|selectedSquares|)
                       else TurnOf(|selectedSquares| - 1))
    }

    /** The initial values of the two globals. */
    constructor ()
      ensures Valid() && TurnsAlternate()
      ensures activePlayer == X && selectedSquares == []
    {
      activePlayer := X;
      selectedSquares := [];
    }

    /** `placeXOrO(squareNumber)`: refuses a slot some entry already names;
        otherwise logs the move and, unless that ended the game, passes the
        turn. */
    method PlaceXOrO(squareNumber: Index) returns (placed: bool)
      requires Valid()
      modifies this
      ensures Valid()
      ensures placed <==> !Occupied(old(selectedSquares), squareNumber)
      ensures placed <==> old(BoardOf(selectedSquares))[squareNumber] == Empty
      ensures !placed ==> selectedSquares == old(selectedSquares) && activePlayer == old(activePlayer)
      ensures placed ==> selectedSquares == old(selectedSquares) + [MoveText(squareNumber, old(activePlayer))]
      ensures placed ==> activePlayer == (if CheckWinConditions(selectedSquares) == Ongoing
                                          then Other(old(activePlayer)) else old(activePlayer))
      ensures old(TurnsAlternate()) && old(CheckWinConditions(selectedSquares)) == Ongoing ==> TurnsAlternate()
    {
      OccupiedMarked(selectedSquares, squareNumber);
      if !Occupied(selectedSquares, squareNumber) {
        LogAppend(selectedSquares, squareNumber, activePlayer);
        selectedSquares := selectedSquares + [MoveText(squareNumber, activePlayer)];
        var outcome := CheckWinConditions(selectedSquares);
        if outcome != Ongoing {
          return true;
        }
        activePlayer := Other(activePlayer);
        return true;
      }
      return false;
    }

    /** `getBoardState()`: a fresh nine-slot array filled from the log. */
    method GetBoardState() returns (board: array<Cell>)
      requires Valid()
      ensures fresh(board) && board.Length == 9
      ensures board[..] == BoardOf(selectedSquares)
    {
      board := new Cell[9](_ => Empty);
      assert board[..] == EmptyBoard;
      for k := 0 to |selectedSquares|
        invariant board[..] == BoardOf(selectedSquares[..k])
      {
        var move := selectedSquares[k];
        var index := EntrySquare(move);
        var player := EntryPlayer(move);
        board[index] := Mark(player);
        assert selectedSquares[..k + 1][..k] == selectedSquares[..k];
      }
      assert selectedSquares[..|selectedSquares|] == selectedSquares;
    }

    /** `computersTurn()`, run when the timer set by `placeXOrO` fires: the
        engine picks an empty slot, which is then played for the player to move. */
    method ComputersTurn()
      requires Valid() && CheckWinConditions(selectedSquares) == Ongoing
      modifies this
      ensures Valid()
      ensures var m := BestMove(old(BoardOf(selectedSquares)));
        0 <= m < 9 && old(BoardOf(selectedSquares))[m] == Empty &&
        selectedSquares == old(selectedSquares) + [MoveText(m, old(activePlayer))]
      ensures activePlayer == (if CheckWinConditions(selectedSquares) == Ongoing
                               then Other(old(activePlayer)) else old(activePlayer))
      ensures old(TurnsAlternate()) ==> TurnsAlternate()
    {
      var board := GetBoardState();
      ghost var b: Board := board[..];
      EngineAgrees(selectedSquares);
      BestMoveChoice(b);
      var bestMove := FindBestMove(board);
      var placed := PlaceXOrO(bestMove);
    }

    /** The state reset of `resetGame()`: the game starts over as it began. */
    method ResetGame()
      modifies this
      ensures Valid() && TurnsAlternate()
      ensures selectedSquares == [] && activePlayer == X
    {
      selectedSquares := [];
      activePlayer := X;
    }
  }

  /** After the first move nobody holds a line: each line needs three
      different entries. */
  lemma FirstMoveOngoing(sq: Index, p: Player)
    ensures CheckWinConditions([MoveText(sq, p)]) == Ongoing
  {
    var log := [MoveText(sq, p)];
    CheckWinConditionsOrder(log);
    forall q: Player, k | 0 <= k < |WinChecks| ensures !Logged(log, q, WinChecks[k]) {
      var l := WinChecks[k];
      EntryRoundTrip(l.a, q);
      EntryRoundTrip(l.b, q);
    }
  }

  /** A short game driven through the class: the human takes the centre, the
      computer answers on another slot, and a second click on the centre is
      refused without changing anything. */
  method CentreOpening() {
    var game := new Game();
    var placed := game.PlaceXOrO(4);
    assert placed;
    FirstMoveOngoing(4, X);
    assert game.activePlayer == O;
    game.ComputersTurn();
    assert |game.selectedSquares| == 2 && game.selectedSquares[0] == MoveText(4, X);
    var before := game.selectedSquares;
    IncludesSquare(MoveText(4, X), 4);
    EntryRoundTrip(4, X);
    placed := game.PlaceXOrO(4);
    assert !placed && game.selectedSquares == before;
  }
}
