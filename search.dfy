/** The computer's move search: `minimax` and `findBestMove` of
    js/tictactoe.js. Both work on the board array in place, writing a mark,
    recursing and retracting it; each method is tied to a function on the
    board's contents, and the properties of the search are lemmas about
    those functions. */
module Search {
  import opened Grid

  /** Integer stand-ins for `-Infinity` and `Infinity`; every score lies in [-10, 10]. */
  const MinusInfinity: int := -1000
  const PlusInfinity: int := 1000

  function Max(a: int, b: int): (m: int)
    ensures m >= a && m >= b && (m == a || m == b)
  {
    if a >= b then a else b
  }

  function Min(a: int, b: int): (m: int)
    ensures m <= a && m <= b && (m == a || m == b)
  {
    if a <= b then a else b
  }

  /** O maximizes, X minimizes. */
  function Mover(isMax: bool): Player {
    if isMax then O else X
  }

  /** The score of a position, as `minimax(board, depth, isMax)` computes it. */
  function Value(board: Board, depth: int, isMax: bool): int
    decreases Count(board, Empty), 2
  {
    var score := EvaluateBoard(board);
    if score == 10 then score - depth
    else if score == -10 then score + depth
    else if !MovesLeft(board) then 0
    else Fold(board, depth, isMax, 0, if isMax then MinusInfinity else PlusInfinity)
  }

  /** The score after the player to move takes empty slot `j`. */
  function ChildValue(board: Board, depth: int, isMax: bool, j: Index): int
    requires board[j] == Empty
    decreases Count(board, Empty), 0
  {
    CountUpdate(board, j, Mark(Mover(isMax)), Empty);
    Value(board[j := Mark(Mover(isMax))], depth + 1, !isMax)
  }

  /** The `for` loop of `minimax` from slot `i` on, with `best` so far:
      `Math.max` for O, `Math.min` for X. */
  function Fold(board: Board, depth: int, isMax: bool, i: nat, best: int): int
    requires i <= 9
    decreases Count(board, Empty), 1, 9 - i
  {
    if i == 9 then best
    else if board[i] == Empty then
      var v := ChildValue(board, depth, isMax, i);
      Fold(board, depth, isMax, i + 1, if isMax then Max(best, v) else Min(best, v))
    else Fold(board, depth, isMax, i + 1, best)
  }

  /** `minimax`: leaves the board as it found it and returns `Value`. */
  method Minimax(board: array<Cell>, depth: int, isMax: bool) returns (best: int)
    requires board.Length == 9
    modifies board
    ensures board[..] == old(board[..])
    ensures best == Value(old(board[..]), depth, isMax)
    decreases Count(board[..], Empty)
  {
    ghost var b: Board := board[..];
    var score := EvaluateBoard(board[..]);
    if score == 10 { return score - depth; }
    if score == -10 { return score + depth; }
    if !MovesLeft(board[..]) { return 0; }

    if isMax {
      best := MinusInfinity;
      for i := 0 to 9
        invariant board[..] == b
        invariant Fold(b, depth, true, i, best) == Value(b, depth, true)
      {
        if board[i] == Empty {
          board[i] := Mark(O);
          CountUpdate(b, i, Mark(O), Empty);
          var v := Minimax(board, depth + 1, false);
          board[i] := Empty;
          assert board[..] == b;
          best := Max(best, v);
        }
      }
    } else {
      best := PlusInfinity;
      for i := 0 to 9
        invariant board[..] == b
        invariant Fold(b, depth, false, i, best) == Value(b, depth, false)
      {
        if board[i] == Empty {
          board[i] := Mark(X);
          CountUpdate(b, i, Mark(X), Empty);
          var v := Minimax(board, depth + 1, true);
          board[i] := Empty;
          assert board[..] == b;
          best := Min(best, v);
        }
      }
    }
  }

  /** The loop of `minimax` returns `best` or the score of an empty slot at or
      after `i`, and no empty slot there scores better for the player to move. */
  lemma {:induction false} FoldChoice(board: Board, depth: int, isMax: bool, i: nat, best: int)
    requires i <= 9
    ensures var r := Fold(board, depth, isMax, i, best);
      (isMax ==> best <= r) && (!isMax ==> r <= best) &&
      (forall j :: i <= j < 9 && board[j] == Empty ==>
         (isMax ==> ChildValue(board, depth, isMax, j) <= r) &&
         (!isMax ==> r <= ChildValue(board, depth, isMax, j))) &&
      (r == best || exists j :: i <= j < 9 && board[j] == Empty && r == ChildValue(board, depth, isMax, j))
    decreases 9 - i
  {
    if i < 9 {
      if board[i] == Empty {
        var v := ChildValue(board, depth, isMax, i);
        FoldChoice(board, depth, isMax, i + 1, if isMax then Max(best, v) else Min(best, v));
      } else {
        FoldChoice(board, depth, isMax, i + 1, best);
      }
    }
  }

  /** Scores stay within [-10 + depth, 10 - depth] as long as the search
      cannot go deeper than 10 plies; in particular they lie in [-10, 10] and
      a sentinel never escapes. */
  lemma {:induction false} ValueBounds(board: Board, depth: int, isMax: bool)
    requires 0 <= depth && depth + Count(board, Empty) <= 10
    ensures -10 + depth <= Value(board, depth, isMax) <= 10 - depth
    decreases Count(board, Empty)
  {
    EvaluateBoardFirstLine(board);
    if EvaluateBoard(board) == 0 && MovesLeft(board) {
      forall j: Index | board[j] == Empty
        ensures -10 + depth < ChildValue(board, depth, isMax, j) < 10 - depth
      {
        CountUpdate(board, j, Mark(Mover(isMax)), Empty);
        ValueBounds(board[j := Mark(Mover(isMax))], depth + 1, !isMax);
      }
      var start := if isMax then MinusInfinity else PlusInfinity;
      FoldChoice(board, depth, isMax, 0, start);
      var j :| 0 <= j < 9 && board[j] == Empty;
      assert Fold(board, depth, isMax, 0, start) != start;
    }
  }

  /** On a board won for O `minimax` returns `10 - depth`, on one won for X
      `-10 + depth` (the first complete line of the table decides), and on a
      full board with no complete line 0. */
  lemma ValueTerminal(board: Board, depth: int, isMax: bool)
    ensures (exists j :: FirstCompleteFrom(board, 0, j) && board[Lines[j].a] == Mark(O)) ==>
      Value(board, depth, isMax) == 10 - depth
    ensures (exists j :: FirstCompleteFrom(board, 0, j) && board[Lines[j].a] == Mark(X)) ==>
      Value(board, depth, isMax) == -10 + depth
    ensures ((forall j :: 0 <= j < |Lines| ==> !Complete(board, Lines[j])) &&
             (forall i :: 0 <= i < 9 ==> board[i] != Empty)) ==> Value(board, depth, isMax) == 0
  {
    EvaluateBoardFirstLine(board);
  }

  /** On a board with no complete line and an empty slot, `minimax` returns the
      best score for the player to move over the positions one ply deeper:
      the maximum over O's moves, or the minimum over X's, attained by some move. */
  lemma ValueRecursive(board: Board, depth: int, isMax: bool)
    requires forall j :: 0 <= j < |Lines| ==> !Complete(board, Lines[j])
    requires exists i :: 0 <= i < 9 && board[i] == Empty
    requires 0 <= depth && depth + Count(board, Empty) <= 10
    ensures var r := Value(board, depth, isMax);
      (forall j :: 0 <= j < 9 && board[j] == Empty ==>
         (isMax ==> ChildValue(board, depth, isMax, j) <= r) &&
         (!isMax ==> r <= ChildValue(board, depth, isMax, j))) &&
      (exists j :: 0 <= j < 9 && board[j] == Empty && r == ChildValue(board, depth, isMax, j))
  {
    EvaluateBoardFirstLine(board);
    var start := if isMax then MinusInfinity else PlusInfinity;
    FoldChoice(board, depth, isMax, 0, start);
    ValueBounds(board, depth, isMax);
  }

  /** `minimax(board with O at i, 0, false)`, the value `findBestMove` gives slot `i`. */
  function MoveValue(board: Board, i: Index): int {
    Value(board[i := Mark(O)], 0, false)
  }

  /** The loop of `findBestMove` from slot `i` on: a later slot replaces the
      current choice only when its value is strictly greater. */
  function BestFrom(board: Board, i: nat, bestVal: int, bestMove: int): int
    requires i <= 9
    decreases 9 - i
  {
    if i == 9 then bestMove
    else if board[i] == Empty then
      var moveVal := MoveValue(board, i);
      if moveVal > bestVal then BestFrom(board, i + 1, moveVal, i)
      else BestFrom(board, i + 1, bestVal, bestMove)
    else BestFrom(board, i + 1, bestVal, bestMove)
  }

  /** The move `findBestMove` returns. */
  function BestMove(board: Board): int {
    BestFrom(board, 0, MinusInfinity, -1)
  }

  /** `findBestMove`: leaves the board as it found it and returns `BestMove`. */
  method FindBestMove(board: array<Cell>) returns (bestMove: int)
    requires board.Length == 9
    modifies board
    ensures board[..] == old(board[..])
    ensures bestMove == BestMove(old(board[..]))
  {
    ghost var b: Board := board[..];
    var bestVal := MinusInfinity;
    bestMove := -1;
    for i := 0 to 9
      invariant board[..] == b
      invariant BestFrom(b, i, bestVal, bestMove) == BestMove(b)
    {
      if board[i] == Empty {
        board[i] := Mark(O);
        var moveVal := Minimax(board, 0, false);
        board[i] := Empty;
        assert board[..] == b;
        if moveVal > bestVal {
          bestVal := moveVal;
          bestMove := i;
        }
      }
    }
  }

  /** Every slot `findBestMove` can try has a value in [-10, 10]. */
  lemma MoveValueBounds(board: Board, i: Index)
    ensures -10 <= MoveValue(board, i) <= 10
  {
    CountUpdate(board, i, Mark(O), Empty);
    ValueBounds(board[i := Mark(O)], 0, false);
  }

  /** What the loop of `findBestMove` keeps: `bestMove` is -1 while no empty
      slot was seen, and otherwise the first empty slot of greatest value seen. */
  ghost predicate BestSoFar(board: Board, i: nat, bestVal: int, bestMove: int) {
    (bestMove == -1 && bestVal == MinusInfinity &&
      forall j :: 0 <= j < i && j < 9 ==> board[j] != Empty) ||
    (0 <= bestMove < i && bestMove < 9 && board[bestMove] == Empty &&
      bestVal == MoveValue(board, bestMove) &&
      (forall j :: 0 <= j < i && j < 9 && board[j] == Empty ==> MoveValue(board, j) <= bestVal) &&
      (forall j :: 0 <= j < bestMove && board[j] == Empty ==> MoveValue(board, j) < bestVal))
  }

  lemma {:induction false} BestFromChoice(board: Board, i: nat, bestVal: int, bestMove: int)
    requires i <= 9 && BestSoFar(board, i, bestVal, bestMove)
    ensures var m := BestFrom(board, i, bestVal, bestMove);
      (m == -1 <==> forall j :: 0 <= j < 9 ==> board[j] != Empty) &&
      (m != -1 ==>
         0 <= m < 9 && board[m] == Empty &&
         (forall j :: 0 <= j < 9 && board[j] == Empty ==> MoveValue(board, j) <= MoveValue(board, m)) &&
         (forall j :: 0 <= j < m && board[j] == Empty ==> MoveValue(board, j) < MoveValue(board, m)))
    decreases 9 - i
  {
    if i < 9 {
      if board[i] == Empty {
        var moveVal := MoveValue(board, i);
        MoveValueBounds(board, i);
        if moveVal > bestVal {
          BestFromChoice(board, i + 1, moveVal, i);
        } else {
          BestFromChoice(board, i + 1, bestVal, bestMove);
        }
      } else {
        BestFromChoice(board, i + 1, bestVal, bestMove);
      }
    }
  }

  /** `findBestMove` returns -1 exactly when no slot is empty; otherwise an
      empty slot whose value is the greatest, and the smallest such slot. */
  lemma BestMoveChoice(board: Board)
    ensures var m := BestMove(board);
      (m == -1 <==> !MovesLeft(board)) &&
      (m != -1 ==>
         0 <= m < 9 && board[m] == Empty &&
         (forall j :: 0 <= j < 9 && board[j] == Empty ==> MoveValue(board, j) <= MoveValue(board, m)) &&
         (forall j :: 0 <= j < m && board[j] == Empty ==> MoveValue(board, j) < MoveValue(board, m)))
  {
    BestFromChoice(board, 0, MinusInfinity, -1);
  }

  /** With `[O, O, _, X, X, _, _, _, _]` the computer completes the top row at
      once: the immediate win scores 10, which no other move can beat. */
  lemma FastestWin()
    ensures BestMove([Mark(O), Mark(O), Empty, Mark(X), Mark(X), Empty, Empty, Empty, Empty]) == 2
  {
    var board: Board := [Mark(O), Mark(O), Empty, Mark(X), Mark(X), Empty, Empty, Empty, Empty];
    BestMoveChoice(board);
    assert Complete(board[2 := Mark(O)], Lines[0]);
    assert MoveValue(board, 2) == 10;
    var m := BestMove(board);
    assert board[2] == Empty;
    MoveValueBounds(board, m);
  }

  /** A full board without a line, `[X, O, X, X, O, O, O, X, X]`, scores 0 at
      every depth and for either player. */
  lemma DrawScoresZero(depth: int, isMax: bool)
    ensures Value([Mark(X), Mark(O), Mark(X), Mark(X), Mark(O), Mark(O), Mark(O), Mark(X), Mark(X)], depth, isMax) == 0
  {
    var board: Board := [Mark(X), Mark(O), Mark(X), Mark(X), Mark(O), Mark(O), Mark(O), Mark(X), Mark(X)];
    ValueTerminal(board, depth, isMax);
  }
}
