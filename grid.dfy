/** The 3x3 board, the table of winning lines and the static evaluation of a
    position: `LINES`, `evaluateBoard` and `isMovesLeft` of js/tictactoe.js. */
module Grid {

  /** The two marks; X is the human, O the computer. */
  datatype Player = X | O

  /** A board slot: `null` in the source, or the letter of the player who took it. */
  datatype Cell = Empty | Mark(player: Player)

  /** The toggle `activePlayer === 'X' ? 'O' : 'X'`. */
  function Other(p: Player): (q: Player)
    ensures q != p
  {
    if p == X then O else X
  }

  type Index = i: int | 0 <= i < 9

  /** A board has nine slots, laid out row by row. */
  type Board = b: seq<Cell> | |b| == 9
    witness [Empty, Empty, Empty, Empty, Empty, Empty, Empty, Empty, Empty]

  /** `Array(9).fill(null)` */
  const EmptyBoard: Board := [Empty, Empty, Empty, Empty, Empty, Empty, Empty, Empty, Empty]

  /** A winning triple of slots. */
  datatype Line = Line(a: Index, b: Index, c: Index)

  /** The `LINES` table, in the order `evaluateBoard` scans it. */
  const Lines: seq<Line> := [
    Line(0, 1, 2), Line(3, 4, 5), Line(6, 7, 8),  // rows
    Line(0, 3, 6), Line(1, 4, 7), Line(2, 5, 8),  // columns
    Line(0, 4, 8), Line(2, 4, 6)                  // diagonals
  ]

  /** `board[a] && board[a] === board[b] && board[a] === board[c]` */
  predicate Complete(board: Board, l: Line) {
    board[l.a] != Empty && board[l.a] == board[l.b] && board[l.a] == board[l.c]
  }

  /** The loop of `evaluateBoard` from line `k` of the table on. */
  function ScanLines(board: Board, k: nat): int
    decreases |Lines| - k
  {
    if k >= |Lines| then 0
    else if Complete(board, Lines[k]) then (if board[Lines[k].a] == Mark(O) then 10 else -10)
    else ScanLines(board, k + 1)
  }

  /** 10 when O holds a line, -10 when X does, 0 otherwise; the first complete
      line of the table decides. */
  function EvaluateBoard(board: Board): int {
    ScanLines(board, 0)
  }

  /** Line `j` is the first complete one at or after line `k` of the table. */
  predicate FirstCompleteFrom(board: Board, k: int, j: int) {
    0 <= k <= j < |Lines| && Complete(board, Lines[j]) &&
    forall i :: k <= i < j ==> !Complete(board, Lines[i])
  }

  /** Player `p` holds some line of the table. */
  predicate HasLine(board: Board, p: Player) {
    exists k :: 0 <= k < |Lines| && Complete(board, Lines[k]) && board[Lines[k].a] == Mark(p)
  }

  lemma {:induction false} ScanLinesFirstLine(board: Board, k: nat)
    requires k <= |Lines|
    ensures var r := ScanLines(board, k);
      (r == 0 <==> forall j :: k <= j < |Lines| ==> !Complete(board, Lines[j])) &&
      (r == 10 <==> exists j :: FirstCompleteFrom(board, k, j) && board[Lines[j].a] == Mark(O)) &&
      (r == -10 <==> exists j :: FirstCompleteFrom(board, k, j) && board[Lines[j].a] == Mark(X))
    decreases |Lines| - k
  {
    if k == |Lines| {
    } else if Complete(board, Lines[k]) {
      assert FirstCompleteFrom(board, k, k);
      var owner := board[Lines[k].a];
      if owner == Mark(X) {
        assert FirstCompleteFrom(board, k, k) && board[Lines[k].a] == Mark(X);
      } else {
        assert owner != Empty;
        assert owner.player != X;
      }
      var lk := Lines[k];
      forall j: int | FirstCompleteFrom(board, k, j) ensures j == k {
        assert j <= k || !Complete(board, lk);
      }
    } else {
      ScanLinesFirstLine(board, k + 1);
      forall j ensures FirstCompleteFrom(board, k, j) <==> FirstCompleteFrom(board, k + 1, j) {
        if FirstCompleteFrom(board, k, j) { assert j != k; }
      }
    }
  }

  /** `evaluateBoard` returns 10 exactly when the first complete line of the
      table is O's, -10 exactly when it is X's, and 0 exactly when no line is
      complete; it returns nothing else. */
  lemma EvaluateBoardFirstLine(board: Board)
    ensures var r := EvaluateBoard(board);
      (r == -10 || r == 0 || r == 10) &&
      (r == 0 <==> forall j :: 0 <= j < |Lines| ==> !Complete(board, Lines[j])) &&
      (r == 10 <==> exists j :: FirstCompleteFrom(board, 0, j) && board[Lines[j].a] == Mark(O)) &&
      (r == -10 <==> exists j :: FirstCompleteFrom(board, 0, j) && board[Lines[j].a] == Mark(X))
  {
    ScanLinesFirstLine(board, 0);
    if EvaluateBoard(board) != 0 {
      var j :| 0 <= j < |Lines| && Complete(board, Lines[j]);
      var f := FirstOf(board, 0, j);
      assert board[Lines[f].a] == Mark(O) || board[Lines[f].a] == Mark(X);
    }
  }

  /** Some complete line at or before `j` is the first complete one from `k`. */
  lemma {:induction false} FirstOf(board: Board, k: nat, j: nat) returns (f: nat)
    requires k <= j < |Lines| && Complete(board, Lines[j])
    ensures FirstCompleteFrom(board, k, f) && f <= j
    decreases j - k
  {
    if Complete(board, Lines[k]) {
      f := k;
    } else {
      f := FirstOf(board, k + 1, j);
    }
  }

  /** When only one player holds a line, the scan order does not matter:
      the result names that player, and it is 0 when nobody holds one. */
  lemma EvaluateOneSided(board: Board)
    ensures !HasLine(board, X) ==> (EvaluateBoard(board) == 10 <==> HasLine(board, O)) && EvaluateBoard(board) != -10
    ensures !HasLine(board, O) ==> (EvaluateBoard(board) == -10 <==> HasLine(board, X)) && EvaluateBoard(board) != 10
    ensures EvaluateBoard(board) == 0 <==> !HasLine(board, X) && !HasLine(board, O)
  {
    EvaluateBoardFirstLine(board);
    if HasLine(board, X) || HasLine(board, O) {
      var k :| 0 <= k < |Lines| && Complete(board, Lines[k]);
      var f := FirstOf(board, 0, k);
      assert board[Lines[f].a] == Mark(X) ==> HasLine(board, X);
      assert board[Lines[f].a] == Mark(O) ==> HasLine(board, O);
    }
  }

  /** `isMovesLeft`: some slot is still empty. */
  function MovesLeft(board: seq<Cell>): (r: bool)
    ensures r <==> exists i :: 0 <= i < |board| && board[i] == Empty
  {
    if |board| == 0 then false
    else if board[0] == Empty then true
    else
      var rest := MovesLeft(board[1..]);
      assert forall i :: 1 <= i < |board| ==> board[i] == board[1..][i - 1];
      rest
  }

  /** The number of slots holding `c`. */
  function Count(s: seq<Cell>, c: Cell): (n: nat)
    ensures n <= |s|
  {
    if s == [] then 0 else (if s[0] == c then 1 else 0) + Count(s[1..], c)
  }

  /** Writing one slot changes the count of `c` by what left and what came. */
  lemma {:induction false} CountUpdate(s: seq<Cell>, i: nat, v: Cell, c: Cell)
    requires i < |s|
    ensures Count(s[i := v], c) == Count(s, c) - (if s[i] == c then 1 else 0) + (if v == c then 1 else 0)
  {
    if i == 0 {
      assert s[i := v][1..] == s[1..];
    } else {
      assert s[i := v][1..] == s[1..][i - 1 := v];
      CountUpdate(s[1..], i - 1, v, c);
    }
  }

  /** `isMovesLeft` is false exactly when no slot is empty. */
  lemma {:induction false} MovesLeftCount(s: seq<Cell>)
    ensures MovesLeft(s) <==> Count(s, Empty) > 0
  {
    if s != [] {
      MovesLeftCount(s[1..]);
      assert MovesLeft(s) <==> s[0] == Empty || MovesLeft(s[1..]) by {
        assert forall i :: 1 <= i < |s| ==> s[i] == s[1..][i - 1];
        if MovesLeft(s[1..]) {
          var i :| 0 <= i < |s[1..]| && s[1..][i] == Empty;
          assert s[i + 1] == Empty;
        }
      }
    }
  }

  /** `[X, X, X, _, O, O, _, _, _]` is won for X through the top row, the
      first line of the table. */
  lemma TopRowForX()
    ensures var board: Board := [Mark(X), Mark(X), Mark(X), Empty, Mark(O), Mark(O), Empty, Empty, Empty];
      FirstCompleteFrom(board, 0, 0) && EvaluateBoard(board) == -10 && HasLine(board, X) && !HasLine(board, O)
  {
    var board: Board := [Mark(X), Mark(X), Mark(X), Empty, Mark(O), Mark(O), Empty, Empty, Empty];
    assert Complete(board, Lines[0]);
  }
}
