# Tic-tac-toe game engine, modelled in Dafny

This project models the game engine of a browser tic-tac-toe page, where a human plays X
and the computer plays O. The engine lives in `js/tictactoe.js`. It has four parts:

- **Board evaluation** (`grid.dfy`, module `Grid`). The board is nine slots, each `Empty`
  or `Mark(X)` / `Mark(O)`. `Lines` is the table of the eight winning triples.
  `EvaluateBoard` scans that table in order and scores the first complete line: 10 for O,
  -10 for X, 0 when no line is complete. `MovesLeft` reports whether any slot is empty.
- **Minimax search** (`search.dfy`, module `Search`). `Minimax` and `FindBestMove` are
  methods over a nine-slot `array<Cell>`. Like the source, they write a mark, recurse and
  then retract it. Each method is proved against a function of the array's contents:
  `Value` for `minimax` and `BestMove` for `findBestMove`. The lemmas prove the properties
  of the search about those functions: depth-weighted terminal scores, max/min over the
  children, bounds, and first-index tie-breaking. `-Infinity` and `Infinity` become the
  integer sentinels `MinusInfinity` and `PlusInfinity` (-1000 and 1000).
- **Move-log decoding** (`movelog.dfy`, module `MoveLog`). The log `selectedSquares` holds
  two-character strings such as `"4O"`. `MoveText` builds an entry. `EntrySquare` and
  `EntryPlayer` read it back. `Includes` is the substring test `String.prototype.includes`.
  `BoardOf` is the board that `getBoardState` builds from the log.
- **Turn state machine** (`game.dfy`, module `Game`). The class `Game.Game` holds the two
  globals, `activePlayer` and `selectedSquares`. Its methods are `PlaceXOrO`,
  `GetBoardState`, `ComputersTurn` and `ResetGame`. `CheckWinConditions` is the decision
  chain of `checkWinConditions`: every X line, then every O line, then a tie at nine moves.
  `EngineAgrees` proves that the controller's view of the game matches the engine's
  evaluation of `getBoardState`'s board. The one exception is a board where both players
  hold a line: there the controller reports X, while `evaluateBoard` reports the owner of
  the first line in table order.

Two details of `findBestMove` matter for the model:

- `findBestMove` passes depth 0 to its first `minimax` call (js/tictactoe.js:118).
- On a full board `findBestMove` returns -1, its initial choice, because no slot is tried
  (js/tictactoe.js:113, 127).

`evaluateBoard` reports the owner of the first complete line in table order.
`EvaluateOneSided` shows the order matters only when both players hold a line.

## Model

| member | source | states |
|---|---|---|
| `Grid.Lines` | js/tictactoe.js:62-66 | Definition of the `LINES` table, in source order; its properties are stated in `Grid.EvaluateBoardFirstLine` and `Game.SameLines`. |
| `Grid.EmptyBoard` | js/tictactoe.js:53 | Definition of `Array(9).fill(null)`; its properties are stated in `MoveLog.BoardOfSlot`. |
| `Grid.Complete` | js/tictactoe.js:70 | Definition of the test that a line's three slots hold the same mark; its properties are stated in `Grid.EvaluateBoardFirstLine`. |
| `Grid.ScanLines` | js/tictactoe.js:69-74 | Definition of the loop of `evaluateBoard` from one line of the table on; its properties are stated in `Grid.ScanLinesFirstLine`. |
| `Grid.ScanLinesFirstLine` | js/tictactoe.js:69-74 | From line `k` on, the loop returns 0 exactly when no later line is complete. It returns 10 or -10 exactly when the first complete line from `k` is O's or X's. |
| `Grid.EvaluateBoard` | js/tictactoe.js:68-75 | Definition of `evaluateBoard`; its properties are stated in `Grid.EvaluateBoardFirstLine` and `Grid.EvaluateOneSided`. |
| `Grid.Count` | js/tictactoe.js:77-79 | Definition of the number of slots holding a value; its properties are stated in `Grid.CountUpdate` and `Grid.MovesLeftCount`. |
| `Grid.CountUpdate` | js/tictactoe.js:90-92 | Writing one slot, as `board[i] = 'O'` does, changes the count of a value by what left and what came. |
| `Grid.EvaluateBoardFirstLine` | js/tictactoe.js:62-75 | `evaluateBoard` returns only -10, 0 or 10. It returns 10 exactly when the first complete line in `LINES` order is O's, -10 exactly when it is X's, and 0 exactly when no line is complete. |
| `Grid.EvaluateOneSided` | js/tictactoe.js:68-75 | When only one player holds a line, the score names that player whatever the scan order; the score is 0 exactly when neither player holds a line. |
| `Grid.TopRowForX` | js/tictactoe.js:68-75 | On `[X,X,X,_,O,O,_,_,_]` the first line of the table is complete and the board scores -10 (an X win). |
| `Grid.MovesLeft` | js/tictactoe.js:77-79 | `isMovesLeft` is true exactly when some slot is empty. |
| `Grid.MovesLeftCount` | js/tictactoe.js:77-79 | `isMovesLeft` is false exactly when the number of empty slots is zero. |
| `Grid.Other` | js/tictactoe.js:28 | The toggle always yields the other player. |
| `Search.Value` | js/tictactoe.js:82-109 | Definition of the score `minimax` computes; its properties are stated in `Search.ValueTerminal`, `Search.ValueRecursive` and `Search.ValueBounds`. |
| `Search.ChildValue` | js/tictactoe.js:90-94 | Definition of the score after the player to move takes one empty slot; its properties are stated in `Search.ValueRecursive`. |
| `Search.Fold` | js/tictactoe.js:90-96 | Definition of the loop of `minimax` from one slot on; its properties are stated in `Search.FoldChoice`. |
| `Search.Minimax` | js/tictactoe.js:82-109 | `minimax` returns the board exactly as it received it, and its result is `Value` of that board. |
| `Search.ValueTerminal` | js/tictactoe.js:83-86 | With O's line first, the score is `10 - depth`. With X's line first, it is `-10 + depth`. On a full board with no complete line, it is 0. |
| `Search.ValueRecursive` | js/tictactoe.js:88-108 | With no complete line and an empty slot, the result is at least every O child's score (or at most every X child's), and some child at `depth + 1` attains it. |
| `Search.FoldChoice` | js/tictactoe.js:90-96 | The loop yields either its starting value or the score of some empty slot it visits. No visited slot scores better for the player to move. |
| `Search.ValueBounds` | js/tictactoe.js:82-109 | For `0 <= depth` and `depth + empties <= 10`, the score lies in `[-10 + depth, 10 - depth]`, so in [-10, 10], and a sentinel never escapes. |
| `Search.DrawScoresZero` | js/tictactoe.js:86 | The full board `[X,O,X,X,O,O,O,X,X]`, which has no complete line, scores 0 at every depth, for either player. The general fact is the third `ensures` of `ValueTerminal`. |
| `Search.MoveValue` | js/tictactoe.js:117-119 | Definition of the score `findBestMove` gives one empty slot; its properties are stated in `Search.MoveValueBounds`. |
| `Search.BestFrom` | js/tictactoe.js:115-126 | Definition of the loop of `findBestMove` from one slot on; its properties are stated in `Search.BestFromChoice`. |
| `Search.BestFromChoice` | js/tictactoe.js:115-126 | From any state the loop can be in, it ends with -1 exactly when no slot is empty. Otherwise it ends with the smallest empty slot of greatest value. |
| `Search.BestMove` | js/tictactoe.js:111-128 | Definition of the result of `findBestMove`; its properties are stated in `Search.BestMoveChoice`. |
| `Search.FindBestMove` | js/tictactoe.js:111-128 | `findBestMove` returns the board exactly as it received it, and its result is `BestMove` of that board. |
| `Search.MoveValueBounds` | js/tictactoe.js:117-119 | Every candidate O move scores in [-10, 10], so the first empty slot always beats the `-Infinity` start. |
| `Search.BestMoveChoice` | js/tictactoe.js:111-128 | The result is -1 exactly when no slot is empty. Otherwise it is an empty slot of greatest value, and the smallest such slot, because of the strict `>`. |
| `Search.FastestWin` | js/tictactoe.js:111-128 | On `[O,O,_,X,X,_,_,_,_]` the computer picks slot 2, the immediate win. |
| `MoveLog.SquareText` | js/tictactoe.js:47 | Definition of `String(bestMove)`, the id of a cell, as one digit; its properties are stated in `MoveLog.IncludesSquare`. |
| `MoveLog.MoveText` | js/tictactoe.js:19 | Definition of the entry `squareNumber + activePlayer`; its properties are stated in `MoveLog.EntryRoundTrip` and `MoveLog.EntryInverse`. |
| `MoveLog.EntrySquare` | js/tictactoe.js:55 | Definition of the slot read from an entry; its properties are stated in `MoveLog.EntryRoundTrip` and `MoveLog.EntryInverse`. |
| `MoveLog.EntryPlayer` | js/tictactoe.js:56 | Definition of the player read from an entry; its properties are stated in `MoveLog.EntryRoundTrip` and `MoveLog.EntryInverse`. |
| `MoveLog.EntryRoundTrip` | js/tictactoe.js:19 | An entry `squareNumber + activePlayer` is well formed, and reading it back gives the same slot and player. |
| `MoveLog.EntryInverse` | js/tictactoe.js:55-56 | Every well-formed entry equals the text of the slot and player parsed from it. |
| `MoveLog.BoardOf` | js/tictactoe.js:52-60 | Definition of the board `getBoardState` builds; its properties are stated in `MoveLog.BoardOfSlot`. |
| `MoveLog.BoardOfSlot` | js/tictactoe.js:52-60 | Slot `i` of the board holds the player of the last entry naming `i`. It is empty exactly when no entry names `i`. |
| `MoveLog.Includes` | js/tictactoe.js:12 | Definition of `String.prototype.includes`; its properties on log entries are stated in `MoveLog.IncludesSquare`. |
| `MoveLog.IncludesSquare` | js/tictactoe.js:12 | `el.includes(squareNumber)` holds on an entry exactly when the entry names that slot. |
| `MoveLog.Occupied` | js/tictactoe.js:12 | Definition of the occupancy test of `placeXOrO`; its properties are stated in `MoveLog.OccupiedMarked`. |
| `MoveLog.OccupiedMarked` | js/tictactoe.js:12 | The occupancy test of `placeXOrO` holds exactly when that slot of `getBoardState`'s board is not empty. |
| `MoveLog.LoggedIffMarked` | js/tictactoe.js:135-140 | With distinct slots in the log, `selectedSquares.includes(sq + p)` holds exactly when slot `sq` of the board holds `p`. |
| `MoveLog.EmptySlots` | js/tictactoe.js:12-19 | A log with distinct slots leaves exactly `9 - length` slots empty. |
| `MoveLog.MarkBalance` | js/tictactoe.js:19-28 | An alternating log with distinct slots puts `(n+1)/2` X marks and `n/2` O marks on the board. X minus O is 0 or 1. |
| `Game.WinChecks` | js/tictactoe.js:143-150 | Definition of the lines `checkWinConditions` tries, in its order; its properties are stated in `Game.SameLines`. |
| `Game.Logged` | js/tictactoe.js:135-140 | Definition of `arrayIncludes` on one line's three entries for one player; its properties are stated in `Game.LoggedLineIffHasLine`. |
| `Game.FirstLogged` | js/tictactoe.js:143-160 | Definition of the `else if` chain for one player; its properties are stated in `Game.FirstLoggedFinds`. |
| `Game.CheckWinConditions` | js/tictactoe.js:133-170 | Definition of the decision `checkWinConditions` makes; its properties are stated in `Game.CheckWinConditionsOrder` and `Game.EngineAgrees`. |
| `Game.FirstLoggedFinds` | js/tictactoe.js:143-160 | For one player, the chain of line tests finds a line exactly when that player holds one, and returns a line it holds. |
| `Game.CheckWinConditionsOrder` | js/tictactoe.js:133-170 | An X win is reported exactly when X holds a line. An O win is reported exactly when X holds none and O holds one. A tie is reported exactly when nobody holds a line and there are at least 9 moves. Otherwise play goes on. The reported line is held by the winner. |
| `Game.SameLines` | js/tictactoe.js:62-66 | The lines `checkWinConditions` tries are the eight lines of `LINES`. |
| `Game.LoggedLineIffHasLine` | js/tictactoe.js:135-160 | With distinct slots, the log holds a line for `p` exactly when `getBoardState`'s board does. |
| `Game.EngineAgrees` | js/tictactoe.js:133-170 | While play goes on, the board scores 0 and has an empty slot. A tie is a full board scoring 0. An O win scores 10. An X win scores -10 unless O also holds a line. |
| `Game.LogAppend` | js/tictactoe.js:12-19 | Appending an entry for an empty slot keeps the log well formed with distinct slots. It keeps the log alternating when the entry is for the player whose turn it is. |
| `Game.FirstMoveOngoing` | js/tictactoe.js:143-169 | After a single move, `checkWinConditions` lets play go on. |
| `Game.Game.Valid` | js/tictactoe.js:12-19 | Definition of the class invariant: every entry has the shape `placeXOrO` writes, and no two entries name the same slot. The methods of `Game.Game` preserve it. |
| `Game.Game.TurnsAlternate` | js/tictactoe.js:19-35 | Definition of the turn invariant: moves alternate from X, and `activePlayer` is the player to move while play goes on. `PlaceXOrO` preserves it for a move made while play goes on; `ComputersTurn` and `ResetGame` preserve it. |
| `Game.Game.constructor` | js/tictactoe.js:1-5 | The game starts with an empty log and X to move. |
| `Game.Game.PlaceXOrO` | js/tictactoe.js:10-39 | On a slot already in the log nothing changes and the result is false. Otherwise the entry `squareNumber + activePlayer` is appended and the result is true. The player toggles only when the game did not just end. Alternation is preserved while the game is in progress. |
| `Game.Game.GetBoardState` | js/tictactoe.js:52-60 | A fresh nine-slot array holding `BoardOf` of the log. |
| `Game.Game.ComputersTurn` | js/tictactoe.js:44-49 | On a game in progress, the computer's chosen slot `BestMove` is empty and is appended for the player to move, with the same turn update as `placeXOrO`. |
| `Game.Game.ResetGame` | js/tictactoe.js:223-224 | The log is empty and X is to move again, exactly the initial state. |
| `Game.CentreOpening` | js/tictactoe.js:10-49 | A driver: after X takes the centre and the computer answers, the log holds two moves, and a second click on the centre is refused with no change. |

## Left out

- Drawing, images, audio and the canvas line (`document.getElementById`, `audio`, `drawWinLine`,
  the coordinates passed to `win`, the `td` clearing in `resetGame`): presentation through
  browser APIs. `CheckWinConditions` returns the winning line instead of drawing it.
- `disableClick`/`enableClick`: the model does not block calls. `PlaceXOrO` may therefore be called
  after a win, while the page would ignore clicks until `resetGame` runs. For this reason
  `TurnsAlternate` is claimed preserved only by moves made while play goes on. In the code,
  `computersTurn` calls `enableClick` after a winning computer move, which undoes the
  `disableClick` of `win`. This is not modelled.
- `setTimeout`: the delayed `computersTurn` and `resetGame` become the methods `ComputersTurn` and
  `ResetGame`, which the caller invokes. `ComputersTurn` requires a game in progress, which is when
  `placeXOrO` schedules it.
- `Search.Value`: `-Infinity`/`Infinity` are the integer sentinels -1000 and 1000. They agree with
  the floating-point values whenever every score exceeds the sentinels. `ValueBounds` proves this for
  every depth in `[0, 10 - empties]`, which covers every call `findBestMove` makes. Deeper, nonsensical
  depths are not modelled.
- `MoveLog.EntrySquare`: the regular-expression parse `move.match(/\d+/)` is modelled only on
  well-formed entries (a digit 0-8 followed by `X` or `O`). `placeXOrO` writes nothing else, and
  `Game.Valid` keeps that invariant.
- `Game.Game.PlaceXOrO`: `squareNumber` is a slot 0-8. Other arguments are not modelled; the page
  passes only the ids of its nine cells.
- Optimality ("the computer never loses") and the first move on the empty board: both need the whole
  game tree to be evaluated. They are not proved.
