/** The move log `selectedSquares` of js/tictactoe.js: its entries are the
    two-character strings `squareNumber + activePlayer` (such as "4O"), and
    `getBoardState` turns the log into a nine-slot board. */
module MoveLog {
  import opened Grid

  /** `String(sq)`, the element id of slot `sq`: one decimal digit. */
  function SquareText(sq: Index): (t: string)
    ensures |t| == 1 && '0' <= t[0] <= '8'
  {
    [('0' as int + sq) as char]
  }

  /** The `activePlayer` letter. */
  function PlayerChar(p: Player): (c: char)
    ensures c == 'X' || c == 'O'
  {
    if p == X then 'X' else 'O'
  }

  /** The log entry `squareNumber + activePlayer`. */
  function MoveText(sq: Index, p: Player): string {
    SquareText(sq) + [PlayerChar(p)]
  }

  /** The shape of every entry `placeXOrO` writes. */
  predicate WellFormed(entry: string) {
    |entry| == 2 && '0' <= entry[0] <= '8' && (entry[1] == 'X' || entry[1] == 'O')
  }

  predicate WellFormedLog(log: seq<string>) {
    forall k :: 0 <= k < |log| ==> WellFormed(log[k])
  }

  /** `parseInt(move.match(/\d+/)[0], 10)`: on a well-formed entry the first
      run of digits is its first character. */
  function EntrySquare(entry: string): Index
    requires WellFormed(entry)
  {
    entry[0] as int - '0' as int
  }

  /** `move.slice(-1)`: the last character. */
  function EntryPlayer(entry: string): Player
    requires WellFormed(entry)
  {
    if entry[|entry| - 1] == 'X' then X else O
  }

  /** Reading an entry back gives the slot and the player it was written with. */
  lemma EntryRoundTrip(sq: Index, p: Player)
    ensures WellFormed(MoveText(sq, p))
    ensures EntrySquare(MoveText(sq, p)) == sq && EntryPlayer(MoveText(sq, p)) == p
  {
  }

  /** Every well-formed entry is the text of the move it reads as. */
  lemma EntryInverse(entry: string)
    requires WellFormed(entry)
    ensures MoveText(EntrySquare(entry), EntryPlayer(entry)) == entry
  {
    var t := MoveText(EntrySquare(entry), EntryPlayer(entry));
    assert t[0] == entry[0] && t[1] == entry[1];
  }

  /** `getBoardState`: the slots written by the log, in log order, over an
      empty board. */
  function BoardOf(log: seq<string>): Board
    requires WellFormedLog(log)
  {
    if log == [] then EmptyBoard
    else
      var last := log[|log| - 1];
      BoardOf(log[..|log| - 1])[EntrySquare(last) := Mark(EntryPlayer(last))]
  }

  /** Entry `k` is the last one of the log that names slot `i`. */
  predicate LastEntryFor(log: seq<string>, i: Index, k: int)
    requires WellFormedLog(log)
  {
    0 <= k < |log| && EntrySquare(log[k]) == i &&
    forall k' :: k < k' < |log| ==> EntrySquare(log[k']) != i
  }

  /** Slot `i` of `getBoardState`'s result holds the player of the last entry
      naming `i`, and stays empty when no entry names it. */
  lemma {:induction false} BoardOfSlot(log: seq<string>, i: Index)
    requires WellFormedLog(log)
    ensures BoardOf(log)[i] == Empty <==> forall k :: 0 <= k < |log| ==> EntrySquare(log[k]) != i
    ensures forall k :: LastEntryFor(log, i, k) ==> BoardOf(log)[i] == Mark(EntryPlayer(log[k]))
    ensures BoardOf(log)[i] != Empty ==> exists k :: LastEntryFor(log, i, k)
    decreases |log|
  {
    if log != [] {
      var n := |log| - 1;
      var pre := log[..n];
      assert forall k :: 0 <= k < n ==> pre[k] == log[k];
      BoardOfSlot(pre, i);
      if EntrySquare(log[n]) == i {
        assert LastEntryFor(log, i, n);
        forall k | LastEntryFor(log, i, k) ensures k == n {
        }
      } else {
        forall k | LastEntryFor(log, i, k) ensures LastEntryFor(pre, i, k) {
        }
        if BoardOf(log)[i] != Empty {
          var k :| LastEntryFor(pre, i, k);
          assert LastEntryFor(log, i, k);
        }
      }
    }
  }

  /** `s.includes(t)`: `t` occurs in `s` as a contiguous piece. */
  function Includes(s: string, t: string): bool
    decreases |s|
  {
    if |t| > |s| then false
    else if s[..|t|] == t then true
    else Includes(s[1..], t)
  }

  /** On a log entry, `el.includes(squareNumber)` holds exactly when the entry
      names that slot: the player letter never matches a digit. */
  lemma IncludesSquare(entry: string, sq: Index)
    requires WellFormed(entry)
    ensures Includes(entry, SquareText(sq)) <==> EntrySquare(entry) == sq
  {
    var t := SquareText(sq);
    assert entry[1..][..1] == [entry[1]];
    assert entry[1..][1..] == [];
    assert Includes(entry[1..], t) == Includes(entry[1..][1..], t);
  }

  /** `selectedSquares.some(el => el.includes(squareNumber))`. */
  predicate Occupied(log: seq<string>, sq: Index) {
    exists k :: 0 <= k < |log| && Includes(log[k], SquareText(sq))
  }

  /** The occupancy test of `placeXOrO` agrees with the board `getBoardState`
      builds: a slot counts as taken exactly when it is not empty there. */
  lemma OccupiedMarked(log: seq<string>, sq: Index)
    requires WellFormedLog(log)
    ensures Occupied(log, sq) <==> BoardOf(log)[sq] != Empty
  {
    BoardOfSlot(log, sq);
    forall k | 0 <= k < |log| ensures Includes(log[k], SquareText(sq)) <==> EntrySquare(log[k]) == sq {
      IncludesSquare(log[k], sq);
    }
  }

  /** No two entries name the same slot, as `placeXOrO` ensures. */
  predicate DistinctSquares(log: seq<string>)
    requires WellFormedLog(log)
  {
    forall j, k :: 0 <= j < k < |log| ==> EntrySquare(log[j]) != EntrySquare(log[k])
  }

  /** With distinct slots, `selectedSquares.includes(MoveText(sq, p))` holds
      exactly when slot `sq` of the board holds `p`. */
  lemma LoggedIffMarked(log: seq<string>, sq: Index, p: Player)
    requires WellFormedLog(log) && DistinctSquares(log)
    ensures MoveText(sq, p) in log <==> BoardOf(log)[sq] == Mark(p)
  {
    BoardOfSlot(log, sq);
    EntryRoundTrip(sq, p);
    if MoveText(sq, p) in log {
      var k :| 0 <= k < |log| && log[k] == MoveText(sq, p);
      assert LastEntryFor(log, sq, k);
    }
    if BoardOf(log)[sq] == Mark(p) {
      var k :| LastEntryFor(log, sq, k);
      EntryInverse(log[k]);
      assert log[k] == MoveText(sq, p);
    }
  }

  /** With distinct slots every entry fills a slot of its own, so exactly
      `9 - |log|` slots stay empty (and the log has at most nine entries). */
  lemma {:induction false} EmptySlots(log: seq<string>)
    requires WellFormedLog(log) && DistinctSquares(log)
    ensures Count(BoardOf(log), Empty) == 9 - |log|
    decreases |log|
  {
    if log == [] {
      assert Count(EmptyBoard, Empty) == 9;
    } else {
      var n := |log| - 1;
      var pre := log[..n];
      assert forall k :: 0 <= k < n ==> pre[k] == log[k];
      EmptySlots(pre);
      var sq := EntrySquare(log[n]);
      BoardOfSlot(pre, sq);
      CountUpdate(BoardOf(pre), sq, Mark(EntryPlayer(log[n])), Empty);
    }
  }

  /** The player whose turn comes `k` moves into a game; X moves first. */
  function TurnOf(k: int): Player {
    if k % 2 == 0 then X else O
  }

  /** The log's entries alternate X, O, X, ... */
  predicate Alternating(log: seq<string>)
    requires WellFormedLog(log)
  {
    forall k :: 0 <= k < |log| ==> EntryPlayer(log[k]) == TurnOf(k)
  }

  /** On an alternating log with distinct slots the board holds one more X
      than O after an odd number of moves and as many after an even number. */
  lemma {:induction false} MarkBalance(log: seq<string>)
    requires WellFormedLog(log) && DistinctSquares(log) && Alternating(log)
    ensures Count(BoardOf(log), Mark(X)) == (|log| + 1) / 2
    ensures Count(BoardOf(log), Mark(O)) == |log| / 2
    ensures 0 <= Count(BoardOf(log), Mark(X)) - Count(BoardOf(log), Mark(O)) <= 1
    decreases |log|
  {
    if log == [] {
      assert Count(EmptyBoard, Mark(X)) == 0 && Count(EmptyBoard, Mark(O)) == 0;
    } else {
      var n := |log| - 1;
      var pre := log[..n];
      assert forall k :: 0 <= k < n ==> pre[k] == log[k];
      MarkBalance(pre);
      var sq, pl := EntrySquare(log[n]), EntryPlayer(log[n]);
      var before := BoardOf(pre);
      assert BoardOf(log) == before[sq := Mark(pl)];
      assert before[sq] == Empty by {
        BoardOfSlot(pre, sq);
      }
      assert pl == TurnOf(n);
      CountUpdate(before, sq, Mark(pl), Mark(X));
      CountUpdate(before, sq, Mark(pl), Mark(O));
      if n % 2 == 0 {
        assert (n + 2) / 2 == n / 2 + 1 && (n + 1) / 2 == n / 2;
      } else {
        assert (n + 2) / 2 == (n + 1) / 2 && (n + 1) / 2 == n / 2 + 1;
      }
    }
  }
}
