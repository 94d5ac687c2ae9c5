/** The tic-tac-toe rules of the game hub: the board, the winner check and the
    round record that the session keeps (app/page.tsx:16-23, 147-165). */
module TicTacToe {
  import opened Wrappers

  /** The two marks; the human plays X and the remote opponent plays O. */
  datatype Mark = X | O

  /** A square holds a mark or is empty (`null`). */
  type Cell = Option<Mark>

  /** A board index. */
  type Square = i: int | 0 <= i < 9

  /** The eight winning lines, in the order the winner check scans them. */
  const Lines: seq<(Square, Square, Square)> :=
    [(0, 1, 2), (3, 4, 5), (6, 7, 8),
     (0, 3, 6), (1, 4, 7), (2, 5, 8),
     (0, 4, 8), (2, 4, 6)]

  /** The board of a fresh round: nine empty squares. */
  function EmptyBoard(): seq<Cell> {
    seq(9, _ => None)
  }

  /** Every square is taken (`board.every(cell => cell !== null)`). */
  predicate IsFull(board: seq<Cell>) {
    forall i :: 0 <= i < |board| ==> board[i].Some?
  }

  /** Line `k` holds three equal marks. */
  predicate Complete(board: seq<Cell>, k: nat)
    requires |board| == 9 && k < |Lines|
  {
    var (a, b, c) := Lines[k];
    board[a].Some? && board[a] == board[b] && board[a] == board[c]
  }

  /** The mark on the first square of line `k`. */
  function LineOwner(board: seq<Cell>, k: nat): Cell
    requires |board| == 9 && k < |Lines|
  {
    board[Lines[k].0]
  }

  /** The outcome of scanning the lines from `k` on: the owner of the first
      complete line, or `None` when no line from `k` on is complete. */
  function WinnerFrom(board: seq<Cell>, k: nat): (r: Option<Mark>)
    requires |board| == 9 && k <= |Lines|
    ensures r.None? <==> forall j :: k <= j < |Lines| ==> !Complete(board, j)
    ensures r.Some? ==>
      exists j :: k <= j < |Lines| && Complete(board, j) && LineOwner(board, j) == r &&
        forall i :: k <= i < j ==> !Complete(board, i)
    decreases |Lines| - k
  {
    if k == |Lines| then None
    else if Complete(board, k) then LineOwner(board, k)
    else WinnerFrom(board, k + 1)
  }

  /** The winner of a board, as the winner check defines it. */
  function Winner(board: seq<Cell>): Option<Mark>
    requires |board| == 9
  {
    WinnerFrom(board, 0)
  }

  /** The winner check: scans the lines in order and returns the mark of the
      first one whose three squares are equal and taken. */
  method CalculateWinner(squares: seq<Cell>) returns (r: Option<Mark>)
    requires |squares| == 9
    ensures r == Winner(squares)
  {
    for k := 0 to |Lines|
      invariant Winner(squares) == WinnerFrom(squares, k)
    {
      var (a, b, c) := Lines[k];
      if squares[a].Some? && squares[a] == squares[b] && squares[a] == squares[c] {
        return squares[a];
      }
    }
    return None;
  }

  /** A fresh board has no winner and is not full. */
  lemma EmptyBoardOpen()
    ensures |EmptyBoard()| == 9 && Winner(EmptyBoard()).None? && !IsFull(EmptyBoard())
  {
    var b := EmptyBoard();
    assert !Complete(b, 0) && !Complete(b, 1) && !Complete(b, 2) && !Complete(b, 3);
    assert !Complete(b, 4) && !Complete(b, 5) && !Complete(b, 6) && !Complete(b, 7);
    assert b[0].None?;
  }

  /** Putting mark `m` on an empty square of a board nobody has won can only
      make `m` the winner: every line the move completes runs through the
      square just taken. */
  lemma {:induction false} MoveWinsOnlyForMover(board: seq<Cell>, i: Square, m: Mark)
    requires |board| == 9 && board[i].None? && Winner(board).None?
    ensures Winner(board[i := Some(m)]) in {None, Some(m)}
  {
    var next := board[i := Some(m)];
    if Winner(next).Some? {
      var j :| 0 <= j < |Lines| && Complete(next, j) && LineOwner(next, j) == Winner(next);
      assert !Complete(board, j);
      var (a, b, c) := Lines[j];
      assert a == i || b == i || c == i;
    }
  }

  /** The tic-tac-toe record of the session: the board of the round in play
      and the counters that outlive a round. */
  datatype TicTacToeState = TicTacToeState(
    board: seq<Cell>,
    isXNext: bool,
    winner: Option<Mark>,
    draws: nat,
    wins: nat,
    losses: nat)

  /** What every reachable tic-tac-toe state satisfies: nine squares, the
      recorded winner is the winner of the board, and while a reply is
      awaited the round is still open. */
  predicate ValidRound(s: TicTacToeState, loading: bool) {
    |s.board| == 9 && s.winner == Winner(s.board) &&
    (loading ==> s.winner.None? && !IsFull(s.board))
  }

  /** The player's click on square `index` is ignored: a reply is awaited,
      the square is taken or the round has a winner. */
  predicate ClickIgnored(s: TicTacToeState, loading: bool, index: Square)
    requires |s.board| == 9
  {
    loading || s.board[index].Some? || s.winner.Some?
  }

  /** The record after X takes the empty square `index`: a line of X's wins
      the round and counts a win, a full board counts a draw, and otherwise
      the turn passes to the opponent. */
  function PlayerMoved(s: TicTacToeState, index: Square): (r: TicTacToeState)
    requires |s.board| == 9
  {
    var board := s.board[index := Some(X)];
    if Winner(board) == Some(X) then s.(board := board, winner := Some(X), wins := s.wins + 1)
    else if IsFull(board) then s.(board := board, draws := s.draws + 1)
    else s.(board := board, isXNext := false)
  }

  /** X's move on a square the click handler accepts leaves a consistent
      record whose winner, if any, is X. */
  lemma PlayerMoveKeepsRound(s: TicTacToeState, index: Square)
    requires ValidRound(s, false) && !ClickIgnored(s, false, index)
    ensures var r := PlayerMoved(s, index);
      r.board == s.board[index := Some(X)] && r.winner != Some(O) && ValidRound(r, false)
  {
    MoveWinsOnlyForMover(s.board, index, X);
  }

  /** The record after O takes the empty square `square`: a line of O's
      wins the round for O and counts a loss, a full board counts a draw,
      and otherwise the turn passes back to X. */
  function OpponentMoved(s: TicTacToeState, square: Square): (r: TicTacToeState)
    requires |s.board| == 9
  {
    var board := s.board[square := Some(O)];
    if Winner(board) == Some(O) then s.(board := board, winner := Some(O), losses := s.losses + 1)
    else if IsFull(board) then s.(board := board, draws := s.draws + 1)
    else s.(board := board, isXNext := true)
  }

  /** O taking an empty square while a reply is awaited leaves a
      consistent record whose winner, if any, is O. */
  lemma OpponentMoveKeepsRound(s: TicTacToeState, square: Square)
    requires ValidRound(s, true) && s.board[square].None?
    ensures ValidRound(OpponentMoved(s, square), false)
    ensures OpponentMoved(s, square).winner != Some(X)
  {
    MoveWinsOnlyForMover(s.board, square, O);
  }

  /** The square the opponent's move `(row, col)` names, when that square is on
      the board and empty; any other move is skipped. */
  function OpponentSquare(board: seq<Cell>, move: Option<(int, int)>): (r: Option<Square>)
    requires |board| == 9
    ensures r.Some? ==> board[r.value].None?
    ensures r.Some? <==> move.Some? && 0 <= move.value.0 * 3 + move.value.1 < 9 &&
                          board[move.value.0 * 3 + move.value.1].None?
    ensures r.Some? ==> r.value == move.value.0 * 3 + move.value.1
  {
    match move
    case None => None
    case Some((row, col)) =>
      var index := row * 3 + col;
      if 0 <= index < 9 && board[index].None? then Some(index) else None
  }
}
