/** The game hub session: the state the page component keeps for the three
    games and the total score, and the handlers that change it
    (app/page.tsx:55-93, 167-451). */
module GameHub {
  import opened Wrappers
  import opened TicTacToe
  import AgentReply
  import MemoryMatch
  import NumberGuess

  /** Points for winning tic-tac-toe, guessing the number and matching all
      pairs. */
  const TttWinPoints: nat := 10
  const GuessPoints: nat := 15
  const MemoryWinPoints: nat := 20

  class Session {
    var totalScore: nat
    var ttt: TicTacToeState
    var tttLoading: bool
    var memory: MemoryMatch.MemoryGameState
    var number: NumberGuess.NumberGuessState
    /** The memory games won so far; the score is kept in step with it. */
    ghost var memoryWins: nat

    /** The session invariant: each game's record is consistent, a deck once
        dealt is a shuffle of the doubled faces, and the total score is
        exactly the points earned. */
    ghost predicate Valid()
      reads this
    {
      RoundValid() && MemoryValid() && NumberValid() && ScoreKept()
    }

    /** The tic-tac-toe record is consistent with the request flag. */
    ghost predicate RoundValid()
      reads this`ttt, this`tttLoading
    {
      ValidRound(ttt, tttLoading)
    }

    /** The memory record is consistent, and a dealt deck is a shuffle of
        the doubled faces. */
    ghost predicate MemoryValid()
      reads this`memory
    {
      MemoryMatch.Valid(memory) &&
      (memory.cards == [] || MemoryMatch.IsShuffle(MemoryMatch.Values(memory.cards)))
    }

    /** The number round is consistent. */
    ghost predicate NumberValid()
      reads this`number
    {
      NumberGuess.Valid(number)
    }

    /** The total score is 10 per tic-tac-toe win, 20 per memory game won
        and 15 per correct guess (`TttWinPoints`, `MemoryWinPoints` and
        `GuessPoints`, written as numbers to keep the sum linear). */
    ghost predicate ScoreKept()
      reads this`totalScore, this`ttt, this`memoryWins, this`number
    {
      totalScore == 10 * ttt.wins + 20 * memoryWins + 15 * number.won
    }

    /** The session as the page starts it, with the secret it drew. */
    constructor (secret: int)
      requires NumberGuess.InRange(secret)
      ensures Valid()
      ensures totalScore == 0 && !tttLoading
      ensures ttt == TicTacToeState(EmptyBoard(), true, None, 0, 0, 0)
      ensures memory == MemoryMatch.MemoryGameState([], [], 0, 0, false, Some(0))
      ensures number == NumberGuess.NumberGuessState(secret, [], NumberGuess.MaxAttempts, false, "", 0, 0)
    {
      totalScore := 0;
      ttt := TicTacToeState(EmptyBoard(), true, None, 0, 0, 0);
      tttLoading := false;
      memory := MemoryMatch.MemoryGameState([], [], 0, 0, false, Some(0));
      number := NumberGuess.NumberGuessState(secret, [], NumberGuess.MaxAttempts, false, "", 0, 0);
      memoryWins := 0;
      new;
      EmptyBoardOpen();
    }

    /** The player's click on square `index`. It is ignored while a reply
        is awaited, on a taken square and once the round has a winner.
        Otherwise X takes the square as `PlayerMoved` describes; a win adds
        ten points, and a reply is requested exactly when the round is
        still open. */
    method TttClick(index: Square) returns (requested: bool)
      requires Valid()
      modifies this`ttt, this`tttLoading, this`totalScore
      ensures Valid()
      ensures ClickIgnored(old(ttt), old(tttLoading), index) ==> unchanged(this) && !requested
      ensures !ClickIgnored(old(ttt), old(tttLoading), index) ==>
        ttt == PlayerMoved(old(ttt), index) && tttLoading == requested &&
        (requested <==> ttt.winner.None? && !IsFull(ttt.board)) &&
        totalScore == old(totalScore) + (if ttt.winner == Some(X) then TttWinPoints else 0)
    {
      if ClickIgnored(ttt, tttLoading, index) {
        return false;
      }
      PlayerMove(index);
      if ttt.winner == Some(X) {
        totalScore := totalScore + TttWinPoints;
        return false;
      }
      if IsFull(ttt.board) {
        return false;
      }
      tttLoading := true;
      requested := true;
    }

    /** X takes the square `index` the click handler accepted, and the
        board is checked for X's line and for a draw. */
    method PlayerMove(index: Square)
      requires ValidRound(ttt, false) && !ClickIgnored(ttt, false, index)
      modifies this`ttt
      ensures ttt == PlayerMoved(old(ttt), index)
      ensures ValidRound(ttt, ttt.winner.None? && !IsFull(ttt.board)) && ttt.winner != Some(O)
      ensures ttt.wins == old(ttt.wins) + (if ttt.winner == Some(X) then 1 else 0)
    {
      var before := ttt;
      PlayerMoveKeepsRound(before, index);
      var newBoard := before.board[index := Some(X)];
      var winner := CalculateWinner(newBoard);
      if winner == Some(X) {
        ttt := before.(board := newBoard, winner := Some(X), wins := before.wins + 1);
      } else if IsFull(newBoard) {
        ttt := before.(board := newBoard, draws := before.draws + 1);
      } else {
        ttt := before.(board := newBoard, isXNext := false);
      }
      assert ttt == PlayerMoved(before, index);
    }

    /** The opponent's reply to a requested move: the move it carries, if
        any, is applied as `TttOpponentTurn` describes. */
    method TttReply(reply: AgentReply.Reply)
      requires Valid() && tttLoading
      modifies this`ttt, this`tttLoading
      ensures Valid() && !tttLoading
      ensures totalScore == old(totalScore)
      ensures var square := OpponentSquare(old(ttt.board), AgentReply.ReplyMove(reply));
        if square.None? then ttt == old(ttt) else ttt == OpponentMoved(old(ttt), square.value)
    {
      var move := AgentReply.ReplyMove(reply);
      TttOpponentTurn(move);
    }

    /** The end of a requested move, given the move the reply carries; the
        request is over afterwards. A move is applied only when it names an
        empty square (`row * 3 + col`); with no usable move the board and
        counters stay as they were. */
    method TttOpponentTurn(move: Option<(int, int)>)
      requires Valid() && tttLoading
      modifies this`ttt, this`tttLoading
      ensures Valid() && !tttLoading
      ensures totalScore == old(totalScore)
      ensures var square := OpponentSquare(old(ttt.board), move);
        if square.None? then ttt == old(ttt) else ttt == OpponentMoved(old(ttt), square.value)
    {
      var square := OpponentSquare(ttt.board, move);
      if square.Some? {
        ApplyOpponentMove(square.value);
      }
      tttLoading := false;
    }

    /** O takes the empty square `square` while a reply is awaited. */
    method ApplyOpponentMove(square: Square)
      requires ValidRound(ttt, true) && ttt.board[square].None?
      modifies this`ttt
      ensures ValidRound(ttt, false) && ttt.wins == old(ttt.wins)
      ensures ttt == OpponentMoved(old(ttt), square)
    {
      var before := ttt;
      OpponentMoveKeepsRound(before, square);
      var aiBoard := before.board[square := Some(O)];
      var aiWinner := CalculateWinner(aiBoard);
      if aiWinner == Some(O) {
        ttt := before.(board := aiBoard, winner := Some(O), losses := before.losses + 1);
      } else if IsFull(aiBoard) {
        ttt := before.(board := aiBoard, draws := before.draws + 1);
      } else {
        ttt := before.(board := aiBoard, isXNext := true);
      }
      assert ttt == OpponentMoved(before, square);
    }

    /** A new tic-tac-toe round: an empty board, X to move, no winner, and
        the win, draw and loss counters kept. */
    method ResetTtt()
      requires Valid()
      modifies this`ttt
      ensures Valid()
      ensures ttt == TicTacToeState(EmptyBoard(), true, None, old(ttt.draws), old(ttt.wins), old(ttt.losses))
    {
      ttt := TicTacToeState(EmptyBoard(), true, None, ttt.draws, ttt.wins, ttt.losses);
      EmptyBoardOpen();
    }

    /** A click on memory card `id` (the flip step). Returns whether the
        click made the second pick, which schedules the delayed resolution. */
    method MemoryCardClick(id: nat) returns (resolutionDue: bool)
      requires Valid()
      modifies this`memory
      ensures Valid()
      ensures memory == MemoryMatch.Click(old(memory), id)
      ensures resolutionDue <==> !MemoryMatch.ClickIgnored(old(memory), id) && |memory.selectedCards| == 2
    {
      var before := memory;
      memory := MemoryMatch.Click(memory, id);
      assert MemoryMatch.Values(memory.cards) == MemoryMatch.Values(before.cards);
      resolutionDue := !MemoryMatch.ClickIgnored(before, id) && |memory.selectedCards| == 2;
    }

    /** The delayed resolution of two picks. Finding the eighth pair wins the
        game and adds twenty points; nothing else changes the score. */
    method MemoryResolve()
      requires Valid() && |memory.selectedCards| == 2
      modifies this`memory, this`totalScore, this`memoryWins
      ensures Valid()
      ensures memory == MemoryMatch.Resolve(old(memory))
      ensures totalScore == old(totalScore) +
        (if MemoryMatch.PicksMatch(old(memory)) && memory.gameWon then MemoryWinPoints else 0)
    {
      var before := memory;
      var matched := MemoryMatch.PicksMatch(before);
      memory := MemoryMatch.Resolve(before);
      if matched && memory.gameWon {
        totalScore := totalScore + MemoryWinPoints;
        memoryWins := memoryWins + 1;
      }
    }

    /** A new memory game dealt from `order`, a shuffle of the doubled faces,
        at time `now`. */
    method ResetMemory(order: seq<string>, now: int)
      requires Valid() && MemoryMatch.IsShuffle(order)
      modifies this`memory
      ensures Valid()
      ensures memory == MemoryMatch.NewGame(order, now)
    {
      memory := MemoryMatch.NewGame(order, now);
    }

    /** A submitted guess (`input` is the parsed entry). A correct guess adds
        fifteen points; nothing else changes the score. */
    method SubmitGuess(input: Option<int>)
      requires Valid() && NumberGuess.Open(number)
      modifies this`number, this`totalScore
      ensures Valid()
      ensures number == NumberGuess.Guess(old(number), input)
      ensures totalScore == old(totalScore) +
        (if input.Some? && NumberGuess.InRange(input.value) && input.value == old(number.secretNumber)
         then GuessPoints else 0)
    {
      var before := number;
      number := NumberGuess.Guess(number, input);
      if input.Some? && NumberGuess.InRange(input.value) && input.value == before.secretNumber {
        totalScore := totalScore + GuessPoints;
      }
    }

    /** A new number round with secret `secret`, keeping played and won. */
    method ResetNumber(secret: int)
      requires Valid() && NumberGuess.InRange(secret)
      modifies this`number
      ensures Valid()
      ensures number == NumberGuess.NewRound(old(number), secret)
    {
      number := NumberGuess.NewRound(number, secret);
    }
  }
}
