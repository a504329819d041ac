/** The running program: the globals of the game as fields of one object, the
    board as a nine-cell array that minimax and ai_move mark and unmark in place,
    and the event handler that updates the globals. Each method is proved against
    the value-level definitions of the Search and Turns modules. */
module Session {
  import opened BoardModel
  import opened Search
  import opened Turns

  class Game {
    var board: array<Cell>
    var playerTurn: bool
    var gameOver: bool
    var menuActive: bool
    var playerScore: nat
    var aiScore: nat
    var message: Message

    /** The board holds one cell per square. */
    ghost predicate Valid()
      reads this
    {
      board.Length == ROWS * COLS
    }

    /** All the globals as one value of the session state. */
    function Snapshot(): State
      reads this, board
      requires Valid()
    {
      State(board[..], playerTurn, gameOver, menuActive, playerScore, aiScore, message)
    }

    /** The module-level initialisation: an empty board, the menu, no scores. */
    constructor()
      ensures Valid() && Snapshot() == Initial
    {
      board := new Cell[ROWS * COLS](_ => Empty);
      playerTurn := true;
      gameOver := false;
      menuActive := true;
      playerScore := 0;
      aiScore := 0;
      message := PickPrompt;
      new;
      assert board[..] == EmptyBoard;
    }

    /** minimax(depth, is_maximizing): 1 when 'O' has a line, -1 when 'X' has one,
        0 on a full board, and otherwise the best of the children's scores. The board
        is left exactly as it was found, and the result is the minimax value of the
        board. */
    method Minimax(maximizing: bool) returns (score: int)
      requires Valid()
      modifies board
      decreases EmptyCount(board[..]), 3
      ensures board[..] == old(board[..])
      ensures score == Search.Minimax(old(board[..]), maximizing)
    {
      var b := board[..];
      if CheckWinner(b, O) {
        return 1;
      }
      if CheckWinner(b, X) {
        return -1;
      }
      if IsFull(b) {
        return 0;
      }
      score := BestChild(maximizing);
    }

    /** The loop of minimax: try every empty cell in turn and keep the running max
        (or min) of the children's scores, starting from the infinite sentinel. */
    method BestChild(maximizing: bool) returns (best: int)
      requires Valid()
      modifies board
      decreases EmptyCount(board[..]), 2
      ensures board[..] == old(board[..])
      ensures best == Search.BestChild(old(board[..]), maximizing)
    {
      var b := board[..];
      var moves := AvailableMoves(b);
      best := if maximizing then MinusInfinity else PlusInfinity;
      ghost var all := ChildScores(b, maximizing, moves);
      ghost var scores: seq<int> := [];
      var k := 0;
      while k < |moves|
        invariant 0 <= k <= |moves| && |scores| == k
        invariant board[..] == b
        invariant ScoredPrefix(scores, all)
        invariant best == Best(maximizing, scores)
      {
        var childScore := TryMove(moves[k], maximizing);
        ChildScoreAt(b, maximizing, moves, k);
        ScoredStep(scores, all, childScore);
        BestAppend(maximizing, scores, childScore);
        best := if maximizing then Max(childScore, best) else Min(childScore, best);
        scores := scores + [childScore];
        k := k + 1;
      }
      ScoredAll(scores, all);
    }

    /** The body of the loops of minimax and ai_move for one empty cell: mark it for
        the side to move, score the child with minimax for the other side, and clear
        the cell again. */
    method TryMove(i: nat, maximizing: bool) returns (score: int)
      requires Valid() && i < board.Length && board[i] == Empty
      modifies board
      decreases EmptyCount(board[..]), 0
      ensures board[..] == old(board[..])
      ensures score == ChildScore(old(board[..]), maximizing, i)
    {
      ghost var b := board[..];
      PlaceLowersEmptyCount(b, i, Mark(maximizing));
      board[i] := Mark(maximizing);
      assert board[..] == b[i := Mark(maximizing)];
      score := Minimax(!maximizing);
      board[i] := Empty;
      assert board[..] == b;
    }

    /** ai_move(): choose a cell, and mark it 'O' if there is one. */
    method AiMove()
      requires Valid()
      modifies board
      ensures board[..] == Search.AiMove(old(board[..]))
    {
      var move := ChooseMove();
      match move
      case None =>
      case Some(i) =>
        board[i] := O;
    }

    /** The loop of ai_move(): score every empty cell with minimax and keep the first
        with the strictly greatest score. The board is left as it was found. */
    method ChooseMove() returns (move: Option<nat>)
      requires Valid()
      modifies board
      ensures board[..] == old(board[..])
      ensures move == BestMove(old(board[..]))
    {
      var b := board[..];
      var moves := AvailableMoves(b);
      var bestScore := MinusInfinity;
      move := None;
      ghost var all := ChildScores(b, true, moves);
      ghost var scores: seq<int> := [];
      var k := 0;
      while k < |moves|
        invariant 0 <= k <= |moves| && |scores| == k
        invariant board[..] == b
        invariant ScoredPrefix(scores, all)
        invariant (bestScore, move) == Choice(moves[..k], scores)
      {
        var i := moves[k];
        var score := TryMove(i, true);
        ChildScoreAt(b, true, moves, k);
        ScoredStep(scores, all, score);
        ChoiceAppend(moves, scores, k, score);
        if score > bestScore {
          bestScore := score;
          move := Some(i);
        }
        scores := scores + [score];
        k := k + 1;
      }
      ScoredAll(scores, all);
      ScannedAll(moves, k);
    }

    /** reset_game(): a new empty board, the human to move, the menu again. */
    method ResetGame()
      requires Valid()
      modifies this
      ensures Valid() && fresh(board)
      ensures Snapshot() == Turns.ResetGame(old(Snapshot()))
    {
      board := new Cell[ROWS * COLS](_ => Empty);
      playerTurn := true;
      gameOver := false;
      menuActive := true;
      message := PickPrompt;
    }

    /** A key press while the menu is shown: for O or E, decide who starts from the
        parity of the two draws; if the computer starts it plays at once. */
    method Pick(key: char, userNum: int, aiNum: int)
      requires Valid()
      modifies this, board
      ensures Valid() && board == old(board)
      ensures Snapshot() == Turns.Pick(old(Snapshot()), key, userNum, aiNum)
    {
      if IsPickKey(key) {
        var choice := Upper(key);
        var odd := (userNum + aiNum) % 2 == 1;
        var playerStarts := (odd && choice == 'O') || (!odd && choice == 'E');
        playerTurn := playerStarts;
        message := Decided(userNum, aiNum, odd, playerStarts);
        menuActive := false;
        ghost var s' := Snapshot();
        if !playerTurn {
          AiMove();
          playerTurn := true;
          assert Snapshot() == s'.(board := Search.AiMove(s'.board), playerTurn := true);
        }
      }
    }

    /** A click while the game is on and it is the human's turn: on an empty cell of
        the board, mark 'X' and go on from there. */
    method Click(x: int, y: int)
      requires Valid()
      requires 0 <= x < WIDTH && 0 <= y < HEIGHT
      modifies this, board
      ensures Valid() && board == old(board)
      ensures Snapshot() == Turns.Click(old(Snapshot()), x, y)
    {
      if y < ROWS * SQSIZE {
        var i := ClickedCell(x, y);
        if board[i] == Empty {
          board[i] := X;
          assert Snapshot() == old(Snapshot()).(board := old(board[..])[i := X]);
          HumanMoved();
        }
      }
    }

    /** After the human's 'X': a line wins, a full board draws, else the computer
        replies. */
    method HumanMoved()
      requires Valid()
      modifies this, board
      ensures Valid() && board == old(board)
      ensures Snapshot() == Turns.HumanMoved(old(Snapshot()))
    {
      if CheckWinner(board[..], X) {
        message := PlayerWins;
        playerScore := playerScore + 1;
        gameOver := true;
      } else if IsFull(board[..]) {
        message := Draw;
        gameOver := true;
      } else {
        AiMove();
        assert Snapshot() == old(Snapshot()).(board := Search.AiMove(old(board[..])));
        ComputerReplied();
      }
    }

    /** After the computer's 'O': a line wins, a full board draws, else play goes on. */
    method ComputerReplied()
      requires Valid()
      modifies this
      ensures Valid() && board == old(board)
      ensures Snapshot() == Turns.ComputerReplied(old(Snapshot()))
    {
      if CheckWinner(board[..], O) {
        message := AiWins;
        aiScore := aiScore + 1;
        gameOver := true;
      } else if IsFull(board[..]) {
        message := Draw;
        gameOver := true;
      }
    }

    /** One pass of the event loop's body over one event. */
    method HandleEvent(e: Event, userNum: int, aiNum: int)
      requires Valid() && InWindow(e)
      modifies this, board
      ensures Valid()
      ensures Snapshot() == Step(old(Snapshot()), e, userNum, aiNum)
    {
      if gameOver && e.KeyDown? && IsResetKey(e.key) {
        ResetGame();
      }
      if menuActive && e.KeyDown? {
        Pick(e.key, userNum, aiNum);
      }
      if !gameOver && !menuActive && playerTurn && e.MouseDown? {
        Click(e.x, e.y);
      }
    }
  }
}
