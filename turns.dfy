/** The game-state logic of the event loop, lifted out as step functions over the
    session state: reset, the odd/even pick that decides who starts, and the
    human's click followed by the computer's reply. */
module Turns {
  import opened BoardModel
  import opened Search

  /** One input event. A key press carries its character; pygame's key code and
      its unicode text are the same letter here. Positions are window pixels. */
  datatype Event = KeyDown(key: char) | MouseDown(x: int, y: int) | OtherEvent

  /** The line of text under the board, as an enumerated value. */
  datatype Message =
    | PickPrompt
    | Decided(userNum: int, aiNum: int, odd: bool, playerStarts: bool)
    | PlayerWins
    | AiWins
    | Draw

  /** The globals the event loop reads and writes. */
  datatype State = State(
    board: Board,
    playerTurn: bool,
    gameOver: bool,
    menuActive: bool,
    playerScore: nat,
    aiScore: nat,
    message: Message)

  const Initial: State := State(EmptyBoard, true, false, true, 0, 0, PickPrompt)

  /** str.upper() on one character (ASCII letters). */
  function Upper(c: char): char {
    if 'a' <= c <= 'z' then (c as int - 32) as char else c
  }

  predicate IsResetKey(c: char) { c == 'r' || c == 'R' }

  predicate IsPickKey(c: char) { Upper(c) == 'O' || Upper(c) == 'E' }

  /** pygame only reports clicks inside the 300 x 450 window. */
  predicate InWindow(e: Event) {
    e.MouseDown? ==> 0 <= e.x < WIDTH && 0 <= e.y < HEIGHT
  }

  /** reset_game(): a fresh board and the menu again; the scores stay. */
  function ResetGame(s: State): State {
    s.(board := seq(ROWS * COLS, _ => Empty), playerTurn := true, gameOver := false, menuActive := true, message := PickPrompt)
  }

  /** The odd/even pick, once a key has been pressed while the menu is shown.
      userNum and aiNum are the two random.randint(1, 5) draws. */
  function Pick(s: State, key: char, userNum: int, aiNum: int): State {
    if !IsPickKey(key) then s
    else
      var choice := Upper(key);
      var odd := (userNum + aiNum) % 2 == 1;
      var playerStarts := (odd && choice == 'O') || (!odd && choice == 'E');
      var s' := s.(playerTurn := playerStarts, message := Decided(userNum, aiNum, odd, playerStarts), menuActive := false);
      if playerStarts then s' else s'.(board := AiMove(s'.board), playerTurn := true)
  }

  /** The cell under a click on the board area: row y // SQSIZE, column x // SQSIZE. */
  function ClickedCell(x: int, y: int): (i: nat)
    requires 0 <= x < WIDTH && 0 <= y < ROWS * SQSIZE
    ensures i < ROWS * COLS && i / COLS == y / SQSIZE && i % COLS == x / SQSIZE
  {
    assert SQSIZE == 100;
    var row, col := y / SQSIZE, x / SQSIZE;
    assert 0 <= row < ROWS && 0 <= col < COLS;
    COLS * row + col
  }

  /** The human's 'X' is on the board: a line of 'X' wins, else a full board is a
      draw, else the computer replies. */
  function HumanMoved(s: State): State {
    if CheckWinner(s.board, X) then
      s.(message := PlayerWins, playerScore := s.playerScore + 1, gameOver := true)
    else if IsFull(s.board) then
      s.(message := Draw, gameOver := true)
    else
      ComputerReplied(s.(board := AiMove(s.board)))
  }

  /** The computer's 'O' is on the board: a line of 'O' wins, else a full board is a
      draw, else play goes on. */
  function ComputerReplied(s: State): State {
    if CheckWinner(s.board, O) then
      s.(message := AiWins, aiScore := s.aiScore + 1, gameOver := true)
    else if IsFull(s.board) then
      s.(message := Draw, gameOver := true)
    else
      s
  }

  /** A click: below the board or over a marked cell it does nothing; otherwise the
      cell under it gets 'X' and the game goes on from there. */
  function Click(s: State, x: int, y: int): State
    requires 0 <= x < WIDTH && 0 <= y < HEIGHT
  {
    if y >= ROWS * SQSIZE then s
    else
      var i := ClickedCell(x, y);
      if s.board[i] != Empty then s
      else HumanMoved(s.(board := s.board[i := X]))
  }

  /** One pass of the event loop's body over one event: the reset key, then the
      menu pick, then the click, each under the source's own guard. */
  function Step(s: State, e: Event, userNum: int, aiNum: int): State
    requires InWindow(e)
  {
    var s1 := if s.gameOver && e.KeyDown? && IsResetKey(e.key) then ResetGame(s) else s;
    var s2 := if s1.menuActive && e.KeyDown? then Pick(s1, e.key, userNum, aiNum) else s1;
    if !s2.gameOver && !s2.menuActive && s2.playerTurn && e.MouseDown? then Click(s2, e.x, e.y) else s2
  }

  // ---------------------------------------------------------------------------
  // Properties

  /** The states the event loop can reach: it is always the human's turn between
      events, the menu shows an empty board, and once past the menu the game is
      over exactly when someone has three in a row or the board is full; never do
      both sides have three in a row. */
  ghost predicate Inv(s: State) {
    s.playerTurn &&
    (s.menuActive ==> Cleared(s.board) && !s.gameOver) &&
    (!s.menuActive ==> (s.gameOver <==> Wins(s.board, X) || Wins(s.board, O) || IsFull(s.board))) &&
    !(Wins(s.board, X) && Wins(s.board, O))
  }

  /** An empty board is neither won nor full. */
  lemma ClearedUndecided(b: Board, p: Cell)
    requires Cleared(b) && p != Empty
    ensures !Wins(b, p) && !IsFull(b)
  {
    assert b[0] == Empty;
  }

  /** A single mark on an otherwise empty board is no line, and leaves the board not full. */
  lemma SingleMarkUndecided(b: Board, i: nat, p: Cell, q: Cell)
    requires Cleared(b) && i < |b| && p != Empty && q != Empty
    ensures !Wins(b[i := p], q) && !IsFull(b[i := p])
  {
    var b' := b[i := p];
    assert b'[if i == 0 then 1 else 0] == Empty;
  }

  lemma InitialInv()
    ensures Inv(Initial)
  {
    ClearedUndecided(Initial.board, X);
    ClearedUndecided(Initial.board, O);
  }

  /** A click event goes to Click only while the game is on, the menu is closed and
      it is the human's turn; otherwise it changes nothing. */
  lemma StepOnClick(s: State, x: int, y: int, userNum: int, aiNum: int)
    requires 0 <= x < WIDTH && 0 <= y < HEIGHT
    ensures Step(s, MouseDown(x, y), userNum, aiNum) ==
      if !s.gameOver && !s.menuActive && s.playerTurn then Click(s, x, y) else s
  {
  }

  /** A key event never touches the scores. */
  lemma KeyKeepsScores(s: State, key: char, userNum: int, aiNum: int)
    ensures var r := Step(s, KeyDown(key), userNum, aiNum);
      r.playerScore == s.playerScore && r.aiScore == s.aiScore
  {
    var s1 := if s.gameOver && IsResetKey(key) then ResetGame(s) else s;
    assert s1.playerScore == s.playerScore && s1.aiScore == s.aiScore;
    if s1.menuActive {
      var s2 := Pick(s1, key, userNum, aiNum);
      assert s2.playerScore == s1.playerScore && s2.aiScore == s1.aiScore;
    }
  }

  /** Reset (the R key, honoured only when the game is over) empties the board,
      brings back the menu with the human to move, and keeps both scores. */
  lemma ResetKeyRestarts(s: State, key: char, userNum: int, aiNum: int)
    requires s.gameOver && IsResetKey(key)
    ensures var r := Step(s, KeyDown(key), userNum, aiNum);
      Cleared(r.board) && r.playerTurn && !r.gameOver && r.menuActive &&
      r.playerScore == s.playerScore && r.aiScore == s.aiScore && r.message == PickPrompt
  {
    assert !IsPickKey(key);
    assert Pick(ResetGame(s), key, userNum, aiNum) == ResetGame(s);
  }

  /** The pick is accepted only while the menu is shown and only for O or E:
      the human starts exactly when the parity of the two draws matches the choice
      (odd with O, even with E); the menu closes; if the computer starts it plays
      one 'O' and hands the turn to the human. */
  lemma PickDecidesStarter(s: State, key: char, userNum: int, aiNum: int)
    requires s.menuActive && !s.gameOver && IsPickKey(key)
    requires 1 <= userNum <= 5 && 1 <= aiNum <= 5
    ensures var r := Step(s, KeyDown(key), userNum, aiNum);
      var odd := (userNum + aiNum) % 2 == 1;
      var playerStarts := odd <==> Upper(key) == 'O';
      !r.menuActive && r.playerTurn && !r.gameOver &&
      r.message == Decided(userNum, aiNum, odd, playerStarts) &&
      (playerStarts ==> r.board == s.board) &&
      (!playerStarts ==> r.board == AiMove(s.board)) &&
      (!playerStarts && !IsFull(s.board) ==>
        exists i: nat :: i < |s.board| && s.board[i] == Empty && r.board == s.board[i := O]) &&
      r.playerScore == s.playerScore && r.aiScore == s.aiScore
  {
  }

  /** Any other key changes nothing, unless it is the reset key after the game ended. */
  lemma OtherKeysIgnored(s: State, key: char, userNum: int, aiNum: int)
    requires !(s.menuActive && IsPickKey(key))
    requires !(s.gameOver && IsResetKey(key))
    ensures Step(s, KeyDown(key), userNum, aiNum) == s
  {
  }

  /** The scoring after the human's move never overwrites a mark. */
  lemma HumanMovedKeepsMarks(s: State, i: nat)
    requires i < |s.board| && s.board[i] != Empty
    ensures HumanMoved(s).board[i] == s.board[i]
  {
    if !CheckWinner(s.board, X) && !IsFull(s.board) {
      var s' := s.(board := AiMove(s.board));
      RepliedOutcome(s');
      AiMoveKeepsMarks(s.board, i);
      assert HumanMoved(s).board == s'.board;
    } else {
      assert HumanMoved(s).board == s.board;
    }
  }

  /** Click changes nothing for a click below the board or over a marked cell,
      and otherwise leaves 'X' in the cell under the click. */
  lemma ClickMarksCell(s: State, x: int, y: int)
    requires 0 <= x < WIDTH && 0 <= y < HEIGHT
    ensures var r := Click(s, x, y);
      (y >= ROWS * SQSIZE ==> r == s) &&
      (y < ROWS * SQSIZE ==>
        (s.board[ClickedCell(x, y)] != Empty ==> r == s) &&
        (s.board[ClickedCell(x, y)] == Empty ==> r.board[ClickedCell(x, y)] == X))
  {
    if y < ROWS * SQSIZE && s.board[ClickedCell(x, y)] == Empty {
      var i := ClickedCell(x, y);
      HumanMovedKeepsMarks(s.(board := s.board[i := X]), i);
    }
  }

  /** A click changes the state only when the game is on, the menu is closed, it is
      the human's turn, the click is on the board and the cell under it is empty;
      then that cell holds 'X' afterwards. */
  lemma ClickOnlyOnEmptyCell(s: State, x: int, y: int, userNum: int, aiNum: int)
    requires 0 <= x < WIDTH && 0 <= y < HEIGHT
    ensures var r := Step(s, MouseDown(x, y), userNum, aiNum);
      (s.gameOver || s.menuActive || !s.playerTurn || y >= ROWS * SQSIZE ==> r == s) &&
      (y < ROWS * SQSIZE && s.board[ClickedCell(x, y)] != Empty ==> r == s) &&
      ((!s.gameOver && !s.menuActive && s.playerTurn && y < ROWS * SQSIZE &&
        s.board[ClickedCell(x, y)] == Empty) ==> r.board[ClickedCell(x, y)] == X)
  {
    StepOnClick(s, x, y, userNum, aiNum);
    ClickMarksCell(s, x, y);
  }

  /** What follows the human's 'X' on board s.board, stated with the reference Wins:
      an 'X' line adds one to the human's score and ends the game; otherwise a full
      board ends it as a draw; otherwise the computer replies, leaving board b', and
      an 'O' line adds one to its score and ends the game, a full board ends it as a
      draw, and else play goes on. The menu and the turn are left alone. */
  ghost predicate MoveEffect(s: State, b': Board, r: State) {
    var b := s.board;
    r.menuActive == s.menuActive && r.playerTurn == s.playerTurn &&
    (Wins(b, X) ==>
      r.board == b && r.gameOver && r.message == PlayerWins &&
      r.playerScore == s.playerScore + 1 && r.aiScore == s.aiScore) &&
    (!Wins(b, X) && IsFull(b) ==>
      r.board == b && r.gameOver && r.message == Draw &&
      r.playerScore == s.playerScore && r.aiScore == s.aiScore) &&
    (!Wins(b, X) && !IsFull(b) ==> r.board == b' && r.playerScore == s.playerScore) &&
    (!Wins(b, X) && !IsFull(b) && Wins(b', O) ==>
      r.gameOver && r.message == AiWins && r.aiScore == s.aiScore + 1) &&
    (!Wins(b, X) && !IsFull(b) && !Wins(b', O) && IsFull(b') ==>
      r.gameOver && r.message == Draw && r.aiScore == s.aiScore) &&
    (!Wins(b, X) && !IsFull(b) && !Wins(b', O) && !IsFull(b') ==>
      r.gameOver == s.gameOver && r.message == s.message && r.aiScore == s.aiScore)
  }

  /** The scoring after the computer's reply, stated with the reference Wins. */
  lemma RepliedOutcome(s: State)
    ensures var r := ComputerReplied(s);
      r.board == s.board && r.menuActive == s.menuActive && r.playerTurn == s.playerTurn &&
      r.playerScore == s.playerScore &&
      (Wins(s.board, O) ==> r.gameOver && r.message == AiWins && r.aiScore == s.aiScore + 1) &&
      (!Wins(s.board, O) && IsFull(s.board) ==> r.gameOver && r.message == Draw && r.aiScore == s.aiScore) &&
      (!Wins(s.board, O) && !IsFull(s.board) ==> r == s)
  {
  }

  /** The scoring after the human's move has that effect, with the computer's reply
      ai_move's board. */
  lemma HumanMovedOutcome(s: State)
    ensures MoveEffect(s, AiMove(s.board), HumanMoved(s))
  {
    if !CheckWinner(s.board, X) && !IsFull(s.board) {
      RepliedOutcome(s.(board := AiMove(s.board)));
    }
  }

  /** A click over an empty cell of the board marks it 'X' and has that effect. */
  lemma ClickOutcome(s: State, x: int, y: int)
    requires 0 <= x < WIDTH && 0 <= y < ROWS * SQSIZE
    requires s.board[ClickedCell(x, y)] == Empty
    ensures var s' := s.(board := s.board[ClickedCell(x, y) := X]);
      MoveEffect(s', AiMove(s'.board), Click(s, x, y))
  {
    HumanMovedOutcome(s.(board := s.board[ClickedCell(x, y) := X]));
  }

  /** How the scores may change from s to r: never down, at most one of them and
      by one, and only together with that side's line ending the game. */
  ghost predicate ScoresRiseOnlyOnWins(s: State, r: State) {
    s.playerScore <= r.playerScore <= s.playerScore + 1 &&
    s.aiScore <= r.aiScore <= s.aiScore + 1 &&
    r.playerScore + r.aiScore <= s.playerScore + s.aiScore + 1 &&
    (r.playerScore > s.playerScore ==> r.gameOver && r.message == PlayerWins && Wins(r.board, X)) &&
    (r.aiScore > s.aiScore ==> r.gameOver && r.message == AiWins && Wins(r.board, O))
  }

  /** So does the scoring after the computer's reply, */
  lemma RepliedScores(s: State)
    ensures ScoresRiseOnlyOnWins(s, ComputerReplied(s))
  {
  }

  /** the scoring after the human's move, */
  lemma HumanMovedScores(s: State)
    ensures ScoresRiseOnlyOnWins(s, HumanMoved(s))
  {
    if !CheckWinner(s.board, X) && !IsFull(s.board) {
      RepliedScores(s.(board := AiMove(s.board)));
    }
  }

  /** and so does every click. */
  lemma ClickScores(s: State, x: int, y: int)
    requires 0 <= x < WIDTH && 0 <= y < HEIGHT
    ensures ScoresRiseOnlyOnWins(s, Click(s, x, y))
  {
    if y < ROWS * SQSIZE && s.board[ClickedCell(x, y)] == Empty {
      HumanMovedScores(s.(board := s.board[ClickedCell(x, y) := X]));
    }
  }

  /** Scores never go down, and one event raises at most one of them, by one, and
      only together with that side's win ending the game. */
  lemma ScoresOnlyRiseOnWins(s: State, e: Event, userNum: int, aiNum: int)
    requires InWindow(e)
    ensures ScoresRiseOnlyOnWins(s, Step(s, e, userNum, aiNum))
  {
    match e
    case KeyDown(key) =>
      KeyKeepsScores(s, key, userNum, aiNum);
    case MouseDown(x, y) =>
      StepOnClick(s, x, y, userNum, aiNum);
      ClickScores(s, x, y);
    case OtherEvent =>
      assert Step(s, e, userNum, aiNum) == s;
  }

  /** Every event keeps the invariant of reachable states. */
  lemma StepPreservesInv(s: State, e: Event, userNum: int, aiNum: int)
    requires Inv(s) && InWindow(e)
    ensures Inv(Step(s, e, userNum, aiNum))
  {
    var s1 := if s.gameOver && e.KeyDown? && IsResetKey(e.key) then ResetGame(s) else s;
    if s1 != s {
      ClearedUndecided(s1.board, X);
      ClearedUndecided(s1.board, O);
    }
    assert Inv(s1);
    var s2 := if s1.menuActive && e.KeyDown? then Pick(s1, e.key, userNum, aiNum) else s1;
    if s2 != s1 {
      PickKeepsInv(s1, e.key, userNum, aiNum);
    }
    assert Inv(s2);
    if !s2.gameOver && !s2.menuActive && s2.playerTurn && e.MouseDown? {
      ClickKeepsInv(s2, e.x, e.y);
    }
  }

  lemma PickKeepsInv(s: State, key: char, userNum: int, aiNum: int)
    requires Inv(s) && s.menuActive
    ensures Inv(Pick(s, key, userNum, aiNum))
  {
    ClearedUndecided(s.board, X);
    ClearedUndecided(s.board, O);
    var r := Pick(s, key, userNum, aiNum);
    if IsPickKey(key) && r.board != s.board {
      var i: nat :| i < |s.board| && r.board == s.board[i := O];
      SingleMarkUndecided(s.board, i, O, X);
      SingleMarkUndecided(s.board, i, O, O);
    }
  }

  lemma ClickKeepsInv(s: State, x: int, y: int)
    requires Inv(s) && !s.gameOver && !s.menuActive
    requires 0 <= x < WIDTH && 0 <= y < HEIGHT
    ensures Inv(Click(s, x, y))
  {
    if y < ROWS * SQSIZE && s.board[ClickedCell(x, y)] == Empty {
      PlayKeepsInv(s, x, y);
    } else {
      assert Click(s, x, y) == s;
    }
  }

  /** A click over an empty cell, made while neither side has a line, leads again
      to a reachable state: the human's 'X' gives 'O' no line, and the computer's
      'O' gives 'X' none. */
  lemma PlayKeepsInv(s: State, x: int, y: int)
    requires s.playerTurn && !s.gameOver && !s.menuActive && !Wins(s.board, O)
    requires 0 <= x < WIDTH && 0 <= y < ROWS * SQSIZE
    requires s.board[ClickedCell(x, y)] == Empty
    ensures Inv(Click(s, x, y))
  {
    var i := ClickedCell(x, y);
    var b := s.board[i := X];
    var r := Click(s, x, y);
    ClickOutcome(s, x, y);
    assert MoveEffect(s.(board := b), AiMove(b), r);
    if Wins(b, X) {
      // the human's line ends the game before the computer replies
      EffectKeepsInv(s, i, AiMove(b), r);
    } else {
      // the computer's 'O' cannot give 'X' the line it lacks
      AiMoveGivesXNoLine(b);
      EffectKeepsInv(s, i, AiMove(b), r);
    }
  }

  /** The same, for any state r related to s by the effect of marking cell i. */
  lemma EffectKeepsInv(s: State, i: nat, b': Board, r: State)
    requires s.playerTurn && !s.gameOver && !s.menuActive && !Wins(s.board, O)
    requires i < |s.board| && MoveEffect(s.(board := s.board[i := X]), b', r)
    requires !Wins(s.board[i := X], X) ==> !Wins(b', X)
    ensures Inv(r)
  {
    PlaceKeepsOtherLoser(s.board, i, X, O);
  }
}
