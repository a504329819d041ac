# Tic-tac-toe against a minimax opponent

A model of the game logic of `tic_tac_toe_gui.py`, a pygame tic-tac-toe. The human plays `'X'` and the computer plays `'O'`. Before each game an odd/even pick decides who moves first. The computer chooses its moves by exhaustive minimax. A score is kept across games.

The model is in four modules:

- `board.dfy`, module `BoardModel`. The 3x3 board as a row-major sequence of nine cells: cell (r, c) is index `3 * r + c`. It also holds `check_winner`, `is_full` and `available_moves` as functions. `Wins` is a reference definition of "p has three in a row", and `CheckWinner`, which follows the source's loops, is proved equal to it.
- `search.dfy`, module `Search`. The minimax value of a board and the move `ai_move` commits, as functions of a board value, with their properties.
- `turns.dfy`, module `Turns`. The globals of the event loop as one `State` value. The reset, the odd/even pick and the human's click with the computer's reply are step functions over it. `Step` is one pass of the loop body over one event. The lemmas state the gating, the scoring and an invariant of reachable states.
- `game.dfy`, module `Session`. The running program as the class `Game`: the board is a nine-cell array and the other globals are fields. `Minimax` marks, recurses and unmarks on the array, as the source does. `AiMove` scans the empty cells with a strict `>`. The event-handler methods update the fields. Each method is proved against the functions of `Search` and `Turns`, and the board methods are also proved to leave the board as they found it.

## Model

| member | source | states |
|---|---|---|
| BoardModel.CheckWinner | tic_tac_toe_gui.py:75-86 | the row loop, the column loop and the two diagonal tests answer true exactly when p holds some row, some column, the main diagonal or the anti-diagonal |
| BoardModel.AnyRowFromSound | tic_tac_toe_gui.py:76-78 | the `for row in board` loop finds an all-p row exactly when one of the three rows from the current one on is all p |
| BoardModel.AnyColumnFromSound | tic_tac_toe_gui.py:79-81 | the column loop finds an all-p column exactly when one of the remaining columns is all p |
| BoardModel.PlaceKeepsOtherLoser | tic_tac_toe_gui.py:181 | writing one player's mark never gives the other player a line they did not already have |
| BoardModel.PlaceLowersEmptyCount | tic_tac_toe_gui.py:102 | each trial placement lowers the number of empty cells by one, which is why minimax's recursion ends |
| BoardModel.EmptyCellsFrom | tic_tac_toe_gui.py:73 | the comprehension from cell k on yields only empty cells at or after k, every such cell, in strictly increasing order |
| BoardModel.AvailableMoves | tic_tac_toe_gui.py:72-73 | the list holds each empty cell exactly once and nothing else, in row-major order, and it is empty exactly when `is_full()` holds (lines 88-89) |
| Search.Minimax | tic_tac_toe_gui.py:91-114 | the minimax value always lies in {-1, 0, 1} |
| Search.MinimaxTerminal | tic_tac_toe_gui.py:92-97 | a line of 'O' scores 1 and is tested first, then a line of 'X' scores -1, then a full board scores 0 |
| Search.BestChild | tic_tac_toe_gui.py:99-114 | the running best after the loop over the children lies between the sentinels; it is the sentinel when the board is full (no children), and otherwise one of the children's scores |
| Search.ChildScores | tic_tac_toe_gui.py:101-113 | one score per available move, each in {-1, 0, 1} |
| Search.ChildScore | tic_tac_toe_gui.py:102-104 | the score of marking one empty cell for the side to move lies in {-1, 0, 1} |
| Search.Best | tic_tac_toe_gui.py:100-106 | the fold of max (or min) from -inf (or +inf) keeps the sentinel on no scores and otherwise returns one of the scores |
| Search.BestAppend | tic_tac_toe_gui.py:105 | one more loop iteration folds the new score in with max (maximizing) or min |
| Search.BestIsExtreme | tic_tac_toe_gui.py:99-114 | over a non-empty list, the fold is its largest (maximizing) or smallest (minimizing) element |
| Search.MinimaxOverChildren | tic_tac_toe_gui.py:99-114 | on a position that is neither won nor full, minimax is at least (O to move) or at most (X to move) every child's score, and some empty cell attains it |
| Search.ChoiceFound | tic_tac_toe_gui.py:117-125 | the loop of ai_move ends with no move exactly when no score beats -inf; otherwise its move is one of the moves, paired with its own score |
| Search.ChoiceAppend | tic_tac_toe_gui.py:123-125 | one more iteration replaces the choice only when the new score is strictly greater |
| Search.ChoiceIsFirstBest | tic_tac_toe_gui.py:117-125 | when every score beats -inf, the choice is the move at the first position with the maximal score |
| Search.FirstMaximumIsFirstBest | tic_tac_toe_gui.py:116-125 | the move at the first maximal position of the score list is the first empty cell in row-major order with the greatest minimax score |
| Search.BestMove | tic_tac_toe_gui.py:116-126 | ai_move picks no cell exactly on a full board, and otherwise picks an empty cell |
| Search.BestMoveSome | tic_tac_toe_gui.py:116-126 | on a board with an empty cell, the picked cell is a first best one |
| Search.FirstBestIsUnique | tic_tac_toe_gui.py:123-125 | at most one cell is first best, so the strict `>` makes the choice unique |
| Search.BestMoveIsFirstBest | tic_tac_toe_gui.py:116-127 | ai_move picks nothing exactly on a full board, and it picks cell i exactly when i is the first empty cell with the greatest minimax score |
| Search.AiMove | tic_tac_toe_gui.py:116-127 | on a board with an empty cell exactly one empty cell becomes 'O' and nothing else changes; a full board is left as it is |
| Search.AiMoveKeepsMarks | tic_tac_toe_gui.py:126-127 | ai_move never overwrites a marked cell |
| Search.AiMoveGivesXNoLine | tic_tac_toe_gui.py:126-127 | placing the computer's 'O' never completes a line of 'X' |
| Search.AiMoveIsFirstBest | tic_tac_toe_gui.py:116-127 | the cell ai_move marks is the first best one |
| Turns.ClickedCell | tic_tac_toe_gui.py:177-179 | a click inside the 300-wide window and above y = 300 hits a cell of the board, in row y // 100 and column x // 100 |
| Turns.InitialInv | tic_tac_toe_gui.py:34-41 | the initial globals form a reachable state |
| Turns.StepOnClick | tic_tac_toe_gui.py:174-175 | a mouse click is handled only when the game is on, the menu is closed and it is the human's turn |
| Turns.KeyKeepsScores | tic_tac_toe_gui.py:154-172 | key presses never change either score |
| Turns.ResetKeyRestarts | tic_tac_toe_gui.py:154-155 | R after the game is over empties every cell, restores the human's turn, clears game over, reopens the menu, and keeps both scores |
| Turns.PickDecidesStarter | tic_tac_toe_gui.py:157-172 | while the menu is shown, O or E with draws in 1..5 closes the menu, and the human starts exactly when odd goes with O or even with E; if the computer starts it places exactly one 'O' on a non-full board and hands the turn back |
| Turns.OtherKeysIgnored | tic_tac_toe_gui.py:154-158 | any other key, or any key outside the menu and outside a finished game, changes nothing |
| Turns.HumanMovedKeepsMarks | tic_tac_toe_gui.py:182-198 | the scoring after the human's move and the computer's reply never overwrites a marked cell |
| Turns.ClickMarksCell | tic_tac_toe_gui.py:176-181 | a click below the board or over a marked cell changes nothing; otherwise the clicked cell holds 'X' afterwards |
| Turns.ClickOnlyOnEmptyCell | tic_tac_toe_gui.py:174-181 | a click changes the state only when the game is on, the menu is closed, it is the human's turn and the clicked cell is empty, and then that cell becomes 'X' |
| Turns.RepliedOutcome | tic_tac_toe_gui.py:192-198 | after the computer's reply, a line of 'O' adds one to its score and ends the game, else a full board ends it as a draw, else nothing changes |
| Turns.HumanMovedOutcome | tic_tac_toe_gui.py:182-198 | after the human's 'X', a line of 'X' adds one to the human's score and ends the game; else a full board is a draw with the scores unchanged; else the computer replies with ai_move's board and that reply is scored |
| Turns.ClickOutcome | tic_tac_toe_gui.py:174-198 | a click on an empty cell marks it 'X' and has the effect of `HumanMovedOutcome` |
| Turns.RepliedScores | tic_tac_toe_gui.py:192-195 | the computer's reply raises only its own score, by one, and only with a line of 'O' that ends the game |
| Turns.HumanMovedScores | tic_tac_toe_gui.py:182-195 | the human's move and the reply raise at most one score, by one, only with that side's line, which ends the game |
| Turns.ClickScores | tic_tac_toe_gui.py:174-198 | every click changes the scores only that way |
| Turns.ScoresOnlyRiseOnWins | tic_tac_toe_gui.py:154-198 | no event lowers a score; one event raises at most one score, by one, and only with that side's line ending the game |
| Turns.ClearedUndecided | tic_tac_toe_gui.py:131 | an empty board is neither won nor full |
| Turns.SingleMarkUndecided | tic_tac_toe_gui.py:171 | the computer's opening 'O' on an empty board is no line and leaves the board not full |
| Turns.StepPreservesInv | tic_tac_toe_gui.py:154-198 | every event keeps the invariant: the human is to move between events, the menu shows an empty board, past the menu the game is over exactly when a side has a line or the board is full, and never do both sides have a line |
| Turns.PickKeepsInv | tic_tac_toe_gui.py:157-172 | the pick keeps the invariant |
| Turns.ClickKeepsInv | tic_tac_toe_gui.py:174-198 | a click keeps the invariant |
| Turns.PlayKeepsInv | tic_tac_toe_gui.py:176-198 | a click on an empty cell keeps the invariant, because the human's 'X' gives 'O' no line and the computer's 'O' gives 'X' none |
| Turns.EffectKeepsInv | tic_tac_toe_gui.py:182-198 | any state the scoring after a move can produce satisfies the invariant |
| Session.Game.constructor | tic_tac_toe_gui.py:34-41 | the globals start as the initial session state: empty board, human to move, menu shown, both scores 0 |
| Session.Game.Minimax | tic_tac_toe_gui.py:91-114 | the in-place minimax leaves the board exactly as it found it and returns the minimax value of that board |
| Session.Game.BestChild | tic_tac_toe_gui.py:99-114 | the loop over the empty cells leaves the board unchanged and returns the max (or min) of the children's scores |
| Session.Game.TryMove | tic_tac_toe_gui.py:102-104 | mark, recurse and unmark: the board is restored and the result is the child's minimax score |
| Session.Game.AiMove | tic_tac_toe_gui.py:116-127 | the array ends as `Search.AiMove` of the board it started as |
| Session.Game.ChooseMove | tic_tac_toe_gui.py:117-125 | the scan with the strict `>` leaves the board unchanged and ends with the first best move, or none on a full board |
| Session.Game.ResetGame | tic_tac_toe_gui.py:129-136 | a fresh empty board, the human to move, no game over, the menu shown; the scores untouched |
| Session.Game.Pick | tic_tac_toe_gui.py:157-172 | the globals change exactly as the pick step function says |
| Session.Game.Click | tic_tac_toe_gui.py:174-181 | the globals change exactly as the click step function says |
| Session.Game.HumanMoved | tic_tac_toe_gui.py:182-191 | the scoring after the human's 'X' changes the globals exactly as its step function says |
| Session.Game.ComputerReplied | tic_tac_toe_gui.py:192-198 | the scoring after the computer's 'O' changes the globals exactly as its step function says |
| Session.Game.HandleEvent | tic_tac_toe_gui.py:154-198 | one pass of the loop body over one event changes the globals exactly as `Turns.Step` |

## Left out

- Drawing, the window, fonts and colours (lines 1-31, 44-69, 139-147) are left out: they are display only. Only `ROWS`, `COLS`, `WIDTH`, `HEIGHT` and `SQSIZE` are kept.
- Event polling and the quit event (lines 149-152) are left out, and so are the `pygame.time.delay` pauses (lines 170, 190). They are I/O and timing. An event arrives as a parameter of `Step` and `HandleEvent`.
- The two `random.randint(1, 5)` draws (lines 160-161) are parameters `userNum` and `aiNum`. Only `PickDecidesStarter` assumes they lie in 1..5; the step functions accept any integers, as the parity rule does.
- The `math.inf` sentinels are the integers -2 and 2. Every score lies in {-1, 0, 1}, so the comparisons come out the same.
- The `depth` argument of `minimax` is never read, so it is dropped.
- `available_moves` returns cell indices `3 * r + c` rather than `(r, c)` pairs. The order is the same row-major order.
- The message strings are an enumerated `Message`. The pick message keeps the two draws, the parity and the starter, and not the text.
- `odd_even_decided` is written by `reset_game` but never read, so it is not modelled.
- A key event carries one character. The reset test `event.key == pygame.K_r` becomes "the character is r or R". `str.upper()` is modelled for ASCII letters only.
- pygame reports clicks only inside the 300 x 450 window, so `Step` and `HandleEvent` require that of a mouse event (`InWindow`).
- Search.Minimax: its contract does not state that a first move from the empty board has value 0, or any other claim about optimal play. Those need the whole game tree to be evaluated, and nothing here evaluates it. What is proved is the recursive characterisation: terminal values, the bound, and max/min over the children.
- The loop bodies of `minimax` and `ai_move` are methods of their own (`Session.Game.TryMove`, `Session.Game.BestChild`, `Session.Game.ChooseMove`), and the scoring after a click is split into `Session.Game.HumanMoved` and `Session.Game.ComputerReplied`. They run the source's statements in the source's order, except that `BestChild` and `ChooseMove` compute the list of empty cells before they set the sentinel and the initial move; these initialisations are independent of each other.
