/** The computer opponent's search, as pure functions over a board value:
    the minimax value of a position and the move ai_move commits.
    Scores: +1 the computer ('O') wins, -1 the human ('X') wins, 0 a draw. */
module Search {
  import opened BoardModel

  datatype Option<T> = None | Some(value: T)

  /** Stand-ins for -math.inf and math.inf: below and above every score. */
  const MinusInfinity := -2
  const PlusInfinity := 2

  function Max(a: int, b: int): int { if a >= b then a else b }
  function Min(a: int, b: int): int { if a <= b then a else b }

  /** The mark the side to move places: 'O' when maximizing, 'X' otherwise. */
  function Mark(maximizing: bool): Cell {
    if maximizing then O else X
  }

  /** Every entry of moves is an empty cell of b. */
  predicate EmptyCells(b: Board, moves: seq<nat>) {
    forall j :: 0 <= j < |moves| ==> moves[j] < |b| && b[moves[j]] == Empty
  }

  /** minimax(depth, maximizing) on board b; the unused depth is dropped. */
  function Minimax(b: Board, maximizing: bool): (score: int)
    decreases EmptyCount(b), 3
    ensures -1 <= score <= 1
  {
    if Wins(b, O) then 1
    else if Wins(b, X) then -1
    else if IsFull(b) then 0
    else BestChild(b, maximizing)
  }

  /** The loop of minimax: the best of the scores of the children, one per empty cell. */
  function BestChild(b: Board, maximizing: bool): (best: int)
    decreases EmptyCount(b), 2
    ensures MinusInfinity <= best <= PlusInfinity
    ensures IsFull(b) ==> best == if maximizing then MinusInfinity else PlusInfinity
    ensures !IsFull(b) ==> best in ChildScores(b, maximizing, AvailableMoves(b))
  {
    Best(maximizing, ChildScores(b, maximizing, AvailableMoves(b)))
  }

  /** The terminal positions, tested in the source's order: a line of 'O' scores 1
      (even if 'X' also has one), else a line of 'X' scores -1, else a full board 0. */
  lemma MinimaxTerminal(b: Board, maximizing: bool)
    ensures Wins(b, O) ==> Minimax(b, maximizing) == 1
    ensures !Wins(b, O) && Wins(b, X) ==> Minimax(b, maximizing) == -1
    ensures !Wins(b, O) && !Wins(b, X) && IsFull(b) ==> Minimax(b, maximizing) == 0
  {
  }

  /** The scores minimax's loop computes, one per trial placement in moves. */
  function ChildScores(b: Board, maximizing: bool, moves: seq<nat>): (scores: seq<int>)
    requires EmptyCells(b, moves)
    decreases EmptyCount(b), 1
    ensures |scores| == |moves|
    ensures forall j :: 0 <= j < |scores| ==> -1 <= scores[j] <= 1
  {
    seq(|moves|, j requires 0 <= j < |moves| => ChildScore(b, maximizing, moves[j]))
  }

  /** The score of the child reached by the side to move marking the empty cell i:
      mark the cell, evaluate the child with the other side to move. */
  function ChildScore(b: Board, maximizing: bool, i: nat): (score: int)
    requires i < |b| && b[i] == Empty
    decreases EmptyCount(b), 0
    ensures -1 <= score <= 1
  {
    PlaceLowersEmptyCount(b, i, Mark(maximizing));
    Minimax(b[i := Mark(maximizing)], !maximizing)
  }

  /** The running `best` of minimax's loop after the given scores, starting from
      the infinite sentinel and folding with max (maximizing) or min. */
  function Best(maximizing: bool, scores: seq<int>): (best: int)
    requires forall j :: 0 <= j < |scores| ==> MinusInfinity < scores[j] < PlusInfinity
    decreases |scores|
    ensures scores == [] ==> best == if maximizing then MinusInfinity else PlusInfinity
    ensures scores != [] ==> best in scores
  {
    if scores == [] then (if maximizing then MinusInfinity else PlusInfinity)
    else
      var score := scores[|scores| - 1];
      var best := Best(maximizing, scores[..|scores| - 1]);
      assert scores[..|scores| - 1] != [] ==> best in scores by {
        if scores[..|scores| - 1] != [] {
          var j :| 0 <= j < |scores| - 1 && scores[j] == best;
        }
      }
      if maximizing then Max(score, best) else Min(score, best)
  }

  /** Folding one more score into the running best. */
  lemma BestAppend(maximizing: bool, scores: seq<int>, score: int)
    requires forall j :: 0 <= j < |scores| ==> MinusInfinity < scores[j] < PlusInfinity
    requires MinusInfinity < score < PlusInfinity
    ensures Best(maximizing, scores + [score]) ==
      if maximizing then Max(score, Best(maximizing, scores)) else Min(score, Best(maximizing, scores))
  {
    assert (scores + [score])[..|scores|] == scores;
  }

  /** scores is a prefix of all, and each of its entries lies strictly between the
      sentinels: what the loops of minimax and ai_move have computed so far. */
  ghost predicate ScoredPrefix(scores: seq<int>, all: seq<int>) {
    |scores| <= |all| &&
    forall j :: 0 <= j < |scores| ==> scores[j] == all[j] && MinusInfinity < scores[j] < PlusInfinity
  }

  /** Computing the next entry extends the prefix. */
  lemma ScoredStep(scores: seq<int>, all: seq<int>, score: int)
    requires ScoredPrefix(scores, all) && |scores| < |all|
    requires score == all[|scores|] && MinusInfinity < score < PlusInfinity
    ensures ScoredPrefix(scores + [score], all)
  {
    var more := scores + [score];
    forall j | 0 <= j < |more|
      ensures more[j] == all[j] && MinusInfinity < more[j] < PlusInfinity
    {
      if j < |scores| {
        assert more[j] == scores[j];
      }
    }
  }

  /** Once every entry is computed, the prefix is the whole list. */
  lemma ScoredAll(scores: seq<int>, all: seq<int>)
    requires ScoredPrefix(scores, all) && |scores| == |all|
    ensures scores == all
  {
  }

  /** Entry k of ChildScores is the minimax value of the child reached by move k. */
  lemma ChildScoreAt(b: Board, maximizing: bool, moves: seq<nat>, k: nat)
    requires EmptyCells(b, moves) && k < |moves|
    ensures ChildScores(b, maximizing, moves)[k] == ChildScore(b, maximizing, moves[k])
  {
  }

  /** Over a non-empty list, the running best is its largest (maximizing) or
      smallest (minimizing) element. */
  lemma {:induction false} BestIsExtreme(maximizing: bool, scores: seq<int>)
    requires forall j :: 0 <= j < |scores| ==> MinusInfinity < scores[j] < PlusInfinity
    requires scores != []
    decreases |scores|
    ensures forall j :: 0 <= j < |scores| ==>
      if maximizing then scores[j] <= Best(maximizing, scores) else scores[j] >= Best(maximizing, scores)
  {
    var n := |scores| - 1;
    var front := scores[..n];
    if front != [] {
      BestIsExtreme(maximizing, front);
      assert forall j :: 0 <= j < n ==> front[j] == scores[j];
    }
  }

  /** On a position that is neither won nor full, minimax is the maximum (computer
      to move) or the minimum (human to move) of the scores of all children, and
      some child attains it. */
  lemma MinimaxOverChildren(b: Board, maximizing: bool)
    requires !Wins(b, O) && !Wins(b, X) && !IsFull(b)
    ensures forall i :: 0 <= i < |b| && b[i] == Empty ==>
      if maximizing then ChildScore(b, maximizing, i) <= Minimax(b, maximizing)
      else ChildScore(b, maximizing, i) >= Minimax(b, maximizing)
    ensures exists i :: 0 <= i < |b| && b[i] == Empty && ChildScore(b, maximizing, i) == Minimax(b, maximizing)
  {
    var moves := AvailableMoves(b);
    var scores := ChildScores(b, maximizing, moves);
    assert Minimax(b, maximizing) == BestChild(b, maximizing) == Best(maximizing, scores);
    BestIsExtreme(maximizing, scores);
    forall i | 0 <= i < |b| && b[i] == Empty
      ensures if maximizing then ChildScore(b, maximizing, i) <= Minimax(b, maximizing)
              else ChildScore(b, maximizing, i) >= Minimax(b, maximizing)
    {
      assert i in moves;
      var j :| 0 <= j < |moves| && moves[j] == i;
      ChildScoreAt(b, maximizing, moves, j);
    }
    var j :| 0 <= j < |scores| && scores[j] == Best(maximizing, scores);
    ChildScoreAt(b, maximizing, moves, j);
    assert moves[j] in moves;
  }

  // ---------------------------------------------------------------------------
  // ai_move

  /** The score ai_move gives to marking the empty cell i with 'O': minimax(0, False). */
  function MoveScore(b: Board, i: nat): int
    requires i < |b| && b[i] == Empty
  {
    ChildScore(b, true, i)
  }

  /** The running (best_score, move) of ai_move's loop after the given moves and
      their scores: a later move replaces the choice only with a strictly greater score. */
  function Choice(moves: seq<nat>, scores: seq<int>): (c: (int, Option<nat>))
    requires |moves| == |scores|
    decreases |moves|
  {
    if moves == [] then (MinusInfinity, None)
    else
      var n := |moves| - 1;
      var (bestScore, move) := Choice(moves[..n], scores[..n]);
      if scores[n] > bestScore then (scores[n], Some(moves[n])) else (bestScore, move)
  }

  /** Choice picks no move exactly when no score beats the sentinel, and then keeps
      the sentinel; otherwise the move it picks is one of the moves, with its score. */
  lemma {:induction false} ChoiceFound(moves: seq<nat>, scores: seq<int>)
    requires |moves| == |scores|
    decreases |moves|
    ensures var c := Choice(moves, scores);
      c.1 == None <==> (forall j :: 0 <= j < |scores| ==> scores[j] <= MinusInfinity)
    ensures var c := Choice(moves, scores);
      c.1 == None ==> c.0 == MinusInfinity
    ensures var c := Choice(moves, scores);
      c.1.Some? ==> exists k :: 0 <= k < |moves| && moves[k] == c.1.value && scores[k] == c.0
  {
    if moves != [] {
      var n := |moves| - 1;
      var front, frontScores := moves[..n], scores[..n];
      ChoiceFound(front, frontScores);
      assert forall j :: 0 <= j < n ==> front[j] == moves[j] && frontScores[j] == scores[j];
    }
  }

  /** Folding one more move and its score into the running choice: ai_move's
      `if score > best_score`. */
  lemma ChoiceAppend(moves: seq<nat>, scores: seq<int>, k: nat, score: int)
    requires |scores| == k < |moves|
    ensures Choice(moves[..k + 1], scores + [score]) ==
      var c := Choice(moves[..k], scores);
      if score > c.0 then (score, Some(moves[k])) else c
  {
    assert moves[..k + 1][..k] == moves[..k] && (scores + [score])[..k] == scores;
  }

  /** After the last move, the prefix of the moves scanned is all of them. */
  lemma ScannedAll(moves: seq<nat>, k: nat)
    requires k == |moves|
    ensures moves[..k] == moves
  {
  }

  /** Every entry of ai_move's score list is the MoveScore of its move. */
  lemma MoveScores(b: Board, moves: seq<nat>)
    requires EmptyCells(b, moves)
    ensures forall k :: 0 <= k < |moves| ==> ChildScores(b, true, moves)[k] == MoveScore(b, moves[k])
  {
    forall k | 0 <= k < |moves|
      ensures ChildScores(b, true, moves)[k] == MoveScore(b, moves[k])
    {
      ChildScoreAt(b, true, moves, k);
    }
  }

  /** Position k holds a maximal score and every earlier position a strictly smaller one. */
  predicate FirstMaximum(scores: seq<int>, k: int) {
    0 <= k < |scores| &&
    (forall j :: 0 <= j < |scores| ==> scores[j] <= scores[k]) &&
    (forall j :: 0 <= j < k ==> scores[j] < scores[k])
  }

  /** When every score beats the sentinel, Choice settles on the move at the FIRST
      position whose score is maximal. */
  lemma {:induction false} ChoiceIsFirstBest(moves: seq<nat>, scores: seq<int>)
    requires |moves| == |scores| && moves != []
    requires forall j :: 0 <= j < |scores| ==> scores[j] > MinusInfinity
    decreases |moves|
    ensures Choice(moves, scores).1.Some?
    ensures exists k :: (FirstMaximum(scores, k) && moves[k] == Choice(moves, scores).1.value &&
      scores[k] == Choice(moves, scores).0)
  {
    var n := |moves| - 1;
    var front, frontScores := moves[..n], scores[..n];
    assert forall j :: 0 <= j < n ==> frontScores[j] == scores[j];
    if front == [] {
      assert Choice(moves, scores).1 == Some(moves[0]);
      assert FirstMaximum(scores, 0);
    } else {
      ChoiceIsFirstBest(front, frontScores);
      var k :| FirstMaximum(frontScores, k) && front[k] == Choice(front, frontScores).1.value &&
        frontScores[k] == Choice(front, frontScores).0;
      if scores[n] > frontScores[k] {
        assert Choice(moves, scores).1 == Some(moves[n]);
        assert FirstMaximum(scores, n);
      } else {
        assert Choice(moves, scores).1 == Some(front[k]);
        assert moves[k] == front[k];
        assert FirstMaximum(scores, k);
      }
    }
  }

  /** i is an empty cell with the greatest MoveScore, and every empty cell before it
      in row-major order scores strictly less. */
  ghost predicate IsFirstBest(b: Board, i: nat) {
    i < |b| && b[i] == Empty &&
    (forall j :: 0 <= j < |b| && b[j] == Empty ==> MoveScore(b, j) <= MoveScore(b, i)) &&
    (forall j :: 0 <= j < i && b[j] == Empty ==> MoveScore(b, j) < MoveScore(b, i))
  }

  /** The cell ai_move marks, if any: none exactly on a full board, else an empty cell. */
  function BestMove(b: Board): (m: Option<nat>)
    ensures m == None <==> IsFull(b)
    ensures m.Some? ==> m.value < |b| && b[m.value] == Empty
  {
    var moves := AvailableMoves(b);
    var scores := ChildScores(b, true, moves);
    var c := Choice(moves, scores);
    ChoiceFound(moves, scores);
    assert moves != [] ==> scores[0] > MinusInfinity;
    assert c.1.Some? ==> c.1.value in moves;
    c.1
  }

  /** In a strictly increasing list, a smaller entry sits at an earlier position. */
  lemma IncreasingOrder(moves: seq<nat>, a: nat, c: nat)
    requires forall j, j' :: 0 <= j < j' < |moves| ==> moves[j] < moves[j']
    requires a < |moves| && c < |moves| && moves[a] < moves[c]
    ensures a < c
  {
  }

  /** The move at the first maximal position of ai_move's score list is a first
      best cell. */
  lemma FirstMaximumIsFirstBest(b: Board, scores: seq<int>, k: nat)
    requires |scores| == |AvailableMoves(b)|
    requires forall jj :: 0 <= jj < |scores| ==> scores[jj] == MoveScore(b, AvailableMoves(b)[jj])
    requires FirstMaximum(scores, k)
    ensures IsFirstBest(b, AvailableMoves(b)[k])
  {
    var moves := AvailableMoves(b);
    var m := moves[k];
    forall j | 0 <= j < |b| && b[j] == Empty
      ensures MoveScore(b, j) <= MoveScore(b, m)
      ensures j < m ==> MoveScore(b, j) < MoveScore(b, m)
    {
      assert j in moves;
      var jj :| 0 <= jj < |moves| && moves[jj] == j;
      if j < m {
        IncreasingOrder(moves, jj, k);
      }
    }
  }

  /** On a board with an empty cell, the cell ai_move marks is a first best one. */
  lemma BestMoveSome(b: Board)
    requires !IsFull(b)
    ensures BestMove(b).Some? && IsFirstBest(b, BestMove(b).value)
  {
    var moves := AvailableMoves(b);
    var scores := ChildScores(b, true, moves);
    ChoiceIsFirstBest(moves, scores);
    var k :| FirstMaximum(scores, k) && moves[k] == Choice(moves, scores).1.value &&
      scores[k] == Choice(moves, scores).0;
    MoveScores(b, moves);
    FirstMaximumIsFirstBest(b, scores, k);
  }

  /** At most one cell is a first best one. */
  lemma FirstBestIsUnique(b: Board, i: nat, m: nat)
    requires IsFirstBest(b, i) && IsFirstBest(b, m)
    ensures i == m
  {
  }

  /** ai_move marks nothing exactly on a full board, and otherwise the cell it marks
      is the first empty cell, in row-major order, with the greatest minimax score. */
  lemma BestMoveIsFirstBest(b: Board, i: nat)
    ensures BestMove(b) == None <==> IsFull(b)
    ensures BestMove(b) == Some(i) <==> IsFirstBest(b, i)
  {
    if !IsFull(b) {
      BestMoveSome(b);
      if IsFirstBest(b, i) {
        FirstBestIsUnique(b, i, BestMove(b).value);
      }
    }
  }

  /** ai_move() as a function of the board: on a board with an empty cell, exactly
      one empty cell becomes 'O' and nothing else changes; a full board stays as it is. */
  function AiMove(b: Board): (r: Board)
    ensures IsFull(b) ==> r == b
    ensures !IsFull(b) ==> exists i: nat :: i < |b| && b[i] == Empty && r == b[i := O]
  {
    match BestMove(b)
    case None => b
    case Some(i) => b[i := O]
  }

  /** ai_move never overwrites a mark already on the board. */
  lemma AiMoveKeepsMarks(b: Board, i: nat)
    requires i < |b| && b[i] != Empty
    ensures AiMove(b)[i] == b[i]
  {
    if !IsFull(b) {
      var j: nat :| j < |b| && b[j] == Empty && AiMove(b) == b[j := O];
    }
  }

  /** ai_move places only an 'O', so it never completes a line for 'X'. */
  lemma AiMoveGivesXNoLine(b: Board)
    requires !Wins(b, X)
    ensures !Wins(AiMove(b), X)
  {
    if !IsFull(b) {
      var j: nat :| j < |b| && b[j] == Empty && AiMove(b) == b[j := O];
      PlaceKeepsOtherLoser(b, j, O, X);
    }
  }

  /** The cell ai_move marks is the first best one. */
  lemma AiMoveIsFirstBest(b: Board)
    requires !IsFull(b)
    ensures exists i: nat :: IsFirstBest(b, i) && AiMove(b) == b[i := O]
  {
    BestMoveSome(b);
  }
}
