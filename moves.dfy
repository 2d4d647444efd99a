/** The computer's move selection at the three difficulty levels. */
module Moves {
  import opened Board

  // ---------------------------------------------------------------------
  // Easy: a random empty cell
  // ---------------------------------------------------------------------

  /**
   * easyMove. `pick` stands for Math.floor(Math.random() * n), n being the
   * number of empty cells, so it is below n.
   */
  function EasyMove(b: seq<Cell>, pick: nat): (r: Index)
    requires |b| == 9 && pick < |EmptyCells(b)|
    ensures b[r] == Empty
  {
    EmptyCells(b)[pick]
  }

  /** Every empty cell is the easy move for some value of the random draw. */
  lemma EasyMoveCoversEmptyCells(b: seq<Cell>, i: Index)
    requires |b| == 9 && b[i] == Empty
    ensures exists pick: nat :: pick < |EmptyCells(b)| && EasyMove(b, pick) == i
  {
    var cells := EmptyCells(b);
    EmptyCellsSpec(b);
    assert i in cells;
    var pick: nat :| pick < |cells| && cells[pick] == i;
    assert EasyMove(b, pick) == i;
  }

  // ---------------------------------------------------------------------
  // Normal: win, else block, else random
  // ---------------------------------------------------------------------

  /** The test of normalMove's loops: p's mark at cell i makes checkResult(temp, p) truthy. */
  function Completes(b: seq<Cell>, p: Player): Index -> bool
    requires |b| == 9
  {
    (i: Index) => |b| == 9 && CheckResult(b[i := Mark(p)], Some(p)).Truthy()
  }

  /**
   * The empty cell i is one where p's mark makes checkResult(temp, p)
   * truthy: the first complete line is p's, or the board fills up without
   * a line.
   */
  ghost predicate WouldWin(b: seq<Cell>, i: Index, p: Player)
    requires |b| == 9
  {
    b[i] == Empty && Completes(b, p)(i)
  }

  /** A loop of normalMove: the first of `cells`, in order, that passes `test`. */
  function FirstWhere(cells: seq<Index>, test: Index -> bool): (r: Option<Index>)
    ensures r.None? ==> forall j :: 0 <= j < |cells| ==> !test(cells[j])
    ensures r.Some? ==> test(r.value)
    ensures r.Some? ==>
              exists k :: (0 <= k < |cells| && cells[k] == r.value &&
                forall j :: 0 <= j < k ==> !test(cells[j]))
  {
    if cells == [] then None
    else if test(cells[0]) then Some(cells[0])
    else
      var r := FirstWhere(cells[1..], test);
      if r.Some? then
        var k :| 0 <= k < |cells[1..]| && cells[1..][k] == r.value &&
          forall j :: 0 <= j < k ==> !test(cells[1..][j]);
        assert cells[k + 1] == r.value;
        r
      else r
  }

  /** The search finds nothing exactly when no cell passes. */
  lemma FirstWhereNone(cells: seq<Index>, test: Index -> bool)
    ensures FirstWhere(cells, test).None? <==> forall c :: c in cells ==> !test(c)
  {
    if FirstWhere(cells, test).None? {
      forall c | c in cells ensures !test(c) {
        var m :| 0 <= m < |cells| && cells[m] == c;
      }
    }
  }

  /** Over ascending cells, the cell found is the lowest one that passes. */
  lemma FirstWhereIsLowest(cells: seq<Index>, test: Index -> bool)
    requires forall j, k :: 0 <= j < k < |cells| ==> cells[j] < cells[k]
    ensures var r := FirstWhere(cells, test);
            r.Some? ==> r.value in cells && test(r.value) &&
                        forall c :: c in cells && c < r.value ==> !test(c)
  {
    var r := FirstWhere(cells, test);
    if r.Some? {
      var k :| 0 <= k < |cells| && cells[k] == r.value &&
        forall j :: 0 <= j < k ==> !test(cells[j]);
      forall c | c in cells && c < r.value ensures !test(c) {
        var m :| 0 <= m < |cells| && cells[m] == c;
        assert m < k;
      }
    }
  }

  /** Over the empty cells, the first that passes p's test is the lowest index where p would win. */
  lemma FirstWinIsLowest(b: seq<Cell>, p: Player)
    requires |b| == 9
    ensures var r := FirstWhere(EmptyCells(b), Completes(b, p));
            (r.None? <==> forall i: Index :: !WouldWin(b, i, p)) &&
            (r.Some? ==> WouldWin(b, r.value, p) &&
                         forall j: Index :: j < r.value ==> !WouldWin(b, j, p))
  {
    var cells := EmptyCells(b);
    var test := Completes(b, p);
    EmptyCellsSpec(b);
    FirstWhereNone(cells, test);
    FirstWhereIsLowest(cells, test);
    forall i: Index ensures WouldWin(b, i, p) <==> i in cells && test(i) {
    }
  }

  /**
   * normalMove: the lowest empty index where O's mark tests truthy for O;
   * failing that, the lowest where X's mark tests truthy for X (a block);
   * failing both, the random empty cell numbered `pick`.
   */
  function NormalMove(b: seq<Cell>, pick: nat): (r: Index)
    requires |b| == 9 && pick < |EmptyCells(b)|
    ensures b[r] == Empty
    ensures (exists i: Index :: WouldWin(b, i, O)) ==>
              WouldWin(b, r, O) && forall j: Index :: j < r ==> !WouldWin(b, j, O)
    ensures (forall i: Index :: !WouldWin(b, i, O)) && (exists i: Index :: WouldWin(b, i, X)) ==>
              WouldWin(b, r, X) && forall j: Index :: j < r ==> !WouldWin(b, j, X)
    ensures (forall i: Index :: !WouldWin(b, i, O) && !WouldWin(b, i, X)) ==> r == EasyMove(b, pick)
  {
    var cells := EmptyCells(b);
    FirstWinIsLowest(b, O);
    FirstWinIsLowest(b, X);
    var win := FirstWhere(cells, Completes(b, O));
    if win.Some? then win.value
    else
      var block := FirstWhere(cells, Completes(b, X));
      if block.Some? then block.value
      else cells[pick]
  }

  /** O holding cells 0 and 1 completes the top row at 2. */
  lemma NormalTakesWin(b: seq<Cell>, pick: nat)
    requires b == [Mark(O), Mark(O), Empty, Empty, Empty, Empty, Empty, Empty, Empty]
    requires pick < |EmptyCells(b)|
    ensures NormalMove(b, pick) == 2
  {
    var t := b[2 := Mark(O)];
    assert FirstLine(t, 0);
    assert WouldWin(b, 2, O);
  }

  /** Against X holding cells 0 and 1, O blocks the top row at 2. */
  lemma NormalBlocks(b: seq<Cell>, pick: nat)
    requires b == [Mark(X), Mark(X), Empty, Empty, Empty, Empty, Empty, Empty, Empty]
    requires pick < |EmptyCells(b)|
    ensures NormalMove(b, pick) == 2
  {
    forall i: Index | b[i] == Empty ensures !WouldWin(b, i, O) {
      NoLineAfterOneO(b, i);
    }
    var t := b[2 := Mark(X)];
    assert FirstLine(t, 0);
    assert WouldWin(b, 2, X);
  }

  /** With X on cells 0 and 1 only, one O anywhere else completes no line and fills nothing up. */
  lemma NoLineAfterOneO(b: seq<Cell>, i: Index)
    requires b == [Mark(X), Mark(X), Empty, Empty, Empty, Empty, Empty, Empty, Empty]
    requires b[i] == Empty
    ensures CheckResult(b[i := Mark(O)], Some(O)) == False
  {
    var t := b[i := Mark(O)];
    forall k | 0 <= k < |WinningConditions| ensures !LineComplete(t, k) {
    }
    assert t[if i == 8 then 7 else 8] == Empty;
  }

  // ---------------------------------------------------------------------
  // Hard: minimax
  // ---------------------------------------------------------------------

  /** The scores table: a win for X, a win for O, and a draw. */
  function Scores(p: Player): int { if p == X then -10 else 10 }
  const DrawScore := 0

  /** The stand-in for -Infinity (maximizing) or Infinity (minimizing). */
  function Sentinel(maximizing: bool): int { if maximizing then -11 else 11 }

  /** The mark the side to move places: O maximizes, X minimizes. */
  function Mover(maximizing: bool): Player { if maximizing then O else X }

  function Max(a: int, b: int): int { if a >= b then a else b }
  function Min(a: int, b: int): int { if a <= b then a else b }

  /** How minimax scores a terminal verdict: by the side to move, not by the line. */
  function TerminalScore(result: Verdict, maximizing: bool): int
  {
    if result == Draw then DrawScore else Scores(if maximizing then X else O)
  }

  /** Placing a mark on an empty cell leaves one empty cell fewer. */
  lemma EmptyCountDrops(b: seq<Cell>, i: nat, c: Cell)
    requires i < |b| && b[i] == Empty && c != Empty
    ensures multiset(b[i := c])[Empty] == multiset(b)[Empty] - 1
  {
  }

  /** The value minimax computes for a board, the side to move being O when maximizing. */
  function Score(b: seq<Cell>, maximizing: bool): (r: int)
    requires |b| == 9
    decreases multiset(b)[Empty], 2
  {
    var result := CheckResult(b, None);
    if result != False then TerminalScore(result, maximizing)
    else BestFrom(b, maximizing, 0, Sentinel(maximizing))
  }

  /**
   * On a finished board minimax looks only at whose turn it is: any complete
   * line scores -10 with O to move and 10 with X to move, whoever owns it;
   * a full board without a line scores 0.
   */
  lemma TerminalScores(b: seq<Cell>, maximizing: bool)
    requires |b| == 9
    ensures HasLine(b) ==> Score(b, maximizing) == if maximizing then -10 else 10
    ensures !HasLine(b) && Full(b) ==> Score(b, maximizing) == 0
  {
  }

  /** The loop of minimax from cell i on, with best the score kept so far. */
  function BestFrom(b: seq<Cell>, maximizing: bool, i: nat, best: int): int
    requires |b| == 9 && i <= 9
    decreases multiset(b)[Empty], 1, 9 - i
  {
    if i == 9 then best
    else if b[i] == Empty then
      var score := Child(b, maximizing, i);
      BestFrom(b, maximizing, i + 1, if maximizing then Max(score, best) else Min(score, best))
    else BestFrom(b, maximizing, i + 1, best)
  }

  /** The score of the child reached by the side to move marking the empty cell j. */
  function Child(b: seq<Cell>, maximizing: bool, j: Index): int
    requires |b| == 9 && b[j] == Empty
    decreases multiset(b)[Empty], 0
  {
    Score(b[j := Mark(Mover(maximizing))], !maximizing)
  }

  /** Every minimax score is a loss, a draw or a win: -10, 0 or 10. */
  lemma {:induction false} ScoreRange(b: seq<Cell>, maximizing: bool)
    requires |b| == 9
    ensures Score(b, maximizing) in {-10, 0, 10}
    decreases multiset(b)[Empty], 1
  {
    if CheckResult(b, None) == False {
      CheckResultSpec(b, None);
      BestFromRange(b, maximizing, 0, Sentinel(maximizing));
    }
  }

  /**
   * The loop ends on -10, 0 or 10 when it starts from one of them, or from
   * the sentinel with an empty cell still ahead of it.
   */
  lemma {:induction false} BestFromRange(b: seq<Cell>, maximizing: bool, i: nat, best: int)
    requires |b| == 9 && i <= 9
    requires best in {-10, 0, 10} ||
             (best == Sentinel(maximizing) && exists e :: i <= e < 9 && b[e] == Empty)
    ensures BestFrom(b, maximizing, i, best) in {-10, 0, 10}
    decreases multiset(b)[Empty], 0, 9 - i
  {
    if i < 9 {
      if b[i] == Empty {
        EmptyCountDrops(b, i, Mark(Mover(maximizing)));
        ScoreRange(b[i := Mark(Mover(maximizing))], !maximizing);
        var score := Child(b, maximizing, i);
        BestFromRange(b, maximizing, i + 1, if maximizing then Max(score, best) else Min(score, best));
      } else {
        BestFromRange(b, maximizing, i + 1, best);
      }
    }
  }

  /**
   * The loop's result is the best (largest when maximizing, smallest
   * otherwise) of `best` and the child scores of the empty cells from i on.
   */
  lemma {:induction false} BestFromBounds(b: seq<Cell>, maximizing: bool, i: nat, best: int)
    requires |b| == 9 && i <= 9
    ensures maximizing ==> BestFrom(b, true, i, best) >= best
    ensures !maximizing ==> BestFrom(b, false, i, best) <= best
    ensures forall j: Index :: i <= j && b[j] == Empty ==>
              if maximizing then Child(b, true, j) <= BestFrom(b, true, i, best)
              else BestFrom(b, false, i, best) <= Child(b, false, j)
    ensures BestFrom(b, maximizing, i, best) == best ||
            exists j: Index :: i <= j && b[j] == Empty && BestFrom(b, maximizing, i, best) == Child(b, maximizing, j)
    decreases 9 - i
  {
    if i < 9 {
      var r := BestFrom(b, maximizing, i, best);
      if b[i] == Empty {
        var score := Child(b, maximizing, i);
        var best' := if maximizing then Max(score, best) else Min(score, best);
        assert r == BestFrom(b, maximizing, i + 1, best');
        BestFromBounds(b, maximizing, i + 1, best');
      } else {
        assert r == BestFrom(b, maximizing, i + 1, best);
        BestFromBounds(b, maximizing, i + 1, best);
      }
    }
  }

  /**
   * On a board still in play, minimax is the largest child score when O is
   * to move and the smallest when X is, and some empty cell attains it.
   */
  lemma ScoreIsBestChild(b: seq<Cell>, maximizing: bool)
    requires |b| == 9 && CheckResult(b, None) == False
    ensures forall j: Index :: b[j] == Empty ==>
              if maximizing then Child(b, true, j) <= Score(b, true)
              else Score(b, false) <= Child(b, false, j)
    ensures exists j: Index :: b[j] == Empty && Score(b, maximizing) == Child(b, maximizing, j)
  {
    BestFromBounds(b, maximizing, 0, Sentinel(maximizing));
    assert !Full(b);
    var e: Index :| b[e] == Empty;
    EmptyCountDrops(b, e, Mark(Mover(maximizing)));
    ScoreRange(b[e := Mark(Mover(maximizing))], !maximizing);
  }

  /**
   * minimax on the board array: the board is exactly as it was on return,
   * and the score is Score of that board; `depth` plays no part.
   */
  method Minimax(currentBoard: array<Cell>, depth: int, isMaximizing: bool) returns (score: int)
    requires currentBoard.Length == 9
    modifies currentBoard
    ensures currentBoard[..] == old(currentBoard[..])
    ensures score == Score(currentBoard[..], isMaximizing)
    decreases multiset(currentBoard[..])[Empty]
  {
    var result := CheckResult(currentBoard[..], None);
    if result != False {
      return TerminalScore(result, isMaximizing);
    }
    ghost var b := currentBoard[..];
    if isMaximizing {
      var bestScore := Sentinel(true);
      for i := 0 to 9
        invariant currentBoard[..] == b
        invariant BestFrom(b, true, i, bestScore) == Score(b, true)
      {
        if currentBoard[i] == Empty {
          currentBoard[i] := Mark(O);
          EmptyCountDrops(b, i, Mark(O));
          var s := Minimax(currentBoard, depth + 1, false);
          currentBoard[i] := Empty;
          assert currentBoard[..] == b[i := Mark(O)][i := Empty];
          bestScore := Max(s, bestScore);
        }
      }
      return bestScore;
    } else {
      var bestScore := Sentinel(false);
      for i := 0 to 9
        invariant currentBoard[..] == b
        invariant BestFrom(b, false, i, bestScore) == Score(b, false)
      {
        if currentBoard[i] == Empty {
          currentBoard[i] := Mark(X);
          EmptyCountDrops(b, i, Mark(X));
          var s := Minimax(currentBoard, depth + 1, true);
          currentBoard[i] := Empty;
          assert currentBoard[..] == b[i := Mark(X)][i := Empty];
          bestScore := Min(s, bestScore);
        }
      }
      return bestScore;
    }
  }

  /**
   * The score hardMove gives each cell: minimax after O marks it, with X to
   * move. An occupied cell is never scored; it gets the sentinel.
   */
  ghost function MoveScores(b: seq<Cell>): (r: seq<int>)
    requires |b| == 9
    ensures |r| == 9
  {
    seq(9, j requires 0 <= j < 9 => if b[j] == Empty then Child(b, true, j) else Sentinel(true))
  }

  /**
   * i is an empty cell of highest score, and no lower empty cell reaches
   * that score.
   */
  ghost predicate FirstBest(b: seq<Cell>, cellScores: seq<int>, i: Index)
    requires |b| == 9 && |cellScores| == 9
  {
    b[i] == Empty &&
    forall j: Index :: b[j] == Empty ==>
      cellScores[j] <= cellScores[i] && (j < i ==> cellScores[j] < cellScores[i])
  }

  /** The best move for O: the lowest empty cell of highest minimax score. */
  ghost predicate IsBestMove(b: seq<Cell>, i: Index)
    requires |b| == 9
  {
    FirstBest(b, MoveScores(b), i)
  }

  /** Every empty cell scores above the sentinel hardMove starts from. */
  lemma MoveScoresAboveSentinel(b: seq<Cell>)
    requires |b| == 9
    ensures forall j: Index :: b[j] == Empty ==> Sentinel(true) < MoveScores(b)[j]
  {
    forall j: Index | b[j] == Empty ensures Sentinel(true) < MoveScores(b)[j] {
      ScoreRange(b[j := Mark(O)], false);
    }
  }

  /** The spread copy [...board]: a new array with the same cells. */
  method Copy(board: array<Cell>) returns (copy: array<Cell>)
    ensures fresh(copy) && copy[..] == board[..]
  {
    copy := new Cell[board.Length](k => Empty);
    for k := 0 to board.Length
      invariant copy[..k] == board[..k]
    {
      copy[k] := board[k];
    }
    assert copy[..] == copy[..board.Length];
  }

  /**
   * One step of hardMove: O's mark on a copy of the board, scored by minimax
   * with X to move. The score is -10, 0 or 10.
   */
  method ScoreMove(board: array<Cell>, index: Index) returns (score: int)
    requires board.Length == 9 && board[index] == Empty
    ensures score == Child(board[..], true, index)
    ensures score in {-10, 0, 10}
  {
    var tempBoard := Copy(board);
    tempBoard[index] := Mark(O);
    assert tempBoard[..] == board[..][index := Mark(O)];
    score := Minimax(tempBoard, 0, false);
    ScoreRange(board[..][index := Mark(O)], false);
  }

  /**
   * The loop of hardMove over a list of cells: it keeps the first cell whose
   * score is strictly above the best seen so far.
   */
  function ScanCells(cells: seq<Index>, cellScores: seq<int>, best: int, move: Index): Index
    requires |cellScores| == 9
  {
    if cells == [] then move
    else if cellScores[cells[0]] > best then ScanCells(cells[1..], cellScores, cellScores[cells[0]], cells[0])
    else ScanCells(cells[1..], cellScores, best, move)
  }

  /**
   * Where the scan may stand before cell start: on the sentinel when it has
   * passed no empty cell, or on the lowest empty cell below start of
   * highest score, best being that score.
   */
  ghost predicate ScanState(b: seq<Cell>, cellScores: seq<int>, start: nat, best: int, move: Index)
    requires |b| == 9 && |cellScores| == 9
  {
    (best == Sentinel(true) && forall j: Index :: j < start ==> b[j] != Empty) ||
    (move < start && b[move] == Empty && best == cellScores[move] &&
     forall j: Index :: j < start && b[j] == Empty ==>
       cellScores[j] <= best && (j < move ==> cellScores[j] < best))
  }

  /** One cell further, the scan is again in a ScanState. */
  lemma ScanStep(b: seq<Cell>, cellScores: seq<int>, start: nat, best: int, move: Index)
    requires |b| == 9 && |cellScores| == 9 && start < 9
    requires forall j: Index :: b[j] == Empty ==> Sentinel(true) < cellScores[j]
    requires ScanState(b, cellScores, start, best, move)
    ensures b[start] == Empty && cellScores[start] > best ==>
              ScanState(b, cellScores, start + 1, cellScores[start], start)
    ensures !(b[start] == Empty && cellScores[start] > best) ==>
              ScanState(b, cellScores, start + 1, best, move)
  {
  }

  /** Past the last cell, on a board with an empty cell, the scan stands on the best one. */
  lemma ScanDone(b: seq<Cell>, cellScores: seq<int>, best: int, move: Index)
    requires |b| == 9 && |cellScores| == 9
    requires exists j: Index :: b[j] == Empty
    requires ScanState(b, cellScores, 9, best, move)
    ensures FirstBest(b, cellScores, move)
  {
  }

  /**
   * Run over the empty cells from start on, out of a ScanState, the scan
   * ends on the lowest empty cell of highest score.
   */
  lemma {:induction false} ScanEmptyFromIsFirstBest(b: seq<Cell>, cellScores: seq<int>, start: nat, best: int, move: Index)
    requires |b| == 9 && |cellScores| == 9 && start <= 9
    requires exists j: Index :: b[j] == Empty
    requires forall j: Index :: b[j] == Empty ==> Sentinel(true) < cellScores[j]
    requires ScanState(b, cellScores, start, best, move)
    ensures FirstBest(b, cellScores, ScanCells(EmptyFrom(b, start), cellScores, best, move))
    decreases 9 - start
  {
    if start == 9 {
      ScanDone(b, cellScores, best, move);
    } else {
      ScanStep(b, cellScores, start, best, move);
      var rest := EmptyFrom(b, start + 1);
      if b[start] == Empty {
        assert EmptyFrom(b, start) == [start] + rest;
        assert ([start] + rest)[1..] == rest;
        if cellScores[start] > best {
          ScanEmptyFromIsFirstBest(b, cellScores, start + 1, cellScores[start], start);
        } else {
          ScanEmptyFromIsFirstBest(b, cellScores, start + 1, best, move);
        }
      } else {
        ScanEmptyFromIsFirstBest(b, cellScores, start + 1, best, move);
      }
    }
  }

  /**
   * hardMove: scores each empty cell on its own copy of the board and keeps
   * the first with the highest score (the comparison is strict). The board
   * itself is not modified.
   */
  method HardMove(board: array<Cell>) returns (bestMove: Index)
    requires board.Length == 9 && Empty in board[..]
    ensures IsBestMove(board[..], bestMove)
  {
    var bestScore := Sentinel(true);
    bestMove := 0;
    var b := board[..];
    var emptyCells := EmptyCells(b);
    ghost var cellScores := MoveScores(b);
    for n := 0 to |emptyCells|
      invariant ScanCells(emptyCells[n..], cellScores, bestScore, bestMove) ==
                ScanCells(emptyCells, cellScores, Sentinel(true), 0)
    {
      var index := emptyCells[n];
      var score := ScoreMove(board, index);
      assert score == cellScores[index];
      assert emptyCells[n..][1..] == emptyCells[n + 1..];
      if score > bestScore {
        bestScore := score;
        bestMove := index;
      }
    }
    assert emptyCells[|emptyCells|..] == [];
    MoveScoresAboveSentinel(b);
    ScanEmptyFromIsFirstBest(b, cellScores, 0, Sentinel(true), 0);
  }
}
