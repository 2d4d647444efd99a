/** The game session: the board, whose turn it is, whether play goes on, and the difficulty. */
module Game {
  import opened Board
  import opened Moves

  /** The three computer levels: random, win-or-block, minimax. */
  datatype Difficulty = Easy | Normal | Hard

  /** The number of cells holding p's mark. */
  function Count(b: seq<Cell>, p: Player): nat
  {
    multiset(b)[Mark(p)]
  }

  /** The board a game starts from: nine empty cells. */
  function EmptyBoard(): (r: seq<Cell>)
    ensures |r| == 9 && forall i :: 0 <= i < 9 ==> r[i] == Empty
  {
    [Empty, Empty, Empty, Empty, Empty, Empty, Empty, Empty, Empty]
  }

  /** The empty board is still in play and holds no mark. */
  lemma EmptyBoardInPlay()
    ensures CheckResult(EmptyBoard(), None) == False
    ensures Count(EmptyBoard(), X) == 0 && Count(EmptyBoard(), O) == 0
  {
    var b := EmptyBoard();
    CheckResultSpec(b, None);
    assert !LineComplete(b, 0);
    assert b[0] == Empty;
  }

  /** A board still in play has an empty cell, so every move picker has a cell to return. */
  lemma InPlayHasEmptyCell(b: seq<Cell>)
    requires |b| == 9 && CheckResult(b, None) == False
    ensures Empty in b && |EmptyCells(b)| > 0
  {
    CheckResultSpec(b, None);
    EmptyCellsSpec(b);
    var i :| 0 <= i < |b| && b[i] == Empty;
    assert b[i] in b;
  }

  /**
   * On a board in play, a mark on an empty cell can only complete lines
   * through that cell, so every complete line afterwards is the mover's.
   */
  lemma NewLinesAreMovers(b: seq<Cell>, i: Index, p: Player, after: seq<Cell>)
    requires |b| == 9 && b[i] == Empty && CheckResult(b, None) == False
    requires after == b[i := Mark(p)]
    ensures forall k :: 0 <= k < |WinningConditions| && LineComplete(after, k) ==>
              LineOwner(after, k) == p
  {
    CheckResultSpec(b, None);
    forall k | 0 <= k < |WinningConditions| && LineComplete(after, k)
      ensures LineOwner(after, k) == p
    {
      assert !LineComplete(b, k);
    }
  }

  /** A mark on an empty cell adds one to its owner's count and leaves the other count alone. */
  lemma CountAfterMark(b: seq<Cell>, i: Index, p: Player)
    requires |b| == 9 && b[i] == Empty
    ensures Count(b[i := Mark(p)], p) == Count(b, p) + 1
    ensures Count(b[i := Mark(p)], Other(p)) == Count(b, Other(p))
  {
    assert multiset(b[i := Mark(p)]) == multiset(b) - multiset{Empty} + multiset{Mark(p)};
  }

  /** The page's game state: the module-level variables of the script. */
  class Session {
    var board: array<Cell>
    var currentPlayer: Player
    var gameActive: bool
    var difficulty: Difficulty

    /**
     * The session invariant. The game is active exactly while the board is
     * undecided; X moves first, so the counts differ by the number of moves
     * made since X last had the turn; and once the game is over every
     * complete line is the last mover's, who is still currentPlayer.
     */
    ghost predicate Valid()
      reads this, board
    {
      board.Length == 9 &&
      (gameActive <==> CheckResult(board[..], None) == False) &&
      Count(board[..], X) == Count(board[..], O) + (if (currentPlayer == X) == gameActive then 0 else 1) &&
      (!gameActive ==>
        forall k :: 0 <= k < |WinningConditions| && LineComplete(board[..], k) ==>
          LineOwner(board[..], k) == currentPlayer)
    }

    /** The script's initial state: an empty board, X to move, in play, easy level. */
    constructor ()
      ensures Valid() && fresh(board)
      ensures board[..] == EmptyBoard() && currentPlayer == X && gameActive && difficulty == Easy
    {
      board := new Cell[9](i => Empty);
      currentPlayer := X;
      gameActive := true;
      difficulty := Easy;
      new;
      assert board[..] == EmptyBoard();
      EmptyBoardInPlay();
    }

    /** initializeGame: a new empty board, X to move, in play; the level is kept. */
    method InitializeGame()
      modifies this
      ensures Valid() && fresh(board)
      ensures board[..] == EmptyBoard() && currentPlayer == X && gameActive
      ensures difficulty == old(difficulty)
    {
      board := new Cell[9](i => Empty);
      currentPlayer := X;
      gameActive := true;
      assert board[..] == EmptyBoard();
      EmptyBoardInPlay();
    }

    /** selectDifficulty: set the level, then start a new game. */
    method SelectDifficulty(d: Difficulty)
      modifies this
      ensures Valid() && fresh(board)
      ensures board[..] == EmptyBoard() && currentPlayer == X && gameActive
      ensures difficulty == d
    {
      difficulty := d;
      InitializeGame();
    }

    /** updateBoard: the current player's mark on cell index. */
    method UpdateBoard(index: Index)
      requires board.Length == 9
      modifies board
      ensures board[..] == old(board[..])[index := Mark(currentPlayer)]
    {
      board[index] := Mark(currentPlayer);
    }

    /** changePlayer: the turn passes to the other player. */
    method ChangePlayer()
      modifies this
      ensures currentPlayer == Other(old(currentPlayer))
      ensures board == old(board) && gameActive == old(gameActive) && difficulty == old(difficulty)
    {
      currentPlayer := if currentPlayer == X then O else X;
    }

    /**
     * endGame: play stops. isDraw only chooses between the draw message
     * and the message naming currentPlayer as the winner.
     */
    method EndGame(isDraw: bool)
      modifies this
      ensures !gameActive
      ensures board == old(board) && currentPlayer == old(currentPlayer) && difficulty == old(difficulty)
    {
      gameActive := false;
    }

    /**
     * After the mover's mark on a board that was in play: end the game on a
     * line or a full board, otherwise pass the turn. The invariant holds
     * again.
     */
    method Conclude(ghost before: seq<Cell>, ghost index: Index)
      requires board.Length == 9 && gameActive
      requires |before| == 9 && before[index] == Empty && CheckResult(before, None) == False
      requires board[..] == before[index := Mark(currentPlayer)]
      requires Count(before, X) == Count(before, O) + (if currentPlayer == X then 0 else 1)
      modifies this
      ensures Valid()
      ensures board == old(board) && difficulty == old(difficulty)
      ensures CheckResult(board[..], None) != False ==> !gameActive && currentPlayer == old(currentPlayer)
      ensures CheckResult(board[..], None) == False ==> gameActive && currentPlayer == Other(old(currentPlayer))
    {
      CountAfterMark(before, index, currentPlayer);
      NewLinesAreMovers(before, index, currentPlayer, board[..]);
      var gameResult := CheckResult(board[..], None);
      if gameResult.Truthy() {
        EndGame(gameResult == Draw);
        return;
      }
      ChangePlayer();
    }

    /**
     * handleCellClick on cell index: ignored unless the cell exists and is
     * empty, the game is in play and it is X's turn; otherwise X's mark goes
     * on the cell and the game ends or passes to O.
     */
    method HandleCellClick(index: int)
      requires Valid()
      modifies this, board
      ensures Valid()
      ensures board == old(board) && difficulty == old(difficulty)
      ensures !old(0 <= index < 9 && board[index] == Empty && gameActive && currentPlayer == X) ==>
                board[..] == old(board[..]) && currentPlayer == old(currentPlayer) &&
                gameActive == old(gameActive)
      ensures old(0 <= index < 9 && board[index] == Empty && gameActive && currentPlayer == X) ==>
                board[..] == old(board[..])[index := Mark(X)] &&
                (if CheckResult(board[..], None) == False then gameActive && currentPlayer == O
                 else !gameActive && currentPlayer == X)
    {
      if !(0 <= index < 9) || board[index] != Empty || !gameActive || currentPlayer != X {
        return;
      }
      ghost var before := board[..];
      UpdateBoard(index);
      Conclude(before, index);
    }

    /**
     * computerMove: ignored unless the game is in play and it is O's turn;
     * otherwise O's mark goes on the empty cell the level picks, and the game
     * ends or passes to X. `pick` stands for the random draw of the easy and
     * normal levels.
     */
    method ComputerMove(pick: nat)
      requires Valid()
      requires gameActive && currentPlayer == O ==> pick < |EmptyCells(board[..])|
      modifies this, board
      ensures Valid()
      ensures board == old(board) && difficulty == old(difficulty)
      ensures !old(gameActive && currentPlayer == O) ==>
                board[..] == old(board[..]) && currentPlayer == old(currentPlayer) &&
                gameActive == old(gameActive)
      ensures old(gameActive && currentPlayer == O) ==>
                exists m: Index ::
                  old(board[m]) == Empty && board[..] == old(board[..])[m := Mark(O)] &&
                  (difficulty == Easy ==> m == EasyMove(old(board[..]), pick)) &&
                  (difficulty == Normal ==> m == NormalMove(old(board[..]), pick)) &&
                  (difficulty == Hard ==> IsBestMove(old(board[..]), m))
      ensures old(gameActive && currentPlayer == O) ==>
                if CheckResult(board[..], None) == False then gameActive && currentPlayer == X
                else !gameActive && currentPlayer == O
    {
      if !gameActive || currentPlayer != O {
        return;
      }
      ghost var before := board[..];
      InPlayHasEmptyCell(before);
      var move: Index;
      match difficulty {
        case Easy => move := EasyMove(board[..], pick);
        case Normal => move := NormalMove(board[..], pick);
        case Hard => move := HardMove(board);
      }
      UpdateBoard(move);
      Conclude(before, move);
    }
  }
}
