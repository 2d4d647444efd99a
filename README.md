# Tic-tac-toe against the computer: a Dafny model of `script.js`

`script.js` runs a browser tic-tac-toe game. The human plays X and moves
first. The computer plays O at one of three levels:

- easy: a random empty cell;
- normal: take a win, else block X's win, else a random cell;
- hard: full-depth minimax.

This project models the game logic without the page, in three modules:

- `Board` (`board.dfy`) holds the cells and the table of eight winning lines.
  It also holds `checkResult` with its two query modes and the list of empty
  cells.
- `Moves` (`moves.dfy`) holds the three move pickers.
  - `easyMove` and `normalMove` are pure functions.
  - `minimax` is a method that marks cells of an array in place and clears
    them again. It is proved against the recursive specification function
    `Score`.
  - `hardMove` is a method. It scores each empty cell on a fresh copy of the
    board and keeps the first cell with the highest score.
- `Game` (`game.dfy`) holds the class `Session`. Its fields are the script's
  global variables `board`, `currentPlayer`, `gameActive` and `difficulty`.
  Its methods are the event handlers and their helpers. Every handler keeps
  the invariant `Valid()`:
  - the game is active exactly while `checkResult` is `false`;
  - the X and O counts alternate, X first;
  - once the game is over, every complete line belongs to `currentPlayer`,
    the player the end message names as the winner.

`checkResult` returns `false`, `true` or the string `'draw'`. This is the
datatype `Verdict`, and its `Truthy()` is JavaScript truthiness.

The code differs from a plain reading of the game's rules in two places. The
model follows the code in both:

- **Player mode of `checkResult`.** With a player argument, the result is not
  "some line belongs to that player". The first complete line in table order
  decides it. A full board with no line still returns `'draw'`, which is
  truthy (`Board.CheckResultSpec`, `Board.LaterLineIgnored`).
- **Terminal scores of `minimax`.** A terminal board is scored by whose turn
  it is, not by who owns the line (`Moves.TerminalScores`).

## Model

| member | source | states |
|---|---|---|
| Board.CheckFromSpec | script.js:42-54 | from line k on, the scan returns on the first complete line: `true` without a player, otherwise `true` exactly when that line is the player's; with no complete line left it returns 'draw' on a full board and `false` otherwise |
| Board.CheckResultSpec | script.js:41-55 | without a player: `true` exactly when some line is complete. With no line: 'draw' exactly on a full board, `false` otherwise. A line always beats the draw check. With a player, only the first complete line in table order counts |
| Board.FirstLineExists | script.js:42-50 | a board with a complete line has a first one in table order, where the scan stops |
| Board.LaterLineIgnored | script.js:44-47 | with X's top row and O's middle row, the check for O is `false` and the check without a player is `true` |
| Board.EmptyFrom | script.js:134 | every index listed from start on is at least start and names an empty cell |
| Board.EmptyFromSpec | script.js:134 | the list from start holds exactly the empty cells at or above start, in ascending order |
| Board.EmptyCells | script.js:134 | every listed index names an empty cell |
| Board.EmptyCellsSpec | script.js:134 | emptyCells holds exactly the empty cells, in ascending order, and is empty exactly when the board is full |
| Moves.EasyMove | script.js:133-136 | the random pick is an empty cell |
| Moves.EasyMoveCoversEmptyCells | script.js:134-135 | every empty cell is the easy move for some value of the random draw |
| Moves.FirstWhere | script.js:143-149 | the loop returns a cell that passes the test, and every cell before it fails; it returns nothing only when no cell passes |
| Moves.FirstWhereNone | script.js:143-149 | the loop falls through exactly when no cell passes the test |
| Moves.FirstWhereIsLowest | script.js:143-149 | over ascending cells, the cell found is the lowest one that passes |
| Moves.FirstWinIsLowest | script.js:143-158 | over emptyCells, the loop finds the lowest empty index where the player's mark tests truthy for that player, and finds nothing exactly when there is none |
| Moves.NormalMove | script.js:139-162 | returns an empty cell: the lowest winning cell for O if any; else the lowest winning cell for X (the block); else the random cell numbered pick |
| Moves.NormalTakesWin | script.js:142-149 | with O on cells 0 and 1, normal plays 2 whatever the random draw |
| Moves.NormalBlocks | script.js:151-158 | with X on cells 0 and 1 and no O win, normal blocks at 2 whatever the random draw |
| Moves.NoLineAfterOneO | script.js:145-146 | against X on 0 and 1, one O on any empty cell does not make the check for O truthy |
| Moves.EmptyCountDrops | script.js:198-199 | a mark on an empty cell leaves one empty cell fewer, the measure on which minimax's recursion ends |
| Moves.TerminalScores | script.js:189-192 | a board with a complete line scores -10 with O to move and 10 with X to move, whoever owns the line; a full board with no line scores 0 |
| Moves.ScoreRange | script.js:182-217 | every minimax score is -10, 0 or 10; the infinite starting values never escape |
| Moves.BestFromRange | script.js:194-215 | the loop over the cells ends on -10, 0 or 10 when it starts from one of them, or from the sentinel with an empty cell still ahead |
| Moves.BestFromBounds | script.js:194-215 | the loop's result is at least (maximizing) or at most (minimizing) every child score it visits and its start value, and it is the start value or one of those child scores |
| Moves.ScoreIsBestChild | script.js:194-216 | on a board in play the score is the largest child score with O to move and the smallest with X to move, and some empty cell attains it |
| Moves.Minimax | script.js:188-217 | the array board is exactly as before on return, and the result is the minimax score of that board; depth plays no part |
| Moves.MoveScoresAboveSentinel | script.js:166-174 | every empty cell's score lies above the -Infinity that hardMove starts from |
| Moves.Copy | script.js:171 | the spread copy is a new array with the same cells |
| Moves.ScoreMove | script.js:171-173 | O's mark on a copy, scored by minimax with X to move; the real board is untouched and the score is -10, 0 or 10 |
| Moves.ScanStep | script.js:174-177 | one comparison step of hardMove's loop keeps the best-so-far state: the strict `>` keeps the earlier cell on a tie |
| Moves.ScanDone | script.js:179 | after all cells, on a board with an empty cell, the kept cell is the lowest empty cell of highest score |
| Moves.ScanEmptyFromIsFirstBest | script.js:166-179 | the loop over the empty cells from any index on, out of a best-so-far state, ends on the lowest empty cell of highest score |
| Moves.HardMove | script.js:165-180 | returns an empty cell whose minimax score is the highest of all empty cells, and no lower empty cell reaches that score |
| Game.EmptyBoard | script.js:12 | nine empty cells |
| Game.EmptyBoardInPlay | script.js:12-14 | the starting board is undecided and holds no mark, so `gameActive = true` agrees with it |
| Game.InPlayHasEmptyCell | script.js:104-118 | a board still in play has an empty cell, so each move picker has a cell to return |
| Game.NewLinesAreMovers | script.js:79-84 | a mark on an empty cell of an undecided board completes only lines of the mover |
| Game.CountAfterMark | script.js:90-91 | a mark adds one to its owner's count and leaves the other's alone |
| Game.Session.constructor | script.js:12-15 | empty board, X to move, in play, easy level; the invariant holds |
| Game.Session.InitializeGame | script.js:24-27 | fresh empty board, X to move, in play; the level is kept; the invariant holds |
| Game.Session.SelectDifficulty | script.js:226-228 | the level is set and a new game starts |
| Game.Session.UpdateBoard | script.js:90-91 | the current player's mark on the cell and nothing else changes |
| Game.Session.ChangePlayer | script.js:96-97 | the turn passes to the other player; nothing else changes |
| Game.Session.EndGame | script.js:59-60 | play stops; board, player and level unchanged |
| Game.Session.Conclude | script.js:80-86 | after the mover's mark: on a line or a full board the game ends with the mover still current, otherwise the turn passes; the invariant holds again |
| Game.Session.HandleCellClick | script.js:71-88 | a click off the board, on a used cell, after the end or on O's turn changes nothing; otherwise X's mark goes on the cell and the game ends with X current or passes to O; the invariant is kept |
| Game.Session.ComputerMove | script.js:104-130 | off O's turn or after the end nothing changes; otherwise O's mark goes on the empty cell the level picks (the easy pick, the normal pick, or a best minimax cell) and the game ends with O current or passes to X; the invariant is kept |

## Left out

- The page is not modelled. That covers cell text and CSS classes, the status line, the game-over message, hiding and showing containers, and `resetGame`, which only swaps visible panels.
- The event listeners are not modelled. The clicked cell's `data-index` attribute becomes the `index` argument, and the button's `data-difficulty` attribute becomes a `Difficulty` value.
- A `data-difficulty` string other than easy, normal or hard is not modelled. With such a string, `computerMove` would mark `board[undefined]`.
- The `setTimeout` delay is not modelled. `ComputerMove` is a separate step that the caller takes after `HandleCellClick`, and nothing stops other events from arriving in between.
- `Math.random` is not modelled. The caller supplies its effect as `pick`, an index below the number of empty cells.
- Game.Session.EndGame: the message text is not modelled. `isDraw` only chooses the text, so it has no effect on the model's state.
- Moves.Minimax: the `Infinity` starting values are replaced by -11 and 11. Every child score is -10, 0 or 10, so a board in play never returns a starting value.
- Moves.HardMove: requires an empty cell, which every in-play board has. On a full board the script would return `undefined`; the session never calls it there.
- Moves.HardMove: the contract does not state that O never loses. It states only that the move is the first highest-scoring cell under the minimax definition above.
- Moves.MoveScores: gives an occupied cell the -11 starting value as its score. The loop never looks at that cell.
