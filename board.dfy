/** The 3x3 board, its table of winning lines and the outcome check. */
module Board {

  datatype Option<T> = None | Some(value: T)

  /** The two marks: X is the human, O the computer. */
  datatype Player = X | O

  /** A cell holds the empty string or a player's mark. */
  datatype Cell = Empty | Mark(player: Player)

  /** A cell index, row-major on the 3x3 grid. */
  type Index = i: nat | i < 9

  /** What the outcome check returns: JavaScript `false`, `true` or the string 'draw'. */
  datatype Verdict = False | True | Draw {
    /** JavaScript truthiness: only `false` is falsy, so 'draw' counts as true. */
    predicate Truthy() { this != False }
  }

  function Other(p: Player): Player { if p == X then O else X }

  /** The three rows, the three columns and the two diagonals, in scan order. */
  const WinningConditions: seq<(Index, Index, Index)> := [
    (0, 1, 2), (3, 4, 5), (6, 7, 8),
    (0, 3, 6), (1, 4, 7), (2, 5, 8),
    (0, 4, 8), (2, 4, 6)
  ]

  /** Line k of the table holds three equal non-empty cells. */
  predicate LineComplete(b: seq<Cell>, k: nat)
    requires |b| == 9 && k < |WinningConditions|
  {
    var (x, y, z) := WinningConditions[k];
    b[x] != Empty && b[x] == b[y] && b[x] == b[z]
  }

  /** The mark that fills a complete line. */
  function LineOwner(b: seq<Cell>, k: nat): Player
    requires |b| == 9 && k < |WinningConditions| && LineComplete(b, k)
  {
    b[WinningConditions[k].0].player
  }

  ghost predicate HasLine(b: seq<Cell>)
    requires |b| == 9
  {
    exists k :: 0 <= k < |WinningConditions| && LineComplete(b, k)
  }

  /** Line k is complete and no line before it in the table is. */
  ghost predicate FirstLine(b: seq<Cell>, k: nat)
    requires |b| == 9
  {
    k < |WinningConditions| && LineComplete(b, k) &&
    forall j :: 0 <= j < k ==> !LineComplete(b, j)
  }

  ghost predicate Full(b: seq<Cell>)
  {
    forall i :: 0 <= i < |b| ==> b[i] != Empty
  }

  /** The scan of checkResult from line k of the table on. */
  function CheckFrom(b: seq<Cell>, player: Option<Player>, k: nat): Verdict
    requires |b| == 9 && k <= |WinningConditions|
    decreases |WinningConditions| - k
  {
    if k == |WinningConditions| then
      if Empty !in b then Draw else False
    else if LineComplete(b, k) then
      if player.Some? then (if b[WinningConditions[k].0] == Mark(player.value) then True else False)
      else True
    else
      CheckFrom(b, player, k + 1)
  }

  /**
   * The scan from line k decides on the first complete line it meets:
   * without a player that is `true`; with one, `true` exactly when the line
   * is that player's. When no line from k on is complete, a board without
   * an empty cell is 'draw' and any other board is `false`.
   */
  lemma {:induction false} CheckFromSpec(b: seq<Cell>, player: Option<Player>, k: nat)
    requires |b| == 9 && k <= |WinningConditions|
    ensures (forall j :: k <= j < |WinningConditions| ==> !LineComplete(b, j)) ==>
              CheckFrom(b, player, k) == if Full(b) then Draw else False
    ensures forall m :: k <= m < |WinningConditions| && LineComplete(b, m) &&
                        (forall j :: k <= j < m ==> !LineComplete(b, j)) ==>
              CheckFrom(b, player, k) ==
                if player.None? || LineOwner(b, m) == player.value then True else False
    decreases |WinningConditions| - k
  {
    if k < |WinningConditions| && !LineComplete(b, k) {
      CheckFromSpec(b, player, k + 1);
    }
  }

  /** checkResult(board, player): the scan from the first line of the table. */
  function CheckResult(b: seq<Cell>, player: Option<Player>): Verdict
    requires |b| == 9
  {
    CheckFrom(b, player, 0)
  }

  /**
   * Without a player, checkResult is `true` exactly when some line is
   * complete; otherwise 'draw' exactly when the board is full, and `false`
   * on any other board. With a player, only the first complete line in table
   * order counts. A complete line always beats the draw check.
   */
  lemma CheckResultSpec(b: seq<Cell>, player: Option<Player>)
    requires |b| == 9
    ensures player.None? ==> (CheckResult(b, player) == True <==> HasLine(b))
    ensures !HasLine(b) ==> CheckResult(b, player) == if Full(b) then Draw else False
    ensures HasLine(b) ==> CheckResult(b, player) != Draw
    ensures forall m :: FirstLine(b, m) ==>
              CheckResult(b, player) ==
                if player.None? || LineOwner(b, m) == player.value then True else False
  {
    FirstLineExists(b);
    CheckFromSpec(b, player, 0);
  }

  /** Every board with a complete line has a first one in table order. */
  lemma {:induction false} FirstLineExists(b: seq<Cell>)
    requires |b| == 9
    ensures HasLine(b) ==> exists m :: FirstLine(b, m)
  {
    if !HasLine(b) {
      return;
    }
    var k := 0;
    while !LineComplete(b, k)
      invariant 0 <= k < |WinningConditions|
      invariant forall j :: 0 <= j < k ==> !LineComplete(b, j)
      invariant exists m :: k <= m < |WinningConditions| && LineComplete(b, m)
      decreases |WinningConditions| - k
    {
      k := k + 1;
    }
    assert FirstLine(b, k);
  }

  /** The scan of emptyCells from index start: the indices of the empty cells. */
  function EmptyFrom(b: seq<Cell>, start: nat): (r: seq<Index>)
    requires |b| == 9 && start <= 9
    ensures forall k :: 0 <= k < |r| ==> start <= r[k] && b[r[k]] == Empty
    decreases 9 - start
  {
    if start == 9 then []
    else if b[start] == Empty then [start] + EmptyFrom(b, start + 1)
    else EmptyFrom(b, start + 1)
  }

  /** The scan from start lists exactly the empty cells from start on, in ascending order. */
  lemma {:induction false} EmptyFromSpec(b: seq<Cell>, start: nat)
    requires |b| == 9 && start <= 9
    ensures forall i {:trigger i in EmptyFrom(b, start)} :: i in EmptyFrom(b, start) <==> start <= i < 9 && b[i] == Empty
    ensures forall j, k :: 0 <= j < k < |EmptyFrom(b, start)| ==> EmptyFrom(b, start)[j] < EmptyFrom(b, start)[k]
    decreases 9 - start
  {
    if start < 9 {
      EmptyFromSpec(b, start + 1);
    }
  }

  /** emptyCells: the indices of the empty cells. */
  function EmptyCells(b: seq<Cell>): (r: seq<Index>)
    requires |b| == 9
    ensures forall k :: 0 <= k < |r| ==> b[r[k]] == Empty
  {
    EmptyFrom(b, 0)
  }

  /**
   * emptyCells lists every empty cell and nothing else, in ascending order;
   * it is empty exactly when the board is full.
   */
  lemma EmptyCellsSpec(b: seq<Cell>)
    requires |b| == 9
    ensures forall i {:trigger i in EmptyCells(b)} :: i in EmptyCells(b) <==> 0 <= i < 9 && b[i] == Empty
    ensures forall j, k :: 0 <= j < k < |EmptyCells(b)| ==> EmptyCells(b)[j] < EmptyCells(b)[k]
    ensures |EmptyCells(b)| == 0 <==> Full(b)
  {
    EmptyFromSpec(b, 0);
    if !Full(b) {
      var i :| 0 <= i < 9 && b[i] == Empty;
      assert i in EmptyCells(b);
    }
  }

  /** The player mode reads only the first complete line: O's row below it is ignored. */
  lemma LaterLineIgnored()
    ensures var b := [Mark(X), Mark(X), Mark(X), Mark(O), Mark(O), Mark(O), Empty, Empty, Empty];
            HasLine(b) && CheckResult(b, Some(O)) == False && CheckResult(b, None) == True
  {
    var b := [Mark(X), Mark(X), Mark(X), Mark(O), Mark(O), Mark(O), Empty, Empty, Empty];
    assert FirstLine(b, 0);
    CheckResultSpec(b, Some(O));
    CheckResultSpec(b, None);
  }
}
