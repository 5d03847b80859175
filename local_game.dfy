/**
 * The local two-player game of ticTacToeHome.tsx: three pieces of state
 * (`board`, `isXNext`, `winner`) driven by `handleClick` and `handleReset`,
 * with its own `calculateWinner` that reports a symbol or nothing, never a draw.
 */
module LocalGame {

  import opened Wrappers
  import opened Rules

  /** `calculateWinner`: the symbol of the first complete triple in list order, or null. */
  function CalculateWinner(b: Board): (r: Option<Mark>)
    ensures r.Some? <==> AnyComplete(b)
    ensures r.Some? ==>
      exists k :: 0 <= k < LineCount && Complete(b, k) &&
        (forall j :: 0 <= j < k ==> !Complete(b, j)) && b[Lines[k].0] == Taken(r.value)
  {
    match FirstComplete(b, 0)
    case Some(k) => Some(b[Lines[k].0].mark)
    case None => None
  }

  /** The local evaluator agrees with the shared one, except that it has no draw. */
  lemma CalculateWinnerAgrees(b: Board)
    ensures forall m :: CalculateWinner(b) == Some(m) <==> CheckWinner(b).winner == Won(m)
    ensures CalculateWinner(b) == None <==> CheckWinner(b).winner in {NoWinner, Draw}
  {
  }

  /** The line under the board: a winner, a draw, or whose turn it is. */
  datatype Status = ShowWinner(winner: Mark) | ShowDraw | ShowNext(next: Mark)

  /** `winner ? ... : board.every(Boolean) ? ... : ...` */
  function StatusOf(board: Board, isXNext: bool, winner: Option<Mark>): (s: Status)
    ensures s.ShowWinner? <==> winner.Some?
    ensures s.ShowWinner? ==> s.winner == winner.value
    ensures s == ShowDraw <==> winner.None? && IsFull(board)
    ensures s.ShowNext? ==> s.next == (if isXNext then X else O) && !IsFull(board)
  {
    if winner.Some? then ShowWinner(winner.value)
    else if IsFull(board) then ShowDraw
    else ShowNext(if isXNext then X else O)
  }

  /**
   * With the recorded winner up to date, the status line says what the shared
   * evaluator says: the same winner, a draw exactly when it reports one.
   */
  lemma StatusAgreesWithCheckWinner(board: Board, isXNext: bool)
    ensures forall m :: StatusOf(board, isXNext, CalculateWinner(board)) == ShowWinner(m) <==>
      CheckWinner(board).winner == Won(m)
    ensures StatusOf(board, isXNext, CalculateWinner(board)) == ShowDraw <==> CheckWinner(board).winner == Draw
    ensures StatusOf(board, isXNext, CalculateWinner(board)).ShowNext? <==> CheckWinner(board).winner == NoWinner
  {
    CalculateWinnerAgrees(board);
  }

  /** Once the draw is shown, no cell is free, so every click is ignored. */
  lemma DrawIsFinal(board: Board, isXNext: bool, winner: Option<Mark>, index: nat)
    requires index < 9
    requires StatusOf(board, isXNext, winner) == ShowDraw
    ensures !ClickAccepted(board, winner, index)
  {
  }

  /** `if (board[index] || winner) return;` fails to return. */
  predicate ClickAccepted(board: Board, winner: Option<Mark>, index: nat)
    requires index < 9
  {
    board[index] == Empty && winner.None?
  }

  /** Turn parity: X is next exactly when both have played equally often, O when X is one ahead. */
  predicate Parity(board: Board, isXNext: bool) {
    if isXNext then Count(board, X) == Count(board, O) else Count(board, X) == Count(board, O) + 1
  }

  class Game {
    var board: Board
    var isXNext: bool
    var winner: Option<Mark>

    /** The recorded winner is the evaluator's verdict on the board, and the turn follows parity. */
    ghost predicate Valid()
      reads this
    {
      winner == CalculateWinner(board) && Parity(board, isXNext)
    }

    /** `useState(Array(9).fill(null))`, `useState(true)`, `useState(null)` */
    constructor ()
      ensures board == EmptyBoard && isXNext && winner == None
      ensures Valid()
    {
      board := EmptyBoard;
      isXNext := true;
      winner := None;
      CountEmpty(X);
      CountEmpty(O);
      EmptyBoardUndecided();
      CalculateWinnerAgrees(EmptyBoard);
    }

    /**
     * `handleClick`: ignored on an occupied cell or once there is a winner;
     * otherwise writes the symbol whose turn it is, passes the turn and
     * re-evaluates the winner, who can only be the player who just moved.
     */
    method HandleClick(index: nat)
      requires index < 9
      requires Valid()
      modifies this
      ensures Valid()
      ensures !ClickAccepted(old(board), old(winner), index) ==>
        board == old(board) && isXNext == old(isXNext) && winner == old(winner)
      ensures ClickAccepted(old(board), old(winner), index) ==>
        board == old(board)[index := Taken(if old(isXNext) then X else O)] &&
        isXNext == !old(isXNext) &&
        winner == CalculateWinner(board) &&
        winner in {None, Some(if old(isXNext) then X else O)}
    {
      if board[index] != Empty || winner.Some? {
        return;
      }
      var m := if isXNext then X else O;
      CountPlace(board, index, m);
      OnlyMoverCanWin(board, index, m);
      CalculateWinnerAgrees(board[index := Taken(m)]);
      board := board[index := Taken(m)];
      isXNext := !isXNext;
      winner := CalculateWinner(board);
    }

    /** `handleReset`: nine empty cells, X to move, no winner. */
    method HandleReset()
      modifies this
      ensures board == EmptyBoard && isXNext && winner == None
      ensures Valid()
    {
      board := EmptyBoard;
      winner := None;
      isXNext := true;
      CountEmpty(X);
      CountEmpty(O);
      EmptyBoardUndecided();
      CalculateWinnerAgrees(EmptyBoard);
    }
  }
}
