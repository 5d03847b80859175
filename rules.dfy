/**
 * The tic-tac-toe rules shared by the client (gameLogic.ts) and the server
 * (server.js): the board, the eight winning triples and the win/draw
 * evaluator `checkWinner`.
 */
module Rules {

  import opened Wrappers

  /** A player's symbol, "X" or "O". */
  datatype Mark = X | O

  /** One board cell: null, or a symbol. */
  datatype Cell = Empty | Taken(mark: Mark)

  /** The outcome the evaluator reports: null, a symbol, or "Draw". */
  datatype Winner = NoWinner | Won(mark: Mark) | Draw

  /** `{ winner, line }`: the line holds the three winning indices or is empty. */
  datatype WinnerResult = WinnerResult(winner: Winner, line: seq<nat>)

  /** The board is always an array of nine cells. */
  type Board = b: seq<Cell> | |b| == 9 witness EmptyBoard

  /** `Array(9).fill(null)` */
  const EmptyBoard: seq<Cell> := [Empty, Empty, Empty, Empty, Empty, Empty, Empty, Empty, Empty]

  function Other(m: Mark): Mark {
    if m == X then O else X
  }

  /** `WINNING_COMBINATIONS`: three rows, three columns, two diagonals, in this order. */
  const Lines: seq<(nat, nat, nat)> := [
    (0, 1, 2), (3, 4, 5), (6, 7, 8),
    (0, 3, 6), (1, 4, 7), (2, 5, 8),
    (0, 4, 8), (2, 4, 6)
  ]

  const LineCount: nat := 8

  /** The triple `k` as the array `[a, b, c]` the evaluator reports. */
  function LineCells(k: nat): (r: seq<nat>)
    requires k < LineCount
    ensures |r| == 3 && forall j :: 0 <= j < 3 ==> r[j] < 9
  {
    [Lines[k].0, Lines[k].1, Lines[k].2]
  }

  /** Cell `i` is one of the three cells of triple `k`. */
  predicate OnLine(k: nat, i: nat)
    requires k < LineCount
  {
    i == Lines[k].0 || i == Lines[k].1 || i == Lines[k].2
  }

  /** `board[a] && board[a] === board[b] && board[a] === board[c]` for triple `k`. */
  predicate Complete(b: Board, k: nat)
    requires k < LineCount
  {
    b[Lines[k].0] != Empty && b[Lines[k].0] == b[Lines[k].1] && b[Lines[k].0] == b[Lines[k].2]
  }

  /** Some triple is complete. */
  predicate AnyComplete(b: Board) {
    exists k :: 0 <= k < LineCount && Complete(b, k)
  }

  /** `board.every((cell) => cell !== null)` */
  predicate IsFull(b: Board) {
    forall i :: 0 <= i < 9 ==> b[i] != Empty
  }

  /** The scan of the triples from position `k` on, stopping at the first complete one. */
  function FirstComplete(b: Board, k: nat): (r: Option<nat>)
    requires k <= LineCount
    ensures r.Some? ==> k <= r.value < LineCount && Complete(b, r.value)
    ensures r.Some? ==> forall j :: k <= j < r.value ==> !Complete(b, j)
    ensures r.None? ==> forall j :: k <= j < LineCount ==> !Complete(b, j)
    decreases LineCount - k
  {
    if k == LineCount then None
    else if Complete(b, k) then Some(k)
    else FirstComplete(b, k + 1)
  }

  /**
   * `checkWinner`: the symbol and cells of the first complete triple in list
   * order; otherwise "Draw" when every cell is filled; otherwise no winner.
   */
  function CheckWinner(b: Board): (r: WinnerResult)
    ensures r.winner.Won? <==> AnyComplete(b)
    ensures r.winner.Won? ==>
      exists k :: 0 <= k < LineCount && Complete(b, k) &&
        (forall j :: 0 <= j < k ==> !Complete(b, j)) &&
        r.line == LineCells(k) && b[Lines[k].0] == Taken(r.winner.mark)
    ensures r.winner == Draw <==> !AnyComplete(b) && IsFull(b)
    ensures r.winner == NoWinner <==> !AnyComplete(b) && !IsFull(b)
    ensures !r.winner.Won? ==> r.line == []
  {
    match FirstComplete(b, 0)
    case Some(k) => WinnerResult(Won(b[Lines[k].0].mark), LineCells(k))
    case None => if IsFull(b) then WinnerResult(Draw, []) else WinnerResult(NoWinner, [])
  }

  /** A reported winner's three cells all hold the winner's symbol. */
  lemma WinnerOwnsLine(b: Board)
    requires CheckWinner(b).winner.Won?
    ensures var r := CheckWinner(b);
      |r.line| == 3 && forall j :: 0 <= j < 3 ==> r.line[j] < 9 && b[r.line[j]] == Taken(r.winner.mark)
  {
    var k :| 0 <= k < LineCount && Complete(b, k) && CheckWinner(b).line == LineCells(k) &&
      b[Lines[k].0] == Taken(CheckWinner(b).winner.mark);
  }

  /** The empty board has neither a winner nor a draw. */
  lemma EmptyBoardUndecided()
    ensures CheckWinner(EmptyBoard) == WinnerResult(NoWinner, [])
  {
    assert EmptyBoard[0] == Empty;
    assert !IsFull(EmptyBoard);
    forall k | 0 <= k < LineCount ensures !Complete(EmptyBoard, k) {
      assert EmptyBoard[Lines[k].0] == Empty;
    }
  }

  /**
   * A triple that becomes complete when one cell is written was not complete
   * before only if it passes through that cell.
   */
  lemma NewLineThroughCell(b: Board, i: nat, v: Cell, k: nat)
    requires i < 9 && k < LineCount
    requires Complete(b[i := v], k) && !Complete(b, k)
    ensures OnLine(k, i)
  {
  }

  /**
   * On a board without a complete triple, a move can only make the mover the
   * winner: the first triple it completes passes through the cell written.
   */
  lemma OnlyMoverCanWin(b: Board, i: nat, m: Mark)
    requires i < 9 && b[i] == Empty && !AnyComplete(b)
    ensures CheckWinner(b[i := Taken(m)]).winner.Won? ==> CheckWinner(b[i := Taken(m)]).winner == Won(m)
  {
    var b': Board := b[i := Taken(m)];
    var w := CheckWinner(b').winner;
    if w.Won? {
      var k :| 0 <= k < LineCount && Complete(b', k) && b'[Lines[k].0] == Taken(w.mark);
      NewLineThroughCell(b, i, Taken(m), k);
    }
  }

  /** The number of cells holding `m`. */
  function Count(s: seq<Cell>, m: Mark): (n: nat)
    ensures n <= |s|
  {
    if s == [] then 0 else (if s[0] == Taken(m) then 1 else 0) + Count(s[1..], m)
  }

  /** Writing `m` into an empty cell adds one `m` and leaves the other symbol's count alone. */
  lemma {:induction false} CountPlace(s: seq<Cell>, i: nat, m: Mark)
    requires i < |s| && s[i] == Empty
    ensures Count(s[i := Taken(m)], m) == Count(s, m) + 1
    ensures Count(s[i := Taken(m)], Other(m)) == Count(s, Other(m))
  {
    if i == 0 {
      assert s[i := Taken(m)][1..] == s[1..];
    } else {
      assert s[i := Taken(m)][1..] == s[1..][i - 1 := Taken(m)];
      CountPlace(s[1..], i - 1, m);
    }
  }

  /** The empty board holds no symbol. */
  lemma CountEmpty(m: Mark)
    ensures Count(EmptyBoard, m) == 0
  {
    assert EmptyBoard[1..][1..][1..][1..][1..][1..][1..][1..][1..] == [];
  }
}
