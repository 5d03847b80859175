/**
 * The single-player opponent of gameLogic.ts, `makeComputerMove`: a greedy
 * priority heuristic playing "O". The two `Math.random()` draws are the
 * parameters `cornerDraw` and `cellDraw`; the pick is the draw modulo the
 * number of candidates, so every candidate can be chosen and nothing else can.
 */
module Computer {

  import opened Wrappers
  import opened Rules

  /** The indices of the cells strictly increase. */
  predicate Increasing(s: seq<nat>) {
    forall p, q :: 0 <= p < q < |s| ==> s[p] < s[q]
  }

  /** The empty cells with index `k` or more, in ascending order. */
  function EmptyFrom(b: Board, k: nat): (r: seq<nat>)
    requires k <= 9
    ensures forall i: nat :: i in r <==> k <= i < 9 && b[i] == Empty
    ensures Increasing(r)
    ensures forall p :: 0 <= p < |r| ==> r[p] < 9 && b[r[p]] == Empty
    ensures forall p :: 0 <= p < |r| ==> k <= r[p]
    decreases 9 - k
  {
    if k == 9 then []
    else
      var rest := EmptyFrom(b, k + 1);
      if b[k] == Empty then
        assert forall p :: 0 < p <= |rest| ==> ([k] + rest)[p] == rest[p - 1];
        [k] + rest
      else rest
  }

  /** `emptyCells`: the indices of the null cells, in ascending order. */
  function EmptyCells(b: Board): (r: seq<nat>)
    ensures forall i: nat :: i in r <==> i < 9 && b[i] == Empty
    ensures Increasing(r)
    ensures forall p :: 0 <= p < |r| ==> r[p] < 9 && b[r[p]] == Empty
  {
    EmptyFrom(b, 0)
  }

  /** The probe of a copied board: `testBoard[idx] = m; checkWinner(testBoard).winner === m`. */
  predicate WinsWith(b: Board, i: nat, m: Mark)
    requires i < 9
  {
    CheckWinner(b[i := Taken(m)]).winner == Won(m)
  }

  /** The first cell of `cells` whose probe succeeds for `m`. */
  function FirstWinningCell(b: Board, cells: seq<nat>, m: Mark): (r: Option<nat>)
    requires forall p :: 0 <= p < |cells| ==> cells[p] < 9
    requires Increasing(cells)
    ensures r.Some? ==> r.value in cells && r.value < 9 && WinsWith(b, r.value, m)
    ensures r.Some? ==> forall j: nat {:trigger WinsWith(b, j, m)} :: j in cells && j < r.value ==> !WinsWith(b, j, m)
    ensures r.None? ==> forall j: nat {:trigger WinsWith(b, j, m)} :: j in cells ==> !WinsWith(b, j, m)
  {
    if cells == [] then None
    else if WinsWith(b, cells[0], m) then Some(cells[0])
    else FirstWinningCell(b, cells[1..], m)
  }

  /** One of the corners 0, 2, 6 and 8. */
  predicate IsCorner(i: nat) {
    i == 0 || i == 2 || i == 6 || i == 8
  }

  /** `[0, 2, 6, 8].filter((idx) => emptyCells.includes(idx))` */
  function EmptyCorners(b: Board): (r: seq<nat>)
    ensures forall i: nat :: i in r <==> IsCorner(i) && i < 9 && b[i] == Empty
    ensures forall p :: 0 <= p < |r| ==> IsCorner(r[p]) && r[p] < 9 && b[r[p]] == Empty
  {
    (if b[0] == Empty then [0] else []) + (if b[2] == Empty then [2] else []) +
    (if b[6] == Empty then [6] else []) + (if b[8] == Empty then [8] else [])
  }

  /** Some empty cell's probe succeeds for `m`. */
  predicate CanWin(b: Board, m: Mark) {
    exists i: nat {:trigger WinsWith(b, i, m)} :: i < 9 && b[i] == Empty && WinsWith(b, i, m)
  }

  /**
   * Strategies 3 to 5 of `makeComputerMove`: the centre if empty, else a drawn
   * empty corner, else a drawn empty cell; None when no cell is empty (where
   * the source returns `undefined`).
   */
  function FallbackMove(b: Board, cornerDraw: nat, cellDraw: nat): (r: Option<nat>)
    ensures r.None? <==> IsFull(b)
    ensures r.Some? ==> r.value < 9 && b[r.value] == Empty
    ensures b[4] == Empty ==> r == Some(4)
    ensures b[4] != Empty && |EmptyCorners(b)| > 0 ==> r.Some? && IsCorner(r.value)
  {
    var empty := EmptyCells(b);
    if 4 in empty then Some(4)
    else
      var corners := EmptyCorners(b);
      if |corners| > 0 then Some(corners[cornerDraw % |corners|])
      else if |empty| > 0 then Some(empty[cellDraw % |empty|])
      else None
  }

  /**
   * `makeComputerMove`: the lowest empty cell that wins for "O", else the
   * lowest that blocks a win of "X", else the fallback strategies.
   */
  function MakeComputerMove(b: Board, cornerDraw: nat, cellDraw: nat): (r: Option<nat>)
    ensures r.None? <==> IsFull(b)
    ensures r.Some? ==> r.value < 9 && b[r.value] == Empty
    ensures CanWin(b, O) ==>
      r.Some? && WinsWith(b, r.value, O) &&
      forall j: nat {:trigger WinsWith(b, j, O)} :: j < r.value && b[j] == Empty ==> !WinsWith(b, j, O)
    ensures !CanWin(b, O) && CanWin(b, X) ==>
      r.Some? && WinsWith(b, r.value, X) &&
      forall j: nat {:trigger WinsWith(b, j, X)} :: j < r.value && b[j] == Empty ==> !WinsWith(b, j, X)
    ensures !CanWin(b, O) && !CanWin(b, X) ==> r == FallbackMove(b, cornerDraw, cellDraw)
  {
    var empty := EmptyCells(b);
    var win := FirstWinningCell(b, empty, O);
    if win.Some? then win
    else
      var block := FirstWinningCell(b, empty, X);
      if block.Some? then block
      else FallbackMove(b, cornerDraw, cellDraw)
  }

  /** A draw below the number of candidates picks the candidate at that position. */
  lemma ModOfSmaller(p: nat, n: nat)
    requires p < n
    ensures p % n == p
  {
  }

  /**
   * The corner draw ranges over exactly the empty corners: once the centre is
   * taken, every empty corner is the fallback's answer for some draw.
   */
  lemma EveryEmptyCornerReachable(b: Board, c: nat, cellDraw: nat)
    requires b[4] != Empty && IsCorner(c) && c < 9 && b[c] == Empty
    ensures exists d: nat :: FallbackMove(b, d, cellDraw) == Some(c)
  {
    var corners := EmptyCorners(b);
    assert c in corners;
    var p :| 0 <= p < |corners| && corners[p] == c;
    ModOfSmaller(p, |corners|);
    assert 4 !in EmptyCells(b);
    assert FallbackMove(b, p, cellDraw) == Some(c);
  }

  /**
   * The cell draw ranges over exactly the empty cells: when neither the centre
   * nor a corner is free, every empty cell is the fallback's answer for some draw.
   */
  lemma EveryEmptyCellReachable(b: Board, i: nat, cornerDraw: nat)
    requires b[4] != Empty && |EmptyCorners(b)| == 0
    requires i < 9 && b[i] == Empty
    ensures exists d: nat :: FallbackMove(b, cornerDraw, d) == Some(i)
  {
    var empty := EmptyCells(b);
    assert i in empty;
    var p :| 0 <= p < |empty| && empty[p] == i;
    ModOfSmaller(p, |empty|);
    assert 4 !in empty;
    assert FallbackMove(b, cornerDraw, p) == Some(i);
  }

  /** Some triple through cell `i` is complete once `m` is written there. */
  predicate CompletesLine(b: Board, i: nat, m: Mark)
    requires i < 9
  {
    exists k :: 0 <= k < LineCount && OnLine(k, i) && Complete(b[i := Taken(m)], k)
  }

  /**
   * On a board with no complete triple, the probe of an empty cell succeeds
   * for `m` exactly when writing `m` there completes a triple through it.
   */
  lemma WinsWithMeansCompletesLine(b: Board, i: nat, m: Mark)
    requires !AnyComplete(b) && i < 9 && b[i] == Empty
    ensures WinsWith(b, i, m) <==> CompletesLine(b, i, m)
  {
    var b': Board := b[i := Taken(m)];
    if WinsWith(b, i, m) {
      var k :| 0 <= k < LineCount && Complete(b', k) && b'[Lines[k].0] == Taken(m);
      NewLineThroughCell(b, i, Taken(m), k);
    }
    if CompletesLine(b, i, m) {
      OnlyMoverCanWin(b, i, m);
    }
  }
}
