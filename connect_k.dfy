/**
  The Connect-K engine (class `TTT`): an alternating-turn placement game on a
  rows x cols board. A move places the mover's mark (0 or 1) on an empty cell
  (`EMPTY` is 2), and then each of the four axes through that cell whose
  unbroken run of the mover's marks is at least `to_connect` long earns the
  mover one point. The game only ends when the board is full.
*/
module ConnectK {
  import opened Boards

  const EMPTY := 2

  /** The symbols of player 0, player 1 and an empty cell. */
  const PLAYERS_STR: seq<char> := ['X', 'O', ' ']

  /** The axes scanned after a move, as (dx, dy) = (column step, row step). */
  const DIRECTIONS: seq<Coord> := [(1, 0), (0, 1), (1, 1), (1, -1)]

  /** The values a cell can hold: a player's mark or `EMPTY`. */
  predicate IsMark(v: int)
  {
    v == 0 || v == 1 || v == EMPTY
  }

  /** A step to one of the eight neighbours. */
  predicate IsUnitStep(dx: int, dy: int)
  {
    -1 <= dx <= 1 && -1 <= dy <= 1 && (dx != 0 || dy != 0)
  }

  /** Distance to the board edge in the direction of travel; it shrinks with every step. */
  function EdgeDistance(rows: int, cols: int, x: int, y: int, dx: int, dy: int): int
  {
    if dx > 0 then cols - x else if dx < 0 then x + 1 else if dy > 0 then rows - y else y + 1
  }

  /**
    The number of cells holding `mark` that follow (x, y) in direction (dx, dy)
    without a gap; the walk stops at the board edge or at the first other value.
    Column x, row y, as `board[y, x]` in the source.
  */
  function Ray(b: Board, rows: int, cols: int, x: int, y: int, dx: int, dy: int, mark: int): nat
    requires IsBoard(b, rows, cols) && InBounds(rows, cols, (y, x)) && IsUnitStep(dx, dy)
    decreases EdgeDistance(rows, cols, x, y, dx, dy)
  {
    var nx, ny := x + dx, y + dy;
    if 0 <= nx < cols && 0 <= ny < rows && b[ny][nx] == mark then 1 + Ray(b, rows, cols, nx, ny, dx, dy, mark) else 0
  }

  /** `i * d` for a unit step component `d`, without multiplication. */
  function Offset(i: int, d: int): int
  {
    if d > 0 then i else if d < 0 then -i else 0
  }

  /** The cell `i` steps from (x, y) along (dx, dy) is on the board and holds `mark`. */
  predicate OnRun(b: Board, rows: int, cols: int, x: int, y: int, dx: int, dy: int, mark: int, i: int)
    requires IsBoard(b, rows, cols)
  {
    var cx, cy := x + Offset(i, dx), y + Offset(i, dy);
    InBounds(rows, cols, (cy, cx)) && b[cy][cx] == mark
  }

  /** One step along the axis shifts the run index by one. */
  lemma OnRunShift(b: Board, rows: int, cols: int, x: int, y: int, dx: int, dy: int, mark: int, i: int)
    requires IsBoard(b, rows, cols) && IsUnitStep(dx, dy)
    ensures OnRun(b, rows, cols, x, y, dx, dy, mark, i + 1) == OnRun(b, rows, cols, x + dx, y + dy, dx, dy, mark, i)
  {
    assert x + Offset(i + 1, dx) == x + dx + Offset(i, dx);
    assert y + Offset(i + 1, dy) == y + dy + Offset(i, dy);
  }

  /** `Ray` is the length of the maximal run: the first n cells hold `mark`, the next one does not (or is off the board). */
  lemma {:induction false} RayIsMaximalRun(b: Board, rows: int, cols: int, x: int, y: int, dx: int, dy: int, mark: int)
    requires IsBoard(b, rows, cols) && InBounds(rows, cols, (y, x)) && IsUnitStep(dx, dy)
    ensures forall i :: 1 <= i <= Ray(b, rows, cols, x, y, dx, dy, mark) ==> OnRun(b, rows, cols, x, y, dx, dy, mark, i)
    ensures !OnRun(b, rows, cols, x, y, dx, dy, mark, Ray(b, rows, cols, x, y, dx, dy, mark) + 1)
    decreases EdgeDistance(rows, cols, x, y, dx, dy)
  {
    var nx, ny := x + dx, y + dy;
    OnRunShift(b, rows, cols, x, y, dx, dy, mark, 0);
    if 0 <= nx < cols && 0 <= ny < rows && b[ny][nx] == mark {
      RayIsMaximalRun(b, rows, cols, nx, ny, dx, dy, mark);
      var n := Ray(b, rows, cols, nx, ny, dx, dy, mark);
      assert Ray(b, rows, cols, x, y, dx, dy, mark) == n + 1;
      assert OnRun(b, rows, cols, nx, ny, dx, dy, mark, 0);
      RunExtends(b, rows, cols, x, y, nx, ny, dx, dy, mark, n);
      OnRunShift(b, rows, cols, x, y, dx, dy, mark, n + 1);
    } else {
      assert Ray(b, rows, cols, x, y, dx, dy, mark) == 0;
    }
  }

  /** A run of n + 1 cells from the next cell on is a run of n + 1 cells from (x, y). */
  lemma RunExtends(b: Board, rows: int, cols: int, x: int, y: int, nx: int, ny: int, dx: int, dy: int, mark: int, n: nat)
    requires IsBoard(b, rows, cols) && IsUnitStep(dx, dy) && nx == x + dx && ny == y + dy
    requires forall i :: 0 <= i <= n ==> OnRun(b, rows, cols, nx, ny, dx, dy, mark, i)
    ensures forall i :: 1 <= i <= n + 1 ==> OnRun(b, rows, cols, x, y, dx, dy, mark, i)
  {
    forall i | 1 <= i <= n + 1
      ensures OnRun(b, rows, cols, x, y, dx, dy, mark, i)
    {
      OnRunShift(b, rows, cols, x, y, dx, dy, mark, i - 1);
    }
  }

  /** The run through (x, y) along one axis: the cell itself plus both rays from it. */
  function RunLength(b: Board, rows: int, cols: int, x: int, y: int, dx: int, dy: int): nat
    requires IsBoard(b, rows, cols) && InBounds(rows, cols, (y, x)) && IsUnitStep(dx, dy)
  {
    1 + Ray(b, rows, cols, x, y, -dx, -dy, b[y][x]) + Ray(b, rows, cols, x, y, dx, dy, b[y][x])
  }

  /** Points earned on the first n axes of `DIRECTIONS`. */
  function PointsOver(b: Board, rows: int, cols: int, x: int, y: int, k: int, n: nat): nat
    requires IsBoard(b, rows, cols) && InBounds(rows, cols, (y, x)) && n <= |DIRECTIONS|
  {
    if n == 0 then 0
    else PointsOver(b, rows, cols, x, y, k, n - 1)
         + (if RunLength(b, rows, cols, x, y, DIRECTIONS[n - 1].0, DIRECTIONS[n - 1].1) >= k then 1 else 0)
  }

  /** Points a mark at (x, y) earns: the number of axes whose run reaches `k`. */
  function Points(b: Board, rows: int, cols: int, x: int, y: int, k: int): nat
    requires IsBoard(b, rows, cols) && InBounds(rows, cols, (y, x))
  {
    PointsOver(b, rows, cols, x, y, k, |DIRECTIONS|)
  }

  /** Each axis contributes at most one point, so n axes give at most n. */
  lemma {:induction false} PointsOverBound(b: Board, rows: int, cols: int, x: int, y: int, k: int, n: nat)
    requires IsBoard(b, rows, cols) && InBounds(rows, cols, (y, x)) && n <= |DIRECTIONS|
    ensures PointsOver(b, rows, cols, x, y, k, n) <= n
  {
    if n > 0 {
      PointsOverBound(b, rows, cols, x, y, k, n - 1);
    }
  }

  /** A move earns between 0 and 4 points. */
  lemma PointsBound(b: Board, rows: int, cols: int, x: int, y: int, k: int)
    requires IsBoard(b, rows, cols) && InBounds(rows, cols, (y, x))
    ensures 0 <= Points(b, rows, cols, x, y, k) <= 4
  {
    PointsOverBound(b, rows, cols, x, y, k, 4);
  }

  /** Every qualifying axis among the first n contributes its point: the scan does not stop at the first line. */
  lemma {:induction false} PointsOverCountsAxis(b: Board, rows: int, cols: int, x: int, y: int, k: int, n: nat, i: nat)
    requires IsBoard(b, rows, cols) && InBounds(rows, cols, (y, x)) && i < n <= |DIRECTIONS|
    requires RunLength(b, rows, cols, x, y, DIRECTIONS[i].0, DIRECTIONS[i].1) >= k
    ensures PointsOver(b, rows, cols, x, y, k, n) >= PointsOver(b, rows, cols, x, y, k, i) + 1
  {
    if n - 1 > i {
      PointsOverCountsAxis(b, rows, cols, x, y, k, n - 1, i);
    }
  }

  /**
    "At least K", not "exactly K": with K <= 2 a mark next to one of the mover's
    own marks on any axis (in either direction) earns a point.
  */
  lemma AdjacentPairScores(b: Board, rows: int, cols: int, x: int, y: int, k: int, i: nat, forward: bool)
    requires IsBoard(b, rows, cols) && InBounds(rows, cols, (y, x)) && i < |DIRECTIONS| && k <= 2
    requires var (dx, dy) := DIRECTIONS[i];
      var (nx, ny) := if forward then (x + dx, y + dy) else (x - dx, y - dy);
      InBounds(rows, cols, (ny, nx)) && b[ny][nx] == b[y][x]
    ensures Points(b, rows, cols, x, y, k) >= 1
  {
    PointsOverCountsAxis(b, rows, cols, x, y, k, |DIRECTIONS|, i);
  }

  /** With K <= 1 every axis qualifies, so a single move earns 4 points. */
  lemma EveryAxisScoresWhenKAtMostOne(b: Board, rows: int, cols: int, x: int, y: int, k: int)
    requires IsBoard(b, rows, cols) && InBounds(rows, cols, (y, x)) && k <= 1
    ensures Points(b, rows, cols, x, y, k) == 4
  {
    assert PointsOver(b, rows, cols, x, y, k, 1) == 1;
    assert PointsOver(b, rows, cols, x, y, k, 2) == 2;
    assert PointsOver(b, rows, cols, x, y, k, 3) == 3;
  }

  class TTT {
    var nextPlayer: int
    var scores: seq<int>
    var movesPlayed: int
    const rows: nat
    const cols: nat
    const board: array2<int>
    const toConnect: int

    /**
      The engine's invariant: the board has the configured shape and holds
      only marks and `EMPTY`; the players alternate starting with 0; and the
      number of non-empty cells is the number of moves played.
    */
    ghost predicate Valid()
      reads this, board
    {
      && board.Length0 == rows && board.Length1 == cols
      && |scores| == 2 && scores[0] >= 0 && scores[1] >= 0
      && movesPlayed >= 0 && nextPlayer == movesPlayed % 2
      && (forall r, c :: 0 <= r < rows && 0 <= c < cols ==> IsMark(board[r, c]))
      && |Positions(Snapshot(board), rows, cols, EMPTY, false)| == movesPlayed
    }

    /** A fresh game: an all-empty board, scores [0, 0], no moves played, player 0 to move. */
    constructor (rows: nat, cols: nat, toConnect: int)
      ensures Valid() && fresh(board)
      ensures this.rows == rows && this.cols == cols && this.toConnect == toConnect
      ensures nextPlayer == 0 && scores == [0, 0] && movesPlayed == 0
      ensures Snapshot(board) == Filled(rows, cols, EMPTY)
    {
      nextPlayer := 0;
      scores := [0, 0];
      movesPlayed := 0;
      this.rows := rows;
      this.cols := cols;
      board := new int[rows, cols]((_, _) => EMPTY);
      this.toConnect := toConnect;
      new;
      BoardExt(Snapshot(board), Filled(rows, cols, EMPTY), rows, cols);
      PositionsOfFilled(rows, cols, EMPTY);
    }

    function IsFull(): bool
      reads this
    {
      movesPlayed >= rows * cols
    }

    /** The board is full exactly when no empty cell is left. */
    lemma FullIffNoEmptyCell()
      requires Valid()
      ensures IsFull() <==> LegalActions() == []
      ensures movesPlayed <= rows * cols
    {
      PositionsPartition(Snapshot(board), rows, cols, EMPTY);
    }

    /** An empty cell is left only while the board is not full, so a legal move never trips the `is_full` check. */
    lemma EmptyCellMeansNotFull(p: Coord)
      requires Valid() && InBounds(rows, cols, p) && board[p.0, p.1] == EMPTY
      ensures !IsFull()
    {
      assert p in LegalActions();
      PositionsPartition(Snapshot(board), rows, cols, EMPTY);
    }

    function Returns(): (r: seq<int>)
      reads this, board
      requires Valid()
      ensures |r| == 2 && r[0] >= 0 && r[1] >= 0
    {
      scores
    }

    /** `legal_actions`: exactly the empty cells, in row-major order, each once. */
    function LegalActions(): (r: seq<Coord>)
      reads this, board
      requires board.Length0 == rows && board.Length1 == cols
      ensures forall p :: p in r <==> InBounds(rows, cols, p) && board[p.0, p.1] == EMPTY
      ensures Sorted(r)
    {
      Positions(Snapshot(board), rows, cols, EMPTY, true)
    }

    /** `_check_line`: does the run through (x, y) along (dx, dy) reach `toConnect`? */
    method CheckLine(x: int, y: int, dx: int, dy: int) returns (hit: bool)
      requires board.Length0 == rows && board.Length1 == cols
      requires InBounds(rows, cols, (y, x)) && board[y, x] != EMPTY && IsUnitStep(dx, dy)
      ensures hit == (RunLength(Snapshot(board), rows, cols, x, y, dx, dy) >= toConnect)
    {
      ghost var b := Snapshot(board);
      var mark := board[y, x];
      var found := 1;  // the cell itself
      for k := 0 to 2
        invariant found == 1 + (if k >= 1 then Ray(b, rows, cols, x, y, -dx, -dy, mark) else 0)
                             + (if k >= 2 then Ray(b, rows, cols, x, y, dx, dy, mark) else 0)
      {
        // m * (dx, dy) for m in [-1, 1]
        var sx, sy := if k == 0 then -dx else dx, if k == 0 then -dy else dy;
        var n := WalkRay(x, y, sx, sy, mark);
        found := found + n;
      }
      hit := found >= toConnect;
    }

    /** The inner `while True` of `_check_line`: count the cells holding `mark` beyond (x, y) along (sx, sy). */
    method WalkRay(x: int, y: int, sx: int, sy: int, mark: int) returns (n: nat)
      requires board.Length0 == rows && board.Length1 == cols
      requires InBounds(rows, cols, (y, x)) && IsUnitStep(sx, sy)
      ensures n == Ray(Snapshot(board), rows, cols, x, y, sx, sy, mark)
    {
      ghost var b := Snapshot(board);
      var cx, cy := x, y;
      n := 0;
      while true
        invariant InBounds(rows, cols, (cy, cx))
        invariant n + Ray(b, rows, cols, cx, cy, sx, sy, mark) == Ray(b, rows, cols, x, y, sx, sy, mark)
        decreases EdgeDistance(rows, cols, cx, cy, sx, sy)
      {
        var nx, ny := cx + sx, cy + sy;
        if !(0 <= nx < cols) || !(0 <= ny < rows) {
          break;
        }
        assert b[ny][nx] == board[ny, nx];
        if board[ny, nx] == mark {
          n := n + 1;
        } else {
          break;
        }
        cx, cy := nx, ny;
      }
    }

    /** The scan over `DIRECTIONS` in `apply_action`: how many axes through the new mark at (x, y) reach `toConnect`. */
    method CountLines(x: int, y: int) returns (points: nat)
      requires board.Length0 == rows && board.Length1 == cols
      requires InBounds(rows, cols, (y, x)) && board[y, x] != EMPTY
      ensures points == Points(Snapshot(board), rows, cols, x, y, toConnect)
    {
      ghost var b := Snapshot(board);
      points := 0;
      for i := 0 to |DIRECTIONS|
        invariant points == PointsOver(b, rows, cols, x, y, toConnect, i)
      {
        var (dx, dy) := DIRECTIONS[i];
        var hit := CheckLine(x, y, dx, dy);
        if hit {
          points := points + 1;
        }
      }
    }

    /**
      `apply_action`: the mover's mark goes on the (empty) target cell and
      nowhere else, one more move is counted, the mover's score grows by the
      points of the new mark, the other score is unchanged, and the turn passes.
    */
    method ApplyAction(action: Coord)
      requires Valid() && !IsFull()
      requires InBounds(rows, cols, action) && board[action.0, action.1] == EMPTY
      modifies this, board
      ensures Valid()
      ensures Snapshot(board) == Set(old(Snapshot(board)), action, old(nextPlayer))
      ensures movesPlayed == old(movesPlayed) + 1
      ensures nextPlayer == 1 - old(nextPlayer)
      ensures scores == old(scores)[old(nextPlayer) := old(scores)[old(nextPlayer)]
                          + Points(Snapshot(board), rows, cols, action.1, action.0, toConnect)]
    {
      var (y, x) := action;
      var mark := nextPlayer;
      ghost var before := Snapshot(board);
      ghost var after := Set(before, action, mark);
      board[y, x] := mark;
      SnapshotAfterWrite(board, before, action, mark);
      PositionsAfterSet(before, rows, cols, EMPTY, mark, action);
      forall r, c | 0 <= r < rows && 0 <= c < cols ensures IsMark(board[r, c]) {
        assert board[r, c] == after[r][c];
      }
      var points := CountLines(x, y);
      assert points == Points(after, rows, cols, x, y, toConnect);
      movesPlayed, scores, nextPlayer := movesPlayed + 1, scores[mark := scores[mark] + points], 1 - nextPlayer;
    }
  }
}
