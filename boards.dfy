/**
  The board grid shared by both engines: a rows x cols table of integer cell
  marks. The engines keep their board in an `array2<int>`; `Snapshot` turns
  such an array into a value so that specifications can talk about it.
*/
module Boards {

  /** A (row, col) pair; the source's tuples. */
  type Coord = (int, int)

  /** A board as a value: `b[r][c]` is the mark in row r, column c. */
  type Board = seq<seq<int>>

  predicate IsBoard(b: Board, rows: int, cols: int)
  {
    |b| == rows && forall r :: 0 <= r < |b| ==> |b[r]| == cols
  }

  predicate InBounds(rows: int, cols: int, p: Coord)
  {
    0 <= p.0 < rows && 0 <= p.1 < cols
  }

  /** The board `np.full((rows, cols), v)`. */
  function Filled(rows: nat, cols: nat, v: int): (b: Board)
    ensures IsBoard(b, rows, cols)
    ensures forall r, c :: 0 <= r < rows && 0 <= c < cols ==> b[r][c] == v
  {
    seq(rows, _ => seq(cols, _ => v))
  }

  /** The board after the single write `board[p] = v`. */
  function Set(b: Board, p: Coord, v: int): (b': Board)
    requires 0 <= p.0 < |b| && 0 <= p.1 < |b[p.0]|
    ensures |b'| == |b| && forall r :: 0 <= r < |b| ==> |b'[r]| == |b[r]|
    ensures forall r, c :: 0 <= r < |b| && 0 <= c < |b[r]| ==>
              b'[r][c] == if (r, c) == p then v else b[r][c]
  {
    b[p.0 := b[p.0][p.1 := v]]
  }

  /** The current contents of an array as a board value. */
  function Snapshot(a: array2<int>): (b: Board)
    reads a
    ensures IsBoard(b, a.Length0, a.Length1)
    ensures forall r, c :: 0 <= r < a.Length0 && 0 <= c < a.Length1 ==> b[r][c] == a[r, c]
  {
    seq(a.Length0, r requires 0 <= r < a.Length0 reads a =>
      seq(a.Length1, c requires 0 <= c < a.Length1 reads a => a[r, c]))
  }

  /** Two boards of the same shape that agree on every cell are equal. */
  lemma BoardExt(b: Board, b': Board, rows: int, cols: int)
    requires IsBoard(b, rows, cols) && IsBoard(b', rows, cols)
    requires forall r, c :: 0 <= r < rows && 0 <= c < cols ==> b[r][c] == b'[r][c]
    ensures b == b'
  {
    forall r | 0 <= r < rows
      ensures b[r] == b'[r]
    {
      assert |b[r]| == |b'[r]| == cols;
    }
  }

  /** After `a[p] := v` the snapshot of `a` is the old snapshot with `p` set to `v`. */
  lemma SnapshotAfterWrite(a: array2<int>, before: Board, p: Coord, v: int)
    requires IsBoard(before, a.Length0, a.Length1) && InBounds(a.Length0, a.Length1, p)
    requires a[p.0, p.1] == v
    requires forall r, c :: 0 <= r < a.Length0 && 0 <= c < a.Length1 && (r, c) != p ==>
               a[r, c] == before[r][c]
    ensures Snapshot(a) == Set(before, p, v)
  {
    BoardExt(Snapshot(a), Set(before, p, v), a.Length0, a.Length1);
  }

  /** Row-major order on coordinates. */
  predicate Before(p: Coord, q: Coord)
  {
    p.0 < q.0 || (p.0 == q.0 && p.1 < q.1)
  }

  /** Strictly increasing in row-major order (so also free of duplicates). */
  predicate Sorted(s: seq<Coord>)
  {
    forall i, j :: 0 <= i < j < |s| ==> Before(s[i], s[j])
  }

  predicate SortedByColumn(s: seq<Coord>)
  {
    forall i, j :: 0 <= i < j < |s| ==> s[i].1 < s[j].1
  }

  /** Does cell `p` of `b` take part in a scan for cells whose mark is (`equal`) or is not (`!equal`) `v`? */
  predicate Selected(b: Board, p: Coord, v: int, equal: bool)
    requires 0 <= p.0 < |b| && 0 <= p.1 < |b[p.0]|
  {
    (b[p.0][p.1] == v) == equal
  }

  /** The selected cells of row `r` from column `c` on, left to right. */
  function RowPositions(b: Board, rows: int, cols: int, v: int, equal: bool, r: int, c: nat): seq<Coord>
    requires IsBoard(b, rows, cols) && 0 <= r < rows
    decreases cols - c
  {
    if c >= cols then []
    else (if Selected(b, (r, c), v, equal) then [(r, c)] else []) + RowPositions(b, rows, cols, v, equal, r, c + 1)
  }

  /** The selected cells of rows `r` and below, in row-major order. */
  function RowsPositions(b: Board, rows: int, cols: int, v: int, equal: bool, r: nat): seq<Coord>
    requires IsBoard(b, rows, cols)
    decreases rows - r
  {
    if r >= rows then []
    else RowPositions(b, rows, cols, v, equal, r, 0) + RowsPositions(b, rows, cols, v, equal, r + 1)
  }

  lemma {:induction false} RowPositionsSound(b: Board, rows: int, cols: int, v: int, equal: bool, r: int, c: nat)
    requires IsBoard(b, rows, cols) && 0 <= r < rows
    ensures forall q :: q in RowPositions(b, rows, cols, v, equal, r, c) ==>
              q.0 == r && c <= q.1 < cols && Selected(b, q, v, equal)
    decreases cols - c
  {
    if c < cols {
      RowPositionsSound(b, rows, cols, v, equal, r, c + 1);
    }
  }

  lemma {:induction false} RowPositionsComplete(b: Board, rows: int, cols: int, v: int, equal: bool, r: int, c: nat)
    requires IsBoard(b, rows, cols) && 0 <= r < rows
    ensures forall c' :: c <= c' < cols && Selected(b, (r, c'), v, equal) ==>
              (r, c') in RowPositions(b, rows, cols, v, equal, r, c)
    decreases cols - c
  {
    if c < cols {
      RowPositionsComplete(b, rows, cols, v, equal, r, c + 1);
    }
  }

  lemma {:induction false} RowPositionsSorted(b: Board, rows: int, cols: int, v: int, equal: bool, r: int, c: nat)
    requires IsBoard(b, rows, cols) && 0 <= r < rows
    ensures SortedByColumn(RowPositions(b, rows, cols, v, equal, r, c))
    decreases cols - c
  {
    if c < cols {
      RowPositionsSorted(b, rows, cols, v, equal, r, c + 1);
      RowPositionsSound(b, rows, cols, v, equal, r, c + 1);
      var rest := RowPositions(b, rows, cols, v, equal, r, c + 1);
      var s := RowPositions(b, rows, cols, v, equal, r, c);
      if Selected(b, (r, c), v, equal) {
        assert s == [(r, c)] + rest;
        forall i, j | 0 <= i < j < |s|
          ensures s[i].1 < s[j].1
        {
          assert s[j] == rest[j - 1] && s[j] in rest;
          if i > 0 {
            assert s[i] == rest[i - 1];
          }
        }
      } else {
        assert s == rest;
      }
    }
  }

  lemma {:induction false} RowsPositionsSound(b: Board, rows: int, cols: int, v: int, equal: bool, r: nat)
    requires IsBoard(b, rows, cols)
    ensures forall q :: q in RowsPositions(b, rows, cols, v, equal, r) ==>
              r <= q.0 < rows && 0 <= q.1 < cols && Selected(b, q, v, equal)
    decreases rows - r
  {
    if r < rows {
      RowPositionsSound(b, rows, cols, v, equal, r, 0);
      RowsPositionsSound(b, rows, cols, v, equal, r + 1);
    }
  }

  lemma {:induction false} RowsPositionsComplete(b: Board, rows: int, cols: int, v: int, equal: bool, r: nat)
    requires IsBoard(b, rows, cols)
    ensures forall q :: InBounds(rows, cols, q) && r <= q.0 && Selected(b, q, v, equal) ==>
              q in RowsPositions(b, rows, cols, v, equal, r)
    decreases rows - r
  {
    if r < rows {
      RowPositionsComplete(b, rows, cols, v, equal, r, 0);
      RowsPositionsComplete(b, rows, cols, v, equal, r + 1);
      forall q | InBounds(rows, cols, q) && r <= q.0 && Selected(b, q, v, equal)
        ensures q in RowsPositions(b, rows, cols, v, equal, r)
      {
        if q.0 == r {
          assert (r, q.1) in RowPositions(b, rows, cols, v, equal, r, 0);
        }
      }
    }
  }

  lemma {:induction false} RowsPositionsSorted(b: Board, rows: int, cols: int, v: int, equal: bool, r: nat)
    requires IsBoard(b, rows, cols)
    ensures Sorted(RowsPositions(b, rows, cols, v, equal, r))
    decreases rows - r
  {
    if r < rows {
      RowPositionsSorted(b, rows, cols, v, equal, r, 0);
      RowPositionsSound(b, rows, cols, v, equal, r, 0);
      RowsPositionsSorted(b, rows, cols, v, equal, r + 1);
      RowsPositionsSound(b, rows, cols, v, equal, r + 1);
      var here := RowPositions(b, rows, cols, v, equal, r, 0);
      var rest := RowsPositions(b, rows, cols, v, equal, r + 1);
      assert RowsPositions(b, rows, cols, v, equal, r) == here + rest;
      SortedRowThenRest(here, rest, r);
    }
  }

  /** One row's cells in column order, followed by sorted cells of later rows, are sorted. */
  lemma SortedRowThenRest(here: seq<Coord>, rest: seq<Coord>, r: int)
    requires SortedByColumn(here) && forall q :: q in here ==> q.0 == r
    requires Sorted(rest) && forall q :: q in rest ==> q.0 > r
    ensures Sorted(here + rest)
  {
    var s := here + rest;
    forall i, j | 0 <= i < j < |s|
      ensures Before(s[i], s[j])
    {
      if j < |here| {
        assert s[i] == here[i] && s[j] == here[j];
      } else if i >= |here| {
        assert s[i] == rest[i - |here|] && s[j] == rest[j - |here|];
      } else {
        assert s[i] == here[i] && s[i] in here;
        assert s[j] == rest[j - |here|] && s[j] in rest;
      }
    }
  }

  /**
    The list comprehension `[(r, c) for r in range(rows) for c in range(cols) if board[r, c] == v]`
    (or `!= v` when `equal` is false): exactly the selected cells, in strictly increasing
    row-major order, hence without duplicates.
  */
  function Positions(b: Board, rows: int, cols: int, v: int, equal: bool): (s: seq<Coord>)
    requires IsBoard(b, rows, cols)
    ensures forall p :: p in s <==> InBounds(rows, cols, p) && Selected(b, p, v, equal)
    ensures Sorted(s)
  {
    RowsPositionsSound(b, rows, cols, v, equal, 0);
    RowsPositionsComplete(b, rows, cols, v, equal, 0);
    RowsPositionsSorted(b, rows, cols, v, equal, 0);
    RowsPositions(b, rows, cols, v, equal, 0)
  }

  /** Every cell is selected by exactly one of the two scans. */
  lemma {:induction false} RowPartition(b: Board, rows: int, cols: int, v: int, r: int, c: nat)
    requires IsBoard(b, rows, cols) && 0 <= r < rows && c <= cols
    ensures |RowPositions(b, rows, cols, v, true, r, c)| + |RowPositions(b, rows, cols, v, false, r, c)| == cols - c
    decreases cols - c
  {
    if c < cols {
      RowPartition(b, rows, cols, v, r, c + 1);
    }
  }

  lemma {:induction false} RowsPartition(b: Board, rows: int, cols: int, v: int, r: nat)
    requires IsBoard(b, rows, cols) && r <= rows && cols >= 0
    ensures |RowsPositions(b, rows, cols, v, true, r)| + |RowsPositions(b, rows, cols, v, false, r)| == (rows - r) * cols
    decreases rows - r
  {
    if r < rows {
      RowPartition(b, rows, cols, v, r, 0);
      RowsPartition(b, rows, cols, v, r + 1);
      assert (rows - r) * cols == cols + (rows - (r + 1)) * cols;
    }
  }

  /** The cells equal to `v` and the cells different from `v` together number rows * cols. */
  lemma PositionsPartition(b: Board, rows: int, cols: int, v: int)
    requires IsBoard(b, rows, cols) && cols >= 0
    ensures |Positions(b, rows, cols, v, true)| + |Positions(b, rows, cols, v, false)| == rows * cols
  {
    RowsPartition(b, rows, cols, v, 0);
  }

  /** On a board filled with `v`, no cell differs from `v`. */
  lemma {:induction false} RowOfFilled(rows: nat, cols: nat, v: int, r: int, c: nat)
    requires 0 <= r < rows
    ensures RowPositions(Filled(rows, cols, v), rows, cols, v, false, r, c) == []
    decreases cols - c
  {
    if c < cols {
      RowOfFilled(rows, cols, v, r, c + 1);
    }
  }

  lemma {:induction false} RowsOfFilled(rows: nat, cols: nat, v: int, r: nat)
    ensures RowsPositions(Filled(rows, cols, v), rows, cols, v, false, r) == []
    decreases rows - r
  {
    if r < rows {
      RowOfFilled(rows, cols, v, r, 0);
      RowsOfFilled(rows, cols, v, r + 1);
    }
  }

  lemma PositionsOfFilled(rows: nat, cols: nat, v: int)
    ensures Positions(Filled(rows, cols, v), rows, cols, v, false) == []
  {
    RowsOfFilled(rows, cols, v, 0);
  }

  /** Writing `w != v` over a cell holding `v` moves exactly that cell from one scan to the other. */
  lemma {:induction false} RowAfterSet(b: Board, rows: int, cols: int, v: int, w: int, p: Coord, r: int, c: nat)
    requires IsBoard(b, rows, cols) && InBounds(rows, cols, p) && b[p.0][p.1] == v && w != v
    requires 0 <= r < rows && c <= cols
    ensures var b' := Set(b, p, w);
      |RowPositions(b', rows, cols, v, false, r, c)|
        == |RowPositions(b, rows, cols, v, false, r, c)| + (if r == p.0 && c <= p.1 then 1 else 0)
    decreases cols - c
  {
    if c < cols {
      RowAfterSet(b, rows, cols, v, w, p, r, c + 1);
    }
  }

  lemma {:induction false} RowsAfterSet(b: Board, rows: int, cols: int, v: int, w: int, p: Coord, r: nat)
    requires IsBoard(b, rows, cols) && InBounds(rows, cols, p) && b[p.0][p.1] == v && w != v
    requires r <= rows
    ensures var b' := Set(b, p, w);
      |RowsPositions(b', rows, cols, v, false, r)|
        == |RowsPositions(b, rows, cols, v, false, r)| + (if r <= p.0 then 1 else 0)
    decreases rows - r
  {
    if r < rows {
      RowAfterSet(b, rows, cols, v, w, p, r, 0);
      RowsAfterSet(b, rows, cols, v, w, p, r + 1);
    }
  }

  /** Overwriting one `v` cell with another mark adds exactly one cell to the "not v" scan. */
  lemma PositionsAfterSet(b: Board, rows: int, cols: int, v: int, w: int, p: Coord)
    requires IsBoard(b, rows, cols) && InBounds(rows, cols, p) && b[p.0][p.1] == v && w != v
    ensures |Positions(Set(b, p, w), rows, cols, v, false)| == |Positions(b, rows, cols, v, false)| + 1
  {
    RowsAfterSet(b, rows, cols, v, w, p, 0);
  }
}
