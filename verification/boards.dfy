/**
 * The value-level view of the grid: a `size`×`size` matrix indexed
 * `cells[x][y]` (column first), and the facts about it that the grid
 * operations and the move rules rely on.
 */
module Boards {
  import opened Wrappers
  import opened Tiles

  /** `b[x][y]` is the content of cell (x, y). */
  type Board = seq<seq<Option<Tile>>>

  /** Every column of `b` has `n` cells. */
  predicate Columns(b: Board, n: nat)
  {
    forall x :: 0 <= x < |b| ==> |b[x]| == n
  }

  predicate IsSquare(b: Board)
  {
    Columns(b, |b|)
  }

  /** `withinBounds`: 0 <= x, y < n. */
  predicate InBounds(p: Pos, n: int)
  {
    0 <= p.x < n && 0 <= p.y < n
  }

  /**
   * The grid invariant: square, and every occupied cell holds a tile whose
   * own coordinates are that cell and whose value is a power of two >= 2.
   */
  predicate ValidBoard(b: Board)
  {
    IsSquare(b) &&
    forall x, y :: 0 <= x < |b| && 0 <= y < |b| && b[x][y].Some? ==>
      Position(b[x][y].value) == Pos(x, y) && ValidValue(b[x][y].value.value)
  }

  /** A grid of `n`×`n` null cells. */
  function EmptyBoard(n: nat): (b: Board)
    ensures ValidBoard(b) && |b| == n
    ensures forall x, y :: 0 <= x < n && 0 <= y < n ==> b[x][y] == None
  {
    seq(n, x => seq(n, y => None))
  }

  /** `cellContent`: the cell's content, and null for any out-of-bounds position. */
  function CellContent(b: Board, p: Pos): (r: Option<Tile>)
    requires IsSquare(b)
    ensures !InBounds(p, |b|) ==> r == None
    ensures InBounds(p, |b|) ==> r == b[p.x][p.y]
  {
    if InBounds(p, |b|) then b[p.x][p.y] else None
  }

  /** `cellAvailable`: the position holds no tile (out of bounds counts as available). */
  predicate CellAvailable(b: Board, p: Pos)
    requires IsSquare(b)
  {
    CellContent(b, p).None?
  }

  /** `cellOccupied`: the position holds a tile (never true out of bounds). */
  predicate CellOccupied(b: Board, p: Pos)
    requires IsSquare(b)
  {
    CellContent(b, p).Some?
  }

  /** Write one cell; every other cell keeps its content. */
  function SetCell(b: Board, p: Pos, c: Option<Tile>): (r: Board)
    requires IsSquare(b) && InBounds(p, |b|)
    ensures IsSquare(r) && |r| == |b|
    ensures r[p.x][p.y] == c
    ensures forall x, y :: 0 <= x < |b| && 0 <= y < |b| && Pos(x, y) != p ==> r[x][y] == b[x][y]
  {
    b[p.x := b[p.x][p.y := c]]
  }

  /** Writing a cell keeps the grid invariant when what is written belongs there. */
  lemma SetCellValid(b: Board, p: Pos, c: Option<Tile>)
    requires ValidBoard(b) && InBounds(p, |b|)
    requires c.Some? ==> Position(c.value) == p && ValidValue(c.value.value)
    ensures ValidBoard(SetCell(b, p, c))
  {
  }

  /** `insertTile`: the tile is stored at its own coordinates; no other cell changes. */
  function InsertTile(b: Board, t: Tile): (r: Board)
    requires IsSquare(b) && InBounds(Position(t), |b|)
    ensures IsSquare(r) && |r| == |b|
    ensures CellContent(r, Position(t)) == Some(t)
    ensures forall x, y :: 0 <= x < |b| && 0 <= y < |b| && Pos(x, y) != Position(t) ==> r[x][y] == b[x][y]
  {
    SetCell(b, Position(t), Some(t))
  }

  /** `removeTile`: the cell at the tile's own coordinates is cleared; no other cell changes. */
  function RemoveTile(b: Board, t: Tile): (r: Board)
    requires IsSquare(b) && InBounds(Position(t), |b|)
    ensures IsSquare(r) && |r| == |b|
    ensures CellContent(r, Position(t)) == None
    ensures forall x, y :: 0 <= x < |b| && 0 <= y < |b| && Pos(x, y) != Position(t) ==> r[x][y] == b[x][y]
  {
    SetCell(b, Position(t), None)
  }

  /** No cell is empty. */
  predicate IsFull(b: Board)
  {
    forall x, y :: 0 <= x < |b| && 0 <= y < |b[x]| ==> b[x][y].Some?
  }

  // ---------------------------------------------------------------------
  // Empty cells, in the x-major, then y, order of `availableCells`

  /** Scan order: column by column, and within a column by y. */
  predicate Before(p: Pos, q: Pos)
  {
    p.x < q.x || (p.x == q.x && p.y < q.y)
  }

  /** The empty cells (x, j) with j < y, in increasing j. */
  function EmptyInColumn(b: Board, x: int, y: int): seq<Pos>
    requires IsSquare(b) && 0 <= x < |b| && 0 <= y <= |b|
  {
    if y == 0 then []
    else EmptyInColumn(b, x, y - 1) + (if b[x][y - 1].None? then [Pos(x, y - 1)] else [])
  }

  /** The empty cells of the columns before x, in scan order. */
  function EmptyBefore(b: Board, x: int): seq<Pos>
    requires IsSquare(b) && 0 <= x <= |b|
  {
    if x == 0 then [] else EmptyBefore(b, x - 1) + EmptyInColumn(b, x - 1, |b|)
  }

  /** `availableCells`: every empty cell, x-major then y. */
  function AvailableCells(b: Board): seq<Pos>
    requires IsSquare(b)
  {
    EmptyBefore(b, |b|)
  }

  lemma {:induction false} EmptyInColumnSpec(b: Board, x: int, y: int)
    requires IsSquare(b) && 0 <= x < |b| && 0 <= y <= |b|
    ensures var r := EmptyInColumn(b, x, y);
      && (forall i :: 0 <= i < |r| ==> r[i].x == x && 0 <= r[i].y < y && b[x][r[i].y].None?)
      && (forall j :: 0 <= j < y && b[x][j].None? ==> Pos(x, j) in r)
      && (forall i, k :: 0 <= i < k < |r| ==> r[i].y < r[k].y)
  {
    if y > 0 {
      EmptyInColumnSpec(b, x, y - 1);
    }
  }

  /** Every listed position is an empty cell of a column in [lo, hi). */
  predicate EmptyCellsIn(b: Board, r: seq<Pos>, lo: int, hi: int)
    requires IsSquare(b)
  {
    forall i :: 0 <= i < |r| ==> lo <= r[i].x < hi && InBounds(r[i], |b|) && b[r[i].x][r[i].y].None?
  }

  /** Every empty cell of a column before `hi` is listed. */
  predicate CoversEmpty(b: Board, r: seq<Pos>, hi: int)
    requires IsSquare(b) && hi <= |b|
  {
    forall u, v :: 0 <= u < hi && 0 <= v < |b| && b[u][v].None? ==> Pos(u, v) in r
  }

  predicate ScanSorted(r: seq<Pos>)
  {
    forall i, k :: 0 <= i < k < |r| ==> Before(r[i], r[k])
  }

  lemma ColumnIsScanSorted(b: Board, x: int)
    requires IsSquare(b) && 0 <= x < |b|
    ensures EmptyCellsIn(b, EmptyInColumn(b, x, |b|), x, x + 1)
    ensures ScanSorted(EmptyInColumn(b, x, |b|))
    ensures forall j :: 0 <= j < |b| && b[x][j].None? ==> Pos(x, j) in EmptyInColumn(b, x, |b|)
  {
    EmptyInColumnSpec(b, x, |b|);
  }

  lemma ConcatScan(b: Board, front: seq<Pos>, col: seq<Pos>, m: int)
    requires IsSquare(b) && 0 <= m < |b|
    requires EmptyCellsIn(b, front, 0, m) && ScanSorted(front)
    requires EmptyCellsIn(b, col, m, m + 1) && ScanSorted(col)
    ensures EmptyCellsIn(b, front + col, 0, m + 1) && ScanSorted(front + col)
  {
    var r := front + col;
    forall i | 0 <= i < |r|
      ensures 0 <= r[i].x < m + 1 && InBounds(r[i], |b|) && b[r[i].x][r[i].y].None?
    {
      if i >= |front| {
        assert r[i] == col[i - |front|];
      }
    }
    forall i, k | 0 <= i < k < |r| ensures Before(r[i], r[k]) {
      if k < |front| {
      } else if i >= |front| {
        assert r[i] == col[i - |front|] && r[k] == col[k - |front|];
      } else {
        assert r[k] == col[k - |front|];
      }
    }
  }

  lemma {:induction false} EmptyBeforeSpec(b: Board, x: int)
    requires IsSquare(b) && 0 <= x <= |b|
    ensures EmptyCellsIn(b, EmptyBefore(b, x), 0, x)
    ensures CoversEmpty(b, EmptyBefore(b, x), x)
    ensures ScanSorted(EmptyBefore(b, x))
  {
    if x > 0 {
      EmptyBeforeSpec(b, x - 1);
      ColumnIsScanSorted(b, x - 1);
      var front, col := EmptyBefore(b, x - 1), EmptyInColumn(b, x - 1, |b|);
      assert EmptyBefore(b, x) == front + col;
      ConcatScan(b, front, col, x - 1);
      forall u, v | 0 <= u < x && 0 <= v < |b| && b[u][v].None?
        ensures Pos(u, v) in front + col
      {
        if u < x - 1 {
          assert Pos(u, v) in front;
        } else {
          assert Pos(u, v) in col;
        }
      }
    }
  }

  /**
   * `availableCells` lists exactly the empty in-bounds cells, strictly in
   * scan order (so each once); it is empty exactly when the grid is full.
   */
  lemma AvailableCellsSpec(b: Board)
    requires IsSquare(b)
    ensures var r := AvailableCells(b);
      && (forall i :: 0 <= i < |r| ==> InBounds(r[i], |b|) && b[r[i].x][r[i].y].None?)
      && (forall u, v :: 0 <= u < |b| && 0 <= v < |b| && b[u][v].None? ==> Pos(u, v) in r)
      && (forall i, k :: 0 <= i < k < |r| ==> Before(r[i], r[k]))
      && (|r| == 0 <==> IsFull(b))
  {
    EmptyBeforeSpec(b, |b|);
    var r := AvailableCells(b);
    if |r| != 0 {
      assert InBounds(r[0], |b|) && b[r[0].x][r[0].y].None?;
    }
    if !IsFull(b) {
      var u, v :| 0 <= u < |b| && 0 <= v < |b[u]| && b[u][v].None?;
      assert Pos(u, v) in r;
    }
  }

  // ---------------------------------------------------------------------
  // Totals over the grid: sum of tile values and number of tiles

  function ColumnTotal(col: seq<Option<Tile>>, w: Option<Tile> -> int): int
  {
    if col == [] then 0 else ColumnTotal(col[..|col| - 1], w) + w(col[|col| - 1])
  }

  function BoardTotal(b: Board, w: Option<Tile> -> int): int
  {
    if b == [] then 0 else BoardTotal(b[..|b| - 1], w) + ColumnTotal(b[|b| - 1], w)
  }

  function ValueOf(c: Option<Tile>): int
  {
    if c.Some? then c.value.value else 0
  }

  function Occupancy(c: Option<Tile>): int
  {
    if c.Some? then 1 else 0
  }

  /** The sum of the values of all tiles on the grid. */
  function ValueSum(b: Board): int
  {
    BoardTotal(b, ValueOf)
  }

  /** The number of tiles on the grid. */
  function TileCount(b: Board): int
  {
    BoardTotal(b, Occupancy)
  }

  lemma {:induction false} ColumnTotalUpdate(col: seq<Option<Tile>>, i: int, c: Option<Tile>, w: Option<Tile> -> int)
    requires 0 <= i < |col|
    ensures ColumnTotal(col[i := c], w) == ColumnTotal(col, w) - w(col[i]) + w(c)
  {
    var n := |col|;
    if i == n - 1 {
      assert col[i := c][..n - 1] == col[..n - 1];
    } else {
      assert col[i := c][..n - 1] == col[..n - 1][i := c];
      ColumnTotalUpdate(col[..n - 1], i, c, w);
    }
  }

  lemma {:induction false} BoardTotalUpdate(b: Board, x: int, col: seq<Option<Tile>>, w: Option<Tile> -> int)
    requires 0 <= x < |b|
    ensures BoardTotal(b[x := col], w) == BoardTotal(b, w) - ColumnTotal(b[x], w) + ColumnTotal(col, w)
  {
    var n := |b|;
    if x == n - 1 {
      assert b[x := col][..n - 1] == b[..n - 1];
    } else {
      assert b[x := col][..n - 1] == b[..n - 1][x := col];
      BoardTotalUpdate(b[..n - 1], x, col, w);
    }
  }

  /** Writing one cell changes a total by exactly that cell's contribution. */
  lemma SetCellTotal(b: Board, p: Pos, c: Option<Tile>, w: Option<Tile> -> int)
    requires IsSquare(b) && InBounds(p, |b|)
    ensures BoardTotal(SetCell(b, p, c), w) == BoardTotal(b, w) - w(b[p.x][p.y]) + w(c)
  {
    ColumnTotalUpdate(b[p.x], p.y, c, w);
    BoardTotalUpdate(b, p.x, b[p.x][p.y := c], w);
  }

  predicate ColumnFull(col: seq<Option<Tile>>)
  {
    forall y :: 0 <= y < |col| ==> col[y].Some?
  }

  lemma {:induction false} ColumnCount(col: seq<Option<Tile>>)
    ensures 0 <= ColumnTotal(col, Occupancy) <= |col|
    ensures ColumnTotal(col, Occupancy) == |col| <==> ColumnFull(col)
  {
    if col != [] {
      var n := |col|;
      var front := col[..n - 1];
      ColumnCount(front);
      if ColumnFull(col) {
        assert ColumnFull(front) by {
          forall y | 0 <= y < n - 1 ensures front[y].Some? {
            assert front[y] == col[y];
          }
        }
      }
      if ColumnFull(front) && col[n - 1].Some? {
        forall y | 0 <= y < n ensures col[y].Some? {
          if y < n - 1 {
            assert front[y] == col[y];
          }
        }
      }
    }
  }

  /** A grid of `|b|` columns of `n` cells holds at most `|b|·n` tiles, and exactly that many iff it is full. */
  lemma {:induction false} TileCountBound(b: Board, n: nat)
    requires Columns(b, n)
    ensures 0 <= TileCount(b) <= |b| * n
    ensures TileCount(b) == |b| * n <==> IsFull(b)
  {
    if b != [] {
      var k := |b|;
      var front := b[..k - 1];
      TileCountBound(front, n);
      ColumnCount(b[k - 1]);
      assert TileCount(b) == TileCount(front) + ColumnTotal(b[k - 1], Occupancy);
      assert (k - 1) * n + n == k * n;
      if IsFull(b) {
        assert IsFull(front) by {
          forall x, y | 0 <= x < |front| && 0 <= y < |front[x]| ensures front[x][y].Some? {
            assert front[x] == b[x];
          }
        }
      }
      if IsFull(b) {
        var last := b[k - 1];
        assert ColumnFull(last) by {
          forall y | 0 <= y < n ensures last[y].Some? {
          }
        }
      }
      if IsFull(front) && ColumnFull(b[k - 1]) {
        forall x, y | 0 <= x < k && 0 <= y < |b[x]| ensures b[x][y].Some? {
          if x < k - 1 {
            assert front[x] == b[x];
          }
        }
      }
    }
  }

  // ---------------------------------------------------------------------
  // Saved form of the grid

  function SerializeCell(c: Option<Tile>): Option<SerializedTile>
  {
    if c.Some? then Some(SerializeTile(c.value)) else None
  }

  function RestoreCell(c: Option<SerializedTile>): Option<Tile>
  {
    if c.Some? then Some(RestoreTile(c.value)) else None
  }

  /** `Grid.serialize().cells`: the same matrix with every tile in its saved form. */
  function SerializeCells(b: Board): (s: seq<seq<Option<SerializedTile>>>)
    ensures |s| == |b|
    ensures forall x :: 0 <= x < |b| ==> |s[x]| == |b[x]|
    ensures forall x, y :: 0 <= x < |b| && 0 <= y < |b[x]| ==> s[x][y] == SerializeCell(b[x][y])
  {
    seq(|b|, x requires 0 <= x < |b| => seq(|b[x]|, y requires 0 <= y < |b[x]| => SerializeCell(b[x][y])))
  }

  /**
   * `Grid.fromState`: an `n`×`n` matrix rebuilt from a saved one; a missing
   * entry of a saved column reads as null.
   */
  function RestoreCells(n: nat, state: seq<seq<Option<SerializedTile>>>): (b: Board)
    requires |state| >= n
    ensures |b| == n && IsSquare(b)
    ensures forall x, y :: 0 <= x < n && 0 <= y < n ==>
      b[x][y] == RestoredAt(state, x, y)
  {
    seq(n, x requires 0 <= x < n => seq(n, y => RestoredAt(state, x, y)))
  }

  function RestoredAt(state: seq<seq<Option<SerializedTile>>>, x: nat, y: int): Option<Tile>
    requires x < |state|
  {
    if 0 <= y < |state[x]| then RestoreCell(state[x][y]) else None
  }

  /** The grid with every tile's per-turn scratch fields reset. */
  function ClearBoard(b: Board): (r: Board)
    ensures |r| == |b| && forall x :: 0 <= x < |b| ==> |r[x]| == |b[x]|
    ensures forall x, y :: 0 <= x < |b| && 0 <= y < |b[x]| ==>
      r[x][y] == if b[x][y].Some? then Some(ClearScratch(b[x][y].value)) else None
  {
    seq(|b|, x requires 0 <= x < |b| =>
      seq(|b[x]|, y requires 0 <= y < |b[x]| => if b[x][y].Some? then Some(ClearScratch(b[x][y].value)) else None))
  }

  /**
   * `Grid.fromState(grid.serialize().cells)` gives back the same size, the
   * same values and positions, with null `previousPosition`/`mergedFrom`.
   */
  lemma GridRoundTrip(b: Board)
    requires ValidBoard(b)
    ensures RestoreCells(|b|, SerializeCells(b)) == ClearBoard(b)
    ensures ValidBoard(ClearBoard(b))
  {
    var r, c := RestoreCells(|b|, SerializeCells(b)), ClearBoard(b);
    forall x | 0 <= x < |b| ensures r[x] == c[x] {
      forall y | 0 <= y < |b| ensures r[x][y] == c[x][y] {
        if b[x][y].Some? {
          TileRoundTrip(b[x][y].value);
        }
      }
    }
  }
}
