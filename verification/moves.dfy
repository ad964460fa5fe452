/**
 * What a move does to the grid, proved about the functions in Rules:
 * tile values are conserved and only merges remove tiles, a move that moves
 * nothing changes nothing, no tile takes part in two merges in one move,
 * and a full grid with no equal neighbours admits no move in any direction.
 */
module MoveProperties {
  import opened Wrappers
  import opened Tiles
  import opened Boards
  import opened Rules

  // ---------------------------------------------------------------------
  // Totals of boards that agree cell by cell

  lemma {:induction false} ColumnTotalsAgree(c: seq<Option<Tile>>, d: seq<Option<Tile>>, w: Option<Tile> -> int)
    requires |c| == |d| && forall y :: 0 <= y < |c| ==> w(c[y]) == w(d[y])
    ensures ColumnTotal(c, w) == ColumnTotal(d, w)
    decreases |c|
  {
    if c != [] {
      ColumnTotalsAgree(c[..|c| - 1], d[..|d| - 1], w);
    }
  }

  lemma {:induction false} BoardTotalsAgree(a: Board, b: Board, w: Option<Tile> -> int)
    requires |a| == |b| && forall x :: 0 <= x < |a| ==> |a[x]| == |b[x]|
    requires forall x, y :: 0 <= x < |a| && 0 <= y < |a[x]| ==> w(a[x][y]) == w(b[x][y])
    ensures BoardTotal(a, w) == BoardTotal(b, w)
    decreases |a|
  {
    if a != [] {
      var n := |a|;
      ColumnTotalsAgree(a[n - 1], b[n - 1], w);
      BoardTotalsAgree(a[..n - 1], b[..n - 1], w);
    }
  }

  /** Preparing the tiles keeps every tile where it is, with its value. */
  lemma PrepareKeepsTotals(b: Board)
    requires IsSquare(b)
    ensures ValueSum(PrepareBoard(b)) == ValueSum(b)
    ensures TileCount(PrepareBoard(b)) == TileCount(b)
    ensures IsFull(b) <==> IsFull(PrepareBoard(b))
  {
    BoardTotalsAgree(PrepareBoard(b), b, ValueOf);
    BoardTotalsAgree(PrepareBoard(b), b, Occupancy);
  }

  // ---------------------------------------------------------------------
  // Conservation

  /** Merging a tile into its equal neighbour keeps the value sum and removes one tile. */
  lemma MergeTotals(b: Board, tile: Tile, merged: Tile)
    requires ValidBoard(b) && InBounds(Position(tile), |b|) && InBounds(Position(merged), |b|)
    requires ValidValue(merged.value) && Position(tile) != Position(merged)
    requires b[tile.x][tile.y] == Some(tile)
    requires b[merged.x][merged.y].Some? && merged.value == tile.value + b[merged.x][merged.y].value.value
    ensures ValueSum(MergeOnBoard(b, tile, merged)) == ValueSum(b)
    ensures TileCount(MergeOnBoard(b, tile, merged)) == TileCount(b) - 1
  {
    var inserted := InsertTile(b, merged);
    assert inserted[tile.x][tile.y] == b[tile.x][tile.y];
    SetCellTotal(b, Position(merged), Some(merged), ValueOf);
    SetCellTotal(b, Position(merged), Some(merged), Occupancy);
    SetCellTotal(inserted, Position(tile), None, ValueOf);
    SetCellTotal(inserted, Position(tile), None, Occupancy);
  }

  /** Sliding a tile to an empty cell (or onto its own cell) keeps both totals. */
  lemma SlideTotals(b: Board, tile: Tile, cell: Pos)
    requires IsSquare(b) && InBounds(Position(tile), |b|) && InBounds(cell, |b|)
    requires b[tile.x][tile.y] == Some(tile)
    requires cell == Position(tile) || b[cell.x][cell.y].None?
    ensures ValueSum(MoveTileTo(b, tile, cell)) == ValueSum(b)
    ensures TileCount(MoveTileTo(b, tile, cell)) == TileCount(b)
  {
    var cleared := SetCell(b, Position(tile), None);
    assert cleared[cell.x][cell.y] == None;
    SetCellTotal(b, Position(tile), None, ValueOf);
    SetCellTotal(b, Position(tile), None, Occupancy);
    SetCellTotal(cleared, cell, Some(UpdatePosition(tile, cell)), ValueOf);
    SetCellTotal(cleared, cell, Some(UpdatePosition(tile, cell)), Occupancy);
  }

  /** Whether the step at `cell` merges its tile into the tile the walk stops on. */
  predicate MergesAt(st: MoveState, cell: Pos, v: Pos)
    requires ValidBoard(st.board) && IsUnit(v)
  {
    var content := CellContent(st.board, cell);
    content.Some? && CanMerge(st.board, content.value, Farthest(st.board, cell, v).1)
  }

  /** How many steps of the inner loop merge. */
  function ColumnMerges(st: MoveState, x: int, ys: seq<int>, v: Pos): nat
    requires ValidBoard(st.board) && IsUnit(v)
    decreases |ys|
  {
    if ys == [] then 0
    else
      var front := MoveColumn(st, x, ys[..|ys| - 1], v);
      ColumnMerges(st, x, ys[..|ys| - 1], v) + (if MergesAt(front, Pos(x, ys[|ys| - 1]), v) then 1 else 0)
  }

  /** How many steps of the double loop merge. */
  function AllMerges(st: MoveState, xs: seq<int>, ys: seq<int>, v: Pos): nat
    requires ValidBoard(st.board) && IsUnit(v)
    decreases |xs|
  {
    if xs == [] then 0
    else
      var front := MoveAll(st, xs[..|xs| - 1], ys, v);
      AllMerges(st, xs[..|xs| - 1], ys, v) + ColumnMerges(front, xs[|xs| - 1], ys, v)
  }

  /** How many merges the tile loop of a move along `v` makes. */
  function SlideMerges(g: GameState, v: Pos): nat
    requires ValidGame(g) && IsUnit(v)
  {
    var n := |g.board|;
    AllMerges(MoveState(PrepareBoard(g.board), g.score, g.won, false), Traversal(n, v.x), Traversal(n, v.y), v)
  }

  /**
   * One traversal step keeps the sum of tile values; it removes a tile
   * exactly when it merges, and it adds to the score exactly then.
   */
  lemma MoveCellConserves(st: MoveState, cell: Pos, v: Pos)
    requires ValidBoard(st.board) && IsUnit(v)
    ensures var r := MoveCell(st, cell, v);
            && ValueSum(r.board) == ValueSum(st.board)
            && TileCount(r.board) == TileCount(st.board) - (if MergesAt(st, cell, v) then 1 else 0)
            && (r.score == st.score <==> !MergesAt(st, cell, v))
  {
    var b := st.board;
    var content := CellContent(b, cell);
    if content.Some? {
      var tile := content.value;
      var (farthest, next) := Farthest(b, cell, v);
      if CanMerge(b, tile, next) {
        MergeStep(st, cell, v, tile);
        MergeTotals(b, tile, MergedTile(tile, CellContent(b, next).value, next));
      } else {
        SlideStep(st, cell, v, tile);
        SlideTotals(b, tile, farthest);
      }
    }
  }

  /**
   * What a fold of steps that merged `merges` times conserves: the value
   * sum, one tile less per merge, and the score exactly when nothing merged.
   */
  predicate Conserved(before: MoveState, after: MoveState, merges: nat)
  {
    && ValueSum(after.board) == ValueSum(before.board)
    && TileCount(after.board) == TileCount(before.board) - merges
    && (after.score == before.score <==> merges == 0)
  }

  lemma {:induction false} MoveColumnConserves(st: MoveState, x: int, ys: seq<int>, v: Pos)
    requires ValidBoard(st.board) && IsUnit(v)
    ensures Conserved(st, MoveColumn(st, x, ys, v), ColumnMerges(st, x, ys, v))
    decreases |ys|
  {
    if ys != [] {
      var front := MoveColumn(st, x, ys[..|ys| - 1], v);
      MoveColumnConserves(st, x, ys[..|ys| - 1], v);
      MoveCellConserves(front, Pos(x, ys[|ys| - 1]), v);
    }
  }

  lemma {:induction false} MoveAllConserves(st: MoveState, xs: seq<int>, ys: seq<int>, v: Pos)
    requires ValidBoard(st.board) && IsUnit(v)
    ensures Conserved(st, MoveAll(st, xs, ys, v), AllMerges(st, xs, ys, v))
    decreases |xs|
  {
    if xs != [] {
      var front := MoveAll(st, xs[..|xs| - 1], ys, v);
      MoveAllConserves(st, xs[..|xs| - 1], ys, v);
      MoveColumnConserves(front, xs[|xs| - 1], ys, v);
    }
  }

  /**
   * The tile loop of a move keeps the sum of all tile values (a merge turns
   * v + v into 2v), removes exactly one tile per merge, and leaves the score
   * unchanged exactly when nothing merged.
   */
  lemma SlideAllConserves(g: GameState, v: Pos)
    requires ValidGame(g) && IsUnit(v)
    ensures var r := SlideAll(g, v);
            && ValueSum(r.board) == ValueSum(g.board)
            && TileCount(r.board) == TileCount(g.board) - SlideMerges(g, v)
            && (r.score == g.score <==> SlideMerges(g, v) == 0)
  {
    PrepareKeepsTotals(g.board);
    var n := |g.board|;
    MoveAllConserves(MoveState(PrepareBoard(g.board), g.score, g.won, false), Traversal(n, v.x), Traversal(n, v.y), v);
  }

  // ---------------------------------------------------------------------
  // A move that moves nothing changes nothing

  /** A step that does not set `moved` leaves grid, score and `won` exactly as they were. */
  lemma MoveCellStill(st: MoveState, cell: Pos, v: Pos)
    requires ValidBoard(st.board) && IsUnit(v)
    ensures !MoveCell(st, cell, v).moved ==> MoveCell(st, cell, v) == st
  {
    var b := st.board;
    var content := CellContent(b, cell);
    if content.Some? {
      var tile := content.value;
      var (farthest, next) := Farthest(b, cell, v);
      if CanMerge(b, tile, next) {
        MergeStep(st, cell, v, tile);
      } else if farthest == cell {
        SlideStep(st, cell, v, tile);
        var r := MoveTileTo(b, tile, cell);
        assert UpdatePosition(tile, cell) == tile;
        forall x | 0 <= x < |b|
          ensures r[x] == b[x]
        {
          assert |r[x]| == |b[x]|;
        }
        assert r == b;
      }
    }
  }

  lemma {:induction false} MoveColumnStill(st: MoveState, x: int, ys: seq<int>, v: Pos)
    requires ValidBoard(st.board) && IsUnit(v)
    ensures !MoveColumn(st, x, ys, v).moved ==> MoveColumn(st, x, ys, v) == st
    decreases |ys|
  {
    if ys != [] {
      var front := MoveColumn(st, x, ys[..|ys| - 1], v);
      MoveColumnStill(st, x, ys[..|ys| - 1], v);
      MoveCellStill(front, Pos(x, ys[|ys| - 1]), v);
    }
  }

  lemma {:induction false} MoveAllStill(st: MoveState, xs: seq<int>, ys: seq<int>, v: Pos)
    requires ValidBoard(st.board) && IsUnit(v)
    ensures !MoveAll(st, xs, ys, v).moved ==> MoveAll(st, xs, ys, v) == st
    decreases |xs|
  {
    if xs != [] {
      var front := MoveAll(st, xs[..|xs| - 1], ys, v);
      MoveAllStill(st, xs[..|xs| - 1], ys, v);
      MoveColumnStill(front, xs[|xs| - 1], ys, v);
    }
  }

  /**
   * A move in which no tile changes cell: no tile is spawned, the score,
   * `won` and `over` stay, and the grid only has its tiles prepared.
   */
  lemma UnmovedMoveKeepsGame(g: GameState, d: Direction, draw: Draw)
    requires ValidGame(g) && ValidDraw(draw)
    requires !IsTerminated(g.over, g.won, g.keepPlaying)
    requires !SlideAll(g, GetVector(d)).moved
    ensures MoveGame(g, d, draw) == g.(board := PrepareBoard(g.board))
  {
    var v := GetVector(d);
    var n := |g.board|;
    MoveAllStill(MoveState(PrepareBoard(g.board), g.score, g.won, false), Traversal(n, v.x), Traversal(n, v.y), v);
  }

  // ---------------------------------------------------------------------
  // A tile merges at most once per move

  /**
   * A tile made by a merge records two tiles of equal value whose sum it
   * holds, and neither of them was itself made by a merge.
   */
  predicate SoundMerge(t: Tile)
  {
    t.mergedFrom.Some? ==>
      var p := t.mergedFrom.value;
      && p.moved.mergedFrom.None? && p.target.mergedFrom.None?
      && p.target.value == p.moved.value && t.value == p.moved.value + p.target.value
  }

  predicate MergesSound(b: Board)
  {
    forall x, y :: 0 <= x < |b| && 0 <= y < |b[x]| && b[x][y].Some? ==> SoundMerge(b[x][y].value)
  }

  /** Where coordinate `a` comes in `Traversal(n, c)`. */
  function TraversalIndex(a: int, c: int, n: int): int
  {
    if c == 1 then n - 1 - a else a
  }

  /**
   * Whether the loop of a move along `v` has reached cell `p` once it has
   * done the first `i` columns of its outer traversal and the first `j`
   * cells of the next one.
   */
  predicate Visited(p: Pos, v: Pos, n: int, i: int, j: int)
  {
    var px := TraversalIndex(p.x, v.x, n);
    px < i || (px == i && TraversalIndex(p.y, v.y, n) < j)
  }

  /** Every tile made by a merge lies on a cell the loop has already visited. */
  predicate MergedOnlyVisited(b: Board, v: Pos, i: int, j: int)
  {
    forall x, y :: 0 <= x < |b| && 0 <= y < |b[x]| && b[x][y].Some? && b[x][y].value.mergedFrom.Some? ==>
      Visited(Pos(x, y), v, |b|, i, j)
  }

  /**
   * The traversal runs from the far side of the grid towards the near side,
   * so every cell ahead of the visited cell along `v` was visited before it.
   */
  lemma AheadIsVisited(n: nat, v: Pos, i: int, j: int, m: int)
    requires IsUnit(v) && 0 <= i < n && 0 <= j < n && m >= 1
    ensures var cell := Pos(Traversal(n, v.x)[i], Traversal(n, v.y)[j]);
            Visited(Shift(cell, v, m), v, n, i, j)
  {
    var cell := Pos(Traversal(n, v.x)[i], Traversal(n, v.y)[j]);
    var p := Shift(cell, v, m);
    if v.x == 0 {
      assert p.x == cell.x;
      if v.y == 1 {
        assert p.y == cell.y + m;
      } else {
        assert p.y == cell.y - m;
      }
    } else if v.x == 1 {
      assert p.x == cell.x + m;
    } else {
      assert p.x == cell.x - m;
    }
  }

  /** The cell the walk from `cell` stops on is some steps ahead of it. */
  lemma NextIsAhead(b: Board, cell: Pos, v: Pos)
    requires IsSquare(b) && IsUnit(v)
    ensures Farthest(b, cell, v).1 == Shift(cell, v, FarthestSteps(b, cell, v) + 1)
  {
    var k := FarthestSteps(b, cell, v);
    assert (k + 1) * v.x == k * v.x + v.x;
    assert (k + 1) * v.y == k * v.y + v.y;
  }

  /** Putting a sound merged tile on a visited cell, and emptying another cell, keeps the invariant. */
  lemma MergeOnBoardKeepsMergesSound(b: Board, tile: Tile, merged: Tile, v: Pos, i: int, j: int)
    requires ValidBoard(b) && InBounds(Position(tile), |b|) && InBounds(Position(merged), |b|)
    requires ValidValue(merged.value) && MergesSound(b) && MergedOnlyVisited(b, v, i, j)
    requires SoundMerge(merged) && Visited(Position(merged), v, |b|, i, j + 1)
    ensures MergesSound(MergeOnBoard(b, tile, merged))
    ensures MergedOnlyVisited(MergeOnBoard(b, tile, merged), v, i, j + 1)
  {
    var n := |b|;
    var r: Board := MergeOnBoard(b, tile, merged);
    forall x: int, y: int | 0 <= x < n && 0 <= y < n && r[x][y].Some?
      ensures SoundMerge(r[x][y].value)
      ensures r[x][y].value.mergedFrom.Some? ==> Visited(Pos(x, y), v, n, i, j + 1)
    {
      if Pos(x, y) != Position(merged) {
        assert r[x][y] == b[x][y];
      }
    }
  }

  /** The cell the loop is about to visit holds no tile made by a merge in this move. */
  lemma UnvisitedUnmerged(b: Board, v: Pos, i: int, j: int)
    requires IsSquare(b) && IsUnit(v) && 0 <= i < |b| && 0 <= j < |b|
    requires MergedOnlyVisited(b, v, i, j)
    ensures var cell := Pos(Traversal(|b|, v.x)[i], Traversal(|b|, v.y)[j]);
            b[cell.x][cell.y].Some? ==> b[cell.x][cell.y].value.mergedFrom.None?
  {
    var cell := Pos(Traversal(|b|, v.x)[i], Traversal(|b|, v.y)[j]);
    assert !Visited(cell, v, |b|, i, j);
  }

  /** The tile a merge at the visited cell builds has a sound record and lands on a visited cell. */
  lemma MergedTileFits(b: Board, v: Pos, i: int, j: int, cell: Pos, tile: Tile)
    requires ValidBoard(b) && IsUnit(v) && 0 <= i < |b| && 0 <= j < |b|
    requires MergedOnlyVisited(b, v, i, j)
    requires cell == Pos(Traversal(|b|, v.x)[i], Traversal(|b|, v.y)[j])
    requires CellContent(b, cell) == Some(tile)
    requires CanMerge(b, tile, Farthest(b, cell, v).1)
    ensures var next := Farthest(b, cell, v).1;
            var merged := MergedTile(tile, CellContent(b, next).value, next);
            SoundMerge(merged) && Visited(next, v, |b|, i, j + 1)
  {
    UnvisitedUnmerged(b, v, i, j);
    NextIsAhead(b, cell, v);
    AheadIsVisited(|b|, v, i, j, FarthestSteps(b, cell, v) + 1);
  }

  /** A step that merges at the visited cell keeps the merge records sound and the new tile on a visited cell. */
  lemma MergeKeepsMergesSound(st: MoveState, v: Pos, i: int, j: int, cell: Pos, tile: Tile)
    requires ValidBoard(st.board) && IsUnit(v) && MergesSound(st.board)
    requires 0 <= i < |st.board| && 0 <= j < |st.board|
    requires MergedOnlyVisited(st.board, v, i, j)
    requires cell == Pos(Traversal(|st.board|, v.x)[i], Traversal(|st.board|, v.y)[j])
    requires CellContent(st.board, cell) == Some(tile)
    requires CanMerge(st.board, tile, Farthest(st.board, cell, v).1)
    ensures MergesSound(MoveCell(st, cell, v).board) && MergedOnlyVisited(MoveCell(st, cell, v).board, v, i, j + 1)
  {
    var b := st.board;
    var next := Farthest(b, cell, v).1;
    MergeStep(st, cell, v, tile);
    MergedTileFits(b, v, i, j, cell, tile);
    MergeOnBoardKeepsMergesSound(b, tile, MergedTile(tile, CellContent(b, next).value, next), v, i, j);
  }

  /** Moving an unmerged tile keeps every merge record sound and where it was. */
  lemma MoveTileToKeepsMergesSound(b: Board, tile: Tile, cell: Pos, v: Pos, i: int, j: int)
    requires IsSquare(b) && InBounds(Position(tile), |b|) && InBounds(cell, |b|)
    requires MergesSound(b) && MergedOnlyVisited(b, v, i, j) && tile.mergedFrom.None?
    ensures MergesSound(MoveTileTo(b, tile, cell))
    ensures MergedOnlyVisited(MoveTileTo(b, tile, cell), v, i, j + 1)
  {
    var n := |b|;
    var r: Board := MoveTileTo(b, tile, cell);
    forall x: int, y: int | 0 <= x < n && 0 <= y < n && r[x][y].Some?
      ensures SoundMerge(r[x][y].value)
      ensures r[x][y].value.mergedFrom.Some? ==> Visited(Pos(x, y), v, n, i, j + 1)
    {
      if Pos(x, y) != cell {
        assert r[x][y] == b[x][y];
      }
    }
  }

  /** A step that slides or skips at the visited cell keeps the merge records sound and where they were. */
  lemma SlideKeepsMergesSound(st: MoveState, v: Pos, i: int, j: int, cell: Pos)
    requires ValidBoard(st.board) && IsUnit(v) && MergesSound(st.board)
    requires 0 <= i < |st.board| && 0 <= j < |st.board|
    requires MergedOnlyVisited(st.board, v, i, j)
    requires cell == Pos(Traversal(|st.board|, v.x)[i], Traversal(|st.board|, v.y)[j])
    requires !MergesAt(st, cell, v)
    ensures MergesSound(MoveCell(st, cell, v).board) && MergedOnlyVisited(MoveCell(st, cell, v).board, v, i, j + 1)
  {
    var b := st.board;
    var content := CellContent(b, cell);
    if content.Some? {
      var tile := content.value;
      UnvisitedUnmerged(b, v, i, j);
      SlideStep(st, cell, v, tile);
      MoveTileToKeepsMergesSound(b, tile, Farthest(b, cell, v).0, v, i, j);
    }
  }

  /**
   * The step at the j-th cell of the i-th column of the traversal: the tile
   * there was not made by a merge in this move, and a merge puts its new
   * tile on a cell ahead, which the loop has already visited.
   */
  lemma MoveCellKeepsMergesSound(st: MoveState, v: Pos, i: int, j: int)
    requires ValidBoard(st.board) && IsUnit(v) && MergesSound(st.board)
    requires 0 <= i < |st.board| && 0 <= j < |st.board|
    requires MergedOnlyVisited(st.board, v, i, j)
    ensures var n := |st.board|;
            var r := MoveCell(st, Pos(Traversal(n, v.x)[i], Traversal(n, v.y)[j]), v);
            MergesSound(r.board) && MergedOnlyVisited(r.board, v, i, j + 1)
  {
    var n := |st.board|;
    var cell := Pos(Traversal(n, v.x)[i], Traversal(n, v.y)[j]);
    if MergesAt(st, cell, v) {
      MergeKeepsMergesSound(st, v, i, j, cell, CellContent(st.board, cell).value);
    } else {
      SlideKeepsMergesSound(st, v, i, j, cell);
    }
  }

  /** The inner loop over j + 1 cells of a column is the loop over j cells followed by one step. */
  lemma ColumnStep(st: MoveState, x: int, ys: seq<int>, j: int, v: Pos)
    requires ValidBoard(st.board) && IsUnit(v) && 0 <= j < |ys|
    ensures MoveColumn(st, x, ys[..j + 1], v) == MoveCell(MoveColumn(st, x, ys[..j], v), Pos(x, ys[j]), v)
  {
    assert ys[..j + 1][..j] == ys[..j];
  }

  /** The outer loop over i + 1 columns is the loop over i columns followed by one column. */
  lemma AllStep(st: MoveState, xs: seq<int>, ys: seq<int>, i: int, v: Pos)
    requires ValidBoard(st.board) && IsUnit(v) && 0 <= i < |xs|
    ensures MoveAll(st, xs[..i + 1], ys, v) == MoveColumn(MoveAll(st, xs[..i], ys, v), xs[i], ys, v)
  {
    assert xs[..i + 1][..i] == xs[..i];
  }

  /** The inner loop over the first j cells of the i-th column of the traversal. */
  lemma {:induction false} MoveColumnKeepsMergesSound(st: MoveState, v: Pos, i: int, j: int)
    requires ValidBoard(st.board) && IsUnit(v) && MergesSound(st.board)
    requires 0 <= i < |st.board| && 0 <= j <= |st.board|
    requires MergedOnlyVisited(st.board, v, i, 0)
    ensures var n := |st.board|;
            var r := MoveColumn(st, Traversal(n, v.x)[i], Traversal(n, v.y)[..j], v);
            MergesSound(r.board) && MergedOnlyVisited(r.board, v, i, j)
    decreases j
  {
    if j > 0 {
      var n := |st.board|;
      var x, ys := Traversal(n, v.x)[i], Traversal(n, v.y);
      MoveColumnKeepsMergesSound(st, v, i, j - 1);
      ColumnStep(st, x, ys, j - 1, v);
      MoveCellKeepsMergesSound(MoveColumn(st, x, ys[..j - 1], v), v, i, j - 1);
    }
  }

  /** A finished column counts as visited as a whole. */
  lemma ColumnDone(b: Board, v: Pos, i: int)
    requires IsSquare(b) && MergedOnlyVisited(b, v, i, |b|)
    ensures MergedOnlyVisited(b, v, i + 1, 0)
  {
  }

  /** One more column of the traversal keeps the invariant, now with that column visited. */
  lemma MoveColumnFinishes(front: MoveState, v: Pos, i: int)
    requires ValidBoard(front.board) && IsUnit(v) && MergesSound(front.board)
    requires 0 <= i < |front.board|
    requires MergedOnlyVisited(front.board, v, i, 0)
    ensures var n := |front.board|;
            var r := MoveColumn(front, Traversal(n, v.x)[i], Traversal(n, v.y), v);
            MergesSound(r.board) && MergedOnlyVisited(r.board, v, i + 1, 0)
  {
    var n := |front.board|;
    var ys := Traversal(n, v.y);
    MoveColumnKeepsMergesSound(front, v, i, n);
    assert ys[..n] == ys;
    ColumnDone(MoveColumn(front, Traversal(n, v.x)[i], ys, v).board, v, i);
  }

  /** The outer loop over the first i columns of the traversal. */
  lemma {:induction false} MoveAllKeepsMergesSound(st: MoveState, v: Pos, i: int)
    requires ValidBoard(st.board) && IsUnit(v) && MergesSound(st.board)
    requires 0 <= i <= |st.board|
    requires MergedOnlyVisited(st.board, v, 0, 0)
    ensures var n := |st.board|;
            var r := MoveAll(st, Traversal(n, v.x)[..i], Traversal(n, v.y), v);
            MergesSound(r.board) && MergedOnlyVisited(r.board, v, i, 0)
    decreases i
  {
    if i > 0 {
      var n := |st.board|;
      var xs, ys := Traversal(n, v.x), Traversal(n, v.y);
      MoveAllKeepsMergesSound(st, v, i - 1);
      MoveColumnFinishes(MoveAll(st, xs[..i - 1], ys, v), v, i - 1);
      AllStep(st, xs, ys, i - 1, v);
    }
  }

  /**
   * After the tile loop of a move, every merged tile holds the sum of two
   * equal tiles neither of which was made by a merge in this move: no tile
   * takes part in two merges in one move.
   */
  lemma SlideAllMergesOnce(g: GameState, v: Pos)
    requires ValidGame(g) && IsUnit(v)
    ensures MergesSound(SlideAll(g, v).board)
  {
    var n := |g.board|;
    var prepared: Board := PrepareBoard(g.board);
    assert forall x: int, y: int :: 0 <= x < n && 0 <= y < n && prepared[x][y].Some? ==> prepared[x][y].value.mergedFrom.None?;
    MoveAllKeepsMergesSound(MoveState(prepared, g.score, g.won, false), v, n);
    assert Traversal(n, v.x)[..n] == Traversal(n, v.x);
  }

  // ---------------------------------------------------------------------
  // Game over

  /** A full grid in which no tile has an orthogonal neighbour of equal value. */
  predicate Stuck(b: Board)
    requires IsSquare(b)
  {
    IsFull(b) && !TileMatchesAvailable(b)
  }

  /** `movesAvailable` is false exactly on a stuck grid: no empty cell and no equal neighbours. */
  lemma MovesAvailableExactly(b: Board)
    requires IsSquare(b)
    ensures MovesAvailable(b) <==> !Stuck(b)
  {
    AvailableCellsSpec(b);
  }

  /** Every unit vector is the vector of some direction. */
  lemma DirectionOf(v: Pos) returns (d: Direction)
    requires IsUnit(v)
    ensures GetVector(d) == v
  {
    if v == Pos(0, -1) {
      d := 0;
    } else if v == Pos(1, 0) {
      d := 1;
    } else if v == Pos(0, 1) {
      d := 2;
    } else {
      d := 3;
    }
  }

  /** On a stuck grid the walk from a tile stops at once, on a tile it cannot merge with. */
  lemma StuckWalk(b: Board, cell: Pos, v: Pos, tile: Tile)
    requires ValidBoard(b) && IsUnit(v) && Stuck(b) && CellContent(b, cell) == Some(tile)
    ensures Farthest(b, cell, v).0 == cell
    ensures !CanMerge(b, tile, Farthest(b, cell, v).1)
  {
    FullStops(b, cell, v);
    StuckNeighbourDiffers(b, cell, v, tile);
  }

  /** On a full grid the walk from an in-bounds cell takes no step. */
  lemma FullStops(b: Board, cell: Pos, v: Pos)
    requires IsSquare(b) && IsUnit(v) && IsFull(b) && InBounds(cell, |b|)
    ensures Farthest(b, cell, v) == (cell, Add(cell, v))
  {
    var next := Add(cell, v);
    if InBounds(next, |b|) {
      assert b[next.x][next.y].Some?;
    }
  }

  /** On a stuck grid the neighbour along any unit vector, if any, has a different value. */
  lemma StuckNeighbourDiffers(b: Board, cell: Pos, v: Pos, tile: Tile)
    requires IsSquare(b) && IsUnit(v) && Stuck(b) && CellContent(b, cell) == Some(tile)
    ensures var other := CellContent(b, Add(cell, v)); other.Some? ==> other.value.value != tile.value
  {
    var d := DirectionOf(v);
    assert !MatchAt(b, cell.x, cell.y);
    assert !EqualNeighbour(b, cell.x, cell.y, d);
  }

  /** On a stuck grid a step leaves everything as it was. */
  lemma MoveCellStuck(st: MoveState, cell: Pos, v: Pos)
    requires ValidBoard(st.board) && IsUnit(v) && Stuck(st.board) && !st.moved
    ensures MoveCell(st, cell, v) == st
  {
    var content := CellContent(st.board, cell);
    if content.Some? {
      StuckWalk(st.board, cell, v, content.value);
      SlideStep(st, cell, v, content.value);
      MoveCellStill(st, cell, v);
    }
  }

  lemma {:induction false} MoveColumnStuck(st: MoveState, x: int, ys: seq<int>, v: Pos)
    requires ValidBoard(st.board) && IsUnit(v) && Stuck(st.board) && !st.moved
    ensures MoveColumn(st, x, ys, v) == st
    decreases |ys|
  {
    if ys != [] {
      MoveColumnStuck(st, x, ys[..|ys| - 1], v);
      MoveCellStuck(st, Pos(x, ys[|ys| - 1]), v);
    }
  }

  lemma {:induction false} MoveAllStuck(st: MoveState, xs: seq<int>, ys: seq<int>, v: Pos)
    requires ValidBoard(st.board) && IsUnit(v) && Stuck(st.board) && !st.moved
    ensures MoveAll(st, xs, ys, v) == st
    decreases |xs|
  {
    if xs != [] {
      MoveAllStuck(st, xs[..|xs| - 1], ys, v);
      MoveColumnStuck(st, xs[|xs| - 1], ys, v);
    }
  }

  /** Preparing the tiles keeps a grid stuck: occupancy and values do not change. */
  lemma PrepareKeepsStuck(b: Board)
    requires IsSquare(b) && Stuck(b)
    ensures Stuck(PrepareBoard(b))
  {
    var p := PrepareBoard(b);
    PrepareKeepsTotals(b);
    if TileMatchesAvailable(p) {
      var x: int, y: int :| 0 <= x < |p| && 0 <= y < |p| && MatchAt(p, x, y);
      var d: Direction :| EqualNeighbour(p, x, y, d);
      assert EqualNeighbour(b, x, y, d);
      assert MatchAt(b, x, y);
      assert false;
    }
  }

  /**
   * On a stuck grid no direction moves a tile: the move spawns nothing and
   * changes nothing but the per-move fields of the tiles.
   */
  lemma StuckMeansNoMove(g: GameState, d: Direction, draw: Draw)
    requires ValidGame(g) && ValidDraw(draw) && Stuck(g.board)
    ensures !SlideAll(g, GetVector(d)).moved
    ensures SlideAll(g, GetVector(d)).board == PrepareBoard(g.board)
    ensures !IsTerminated(g.over, g.won, g.keepPlaying) ==> MoveGame(g, d, draw) == g.(board := PrepareBoard(g.board))
  {
    var v := GetVector(d);
    var n := |g.board|;
    PrepareKeepsStuck(g.board);
    MoveAllStuck(MoveState(PrepareBoard(g.board), g.score, g.won, false), Traversal(n, v.x), Traversal(n, v.y), v);
  }

  /**
   * A move that does not find the game terminated sets `over` exactly when
   * some tile moved and the grid it leaves, new tile included, is stuck.
   */
  lemma GameOverExactly(g: GameState, d: Direction, draw: Draw)
    requires ValidGame(g) && ValidDraw(draw) && !IsTerminated(g.over, g.won, g.keepPlaying)
    ensures var r := MoveGame(g, d, draw);
            r.over <==> SlideAll(g, GetVector(d)).moved && Stuck(r.board)
  {
    AvailableCellsSpec(MoveGame(g, d, draw).board);
  }

  /** `over` never goes from false to true unless the grid is stuck. */
  lemma OverOnlyWhenStuck(g: GameState, d: Direction, draw: Draw)
    requires ValidGame(g) && ValidDraw(draw) && !g.over
    ensures MoveGame(g, d, draw).over ==> Stuck(MoveGame(g, d, draw).board)
  {
    if !IsTerminated(g.over, g.won, g.keepPlaying) {
      GameOverExactly(g, d, draw);
    }
  }
}
