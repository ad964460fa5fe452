/**
 * The game manager: owns the grid, the score and the `over`, `won` and
 * `keepPlaying` flags, and is the only code that changes them.
 */
module Game {
  import opened Wrappers
  import opened Tiles
  import opened Boards
  import opened Rules
  import opened Grids

  class GameManager {
    const size: nat
    const startTiles: nat := 2
    var grid: Grid
    var score: int
    var over: bool
    var won: bool
    var keepPlaying: bool

    /** The grid has the manager's size and keeps the grid invariant; the score is never negative. */
    ghost predicate Valid()
      reads this`grid, this`score, grid, grid.cells
    {
      grid.size == size && grid.Shaped() && ValidBoard(grid.Cells()) && score >= 0
    }

    /** The manager's state as a value. */
    ghost function State(): (g: GameState)
      reads this, grid, grid.cells
      requires Valid()
      ensures ValidGame(g) && |g.board| == size
    {
      GameState(grid.Cells(), score, over, won, keepPlaying)
    }

    /** `new GameManager(size, ...)`: sets the size and runs `setup`. */
    constructor (size: nat, saved: Option<GameSnapshot>, draws: seq<Draw>)
      requires saved.Some? ==> ResumableSnapshot(saved.value, size)
      requires saved.None? ==> ValidDraws(draws) && |draws| >= 2
      ensures Valid() && this.size == size && fresh(grid) && fresh(grid.cells)
      ensures State() == if saved.Some? then RestoreGame(saved.value) else NewGame(size, 2, draws)
    {
      this.size := size;
      grid := new Grid.Empty(size);
      new;
      Setup(saved, draws);
    }

    /**
     * `setup`: resume the saved game when there is one; otherwise an empty
     * grid, score 0, all flags false and `startTiles` random tiles.
     */
    method Setup(saved: Option<GameSnapshot>, draws: seq<Draw>)
      requires saved.Some? ==> ResumableSnapshot(saved.value, size)
      requires saved.None? ==> ValidDraws(draws) && |draws| >= startTiles
      modifies this
      ensures Valid() && fresh(grid) && fresh(grid.cells)
      ensures State() == if saved.Some? then RestoreGame(saved.value) else NewGame(size, startTiles, draws)
    {
      if saved.Some? {
        var previous := saved.value;
        grid := new Grid.FromState(previous.grid.size, previous.grid.cells);
        score := previous.score;
        over := previous.over;
        won := previous.won;
        keepPlaying := previous.keepPlaying;
        assert grid.Cells() == RestoreGame(previous).board;
      } else {
        grid := new Grid.Empty(size);
        score := 0;
        over := false;
        won := false;
        keepPlaying := false;
        AddStartTiles(draws);
        assert grid.Cells() == NewGame(size, startTiles, draws).board;
      }
    }

    /** `restart`: the saved game is discarded, so `setup` starts a new game. */
    method Restart(draws: seq<Draw>)
      requires ValidDraws(draws) && |draws| >= startTiles
      modifies this
      ensures Valid() && fresh(grid) && fresh(grid.cells)
      ensures State() == NewGame(size, startTiles, draws)
    {
      Setup(None, draws);
    }

    /** `addStartTiles`: `startTiles` calls of `addRandomTile`. */
    method AddStartTiles(draws: seq<Draw>)
      requires Valid() && ValidDraws(draws) && |draws| >= startTiles
      modifies grid.cells
      ensures Valid()
      ensures grid.Cells() == Rules.AddStartTiles(old(grid.Cells()), draws[..startTiles])
    {
      ghost var start := grid.Cells();
      for i := 0 to startTiles
        invariant Valid()
        invariant grid.Cells() == Rules.AddStartTiles(start, draws[..i])
      {
        AddRandomTile(draws[i]);
        assert draws[..i + 1][..i] == draws[..i];
      }
    }

    /** `addRandomTile`: if a cell is free, a 2 (value draw < 0.9) or a 4 at the drawn free cell. */
    method AddRandomTile(draw: Draw)
      requires Valid() && ValidDraw(draw)
      modifies grid.cells
      ensures Valid()
      ensures grid.Cells() == Rules.AddRandomTile(old(grid.Cells()), draw)
    {
      ghost var b: Board := grid.Cells();
      var available := grid.CellsAvailable();
      if available {
        var value := if draw.value < 0.9 then 2 else 4;
        var cell := grid.RandomAvailableCell(draw.cell);
        var tile := NewTile(cell.value, value);
        assert tile == NewTile(Rules.RandomAvailableCell(b, draw.cell).value, SpawnValue(draw));
        grid.InsertTile(tile);
        assert grid.Cells() == Rules.AddRandomTile(b, draw);
        assert ValidBoard(grid.Cells());
      }
    }

    /** `isGameTerminated`. */
    predicate IsGameTerminated()
      reads this
      ensures IsGameTerminated() <==> IsTerminated(over, won, keepPlaying)
    {
      over || (won && !keepPlaying)
    }

    /** `keepPlaying`: only the flag changes, and from now on only `over` terminates the game. */
    method KeepPlaying()
      modifies this`keepPlaying
      ensures keepPlaying
      ensures IsGameTerminated() <==> over
    {
      keepPlaying := true;
    }

    /** `serialize`: `{grid, score, over, won, keepPlaying}`. */
    method Serialize() returns (s: GameSnapshot)
      requires Valid()
      ensures s == SerializeGame(State())
    {
      var g := grid.Serialize();
      s := GameSnapshot(g, score, over, won, keepPlaying);
    }

    /**
     * The storage side of `actuate`, with the stored best score passed in:
     * the new best score, and the game to save (none once the game is over).
     */
    method Actuate(best: int) returns (newBest: int, saved: Option<GameSnapshot>)
      requires Valid()
      ensures (newBest, saved) == ActuateStorage(State(), best)
    {
      newBest := best;
      if best < score {
        newBest := score;
      }
      if over {
        saved := None;
      } else {
        var s := Serialize();
        saved := Some(s);
      }
    }

    /** `prepareTiles`: every tile forgets its merge and remembers its current cell. */
    method PrepareTiles()
      requires Valid()
      modifies grid.cells
      ensures Valid()
      ensures grid.Cells() == PrepareBoard(old(grid.Cells()))
    {
      ghost var before := grid.Cells();
      var x := 0;
      while x < size
        invariant 0 <= x <= size
        invariant forall i, j :: 0 <= i < size && 0 <= j < size ==>
          grid.cells[i, j] == if i < x then PrepareCell(before[i][j]) else before[i][j]
      {
        var y := 0;
        while y < size
          invariant 0 <= y <= size
          invariant forall i, j :: 0 <= i < size && 0 <= j < size ==>
            grid.cells[i, j] == if i < x || (i == x && j < y) then PrepareCell(before[i][j]) else before[i][j]
        {
          var tile := grid.cells[x, y];
          if tile.Some? {
            grid.cells[x, y] := Some(SavePosition(tile.value.(mergedFrom := None)));
          }
          y := y + 1;
        }
        x := x + 1;
      }
      assert forall i :: 0 <= i < size ==> grid.Cells()[i] == PrepareBoard(before)[i];
    }

    /** `moveTile`: clear the tile's cell, store the tile at `cell` and update its coordinates. */
    method MoveTile(tile: Tile, cell: Pos)
      requires Valid() && InBounds(Position(tile), size) && InBounds(cell, size) && ValidValue(tile.value)
      modifies grid.cells
      ensures Valid()
      ensures grid.Cells() == MoveTileTo(old(grid.Cells()), tile, cell)
    {
      ghost var before := grid.Cells();
      grid.cells[tile.x, tile.y] := None;
      grid.cells[cell.x, cell.y] := Some(UpdatePosition(tile, cell));
      assert forall i :: 0 <= i < size ==> grid.Cells()[i] == MoveTileTo(before, tile, cell)[i];
    }

    /** `buildTraversals`: each axis is 0..size-1, reversed when that vector component is +1. */
    method BuildTraversals(vector: Pos) returns (xs: seq<int>, ys: seq<int>)
      ensures |xs| == size && |ys| == size
      ensures forall i :: 0 <= i < size ==> xs[i] == if vector.x == 1 then size - 1 - i else i
      ensures forall i :: 0 <= i < size ==> ys[i] == if vector.y == 1 then size - 1 - i else i
    {
      xs, ys := [], [];
      var pos := 0;
      while pos < size
        invariant 0 <= pos <= size
        invariant |xs| == pos && xs == ys
        invariant forall i :: 0 <= i < pos ==> xs[i] == i
      {
        xs := xs + [pos];
        ys := ys + [pos];
        pos := pos + 1;
      }
      if vector.x == 1 {
        xs := Reverse(xs);
      }
      if vector.y == 1 {
        ys := Reverse(ys);
      }
    }

    /** `findFarthestPosition`: the do-while walk along `vector` from `cell`. */
    method FindFarthestPosition(cell: Pos, vector: Pos) returns (farthest: Pos, next: Pos)
      requires Valid() && IsUnit(vector)
      ensures (farthest, next) == Farthest(grid.Cells(), cell, vector)
    {
      ghost var b: Board := grid.Cells();
      var previous := cell;
      var current := Add(previous, vector);
      while grid.WithinBounds(current) && grid.CellAvailable(current)
        invariant current == Add(previous, vector)
        invariant Farthest(b, previous, vector) == Farthest(b, cell, vector)
        decreases Room(size, previous, vector)
      {
        previous := current;
        current := Add(previous, vector);
      }
      farthest, next := previous, current;
    }

    /**
     * The merge branch of the traversal: the walk from `cell` ends on `other`
     * at `next`, which has the same value and was not made by a merge in
     * this move. The merged tile is inserted at `next`, the moving tile's
     * cell is cleared, the score grows by the merged value and `won` is set
     * when that value is 2048. The merged tile's `mergedFrom` holds the
     * moving tile with the coordinates it is given right after the merge,
     * as the shared object does in the source.
     */
    method MergeTiles(tile: Tile, cell: Pos, next: Pos, other: Tile, moved: bool) returns (movedAfter: bool)
      requires Valid() && InBounds(Position(tile), size) && InBounds(next, size) && ValidValue(2 * tile.value)
      modifies this`score, this`won, grid.cells
      ensures Valid()
      ensures grid.Cells() == MergeOnBoard(old(grid.Cells()), tile, MergedTile(tile, other, next))
      ensures score == old(score) + 2 * tile.value
      ensures won == (old(won) || 2 * tile.value == 2048)
      ensures movedAfter == (moved || cell != next)
    {
      var merged := NewTile(next, tile.value * 2);
      merged := merged.(mergedFrom := Some(TilePair(UpdatePosition(tile, next), other)));
      PlaceMerged(tile, merged);
      Credit(merged.value);
      var moving := UpdatePosition(tile, next);
      movedAfter := moved;
      if !PositionsEqual(cell, Position(moving)) {
        movedAfter := true;
      }
    }

    /** `grid.insertTile(merged)` then `grid.removeTile(tile)`. */
    method PlaceMerged(tile: Tile, merged: Tile)
      requires Valid() && InBounds(Position(tile), size) && InBounds(Position(merged), size)
      requires ValidValue(merged.value)
      modifies grid.cells
      ensures Valid()
      ensures grid.Cells() == MergeOnBoard(old(grid.Cells()), tile, merged)
    {
      grid.InsertTile(merged);
      grid.RemoveTile(tile);
    }

    /** The score update of a merge: `score += merged.value`, and the 2048 tile wins. */
    method Credit(value: int)
      requires Valid() && value >= 0
      modifies this`score, this`won
      ensures Valid() && grid.Cells() == old(grid.Cells())
      ensures score == old(score) + value
      ensures won == (old(won) || value == 2048)
    {
      score := score + value;
      if value == 2048 {
        won := true;
      }
    }

    /** The other branch of the traversal: the tile slides to `farthest`. */
    method SlideTile(tile: Tile, cell: Pos, vector: Pos, farthest: Pos, moved: bool) returns (movedAfter: bool)
      requires Valid() && IsUnit(vector)
      requires Boards.CellContent(grid.Cells(), cell) == Some(tile)
      requires farthest == Farthest(grid.Cells(), cell, vector).0
      requires !CanMerge(grid.Cells(), tile, Farthest(grid.Cells(), cell, vector).1)
      modifies grid.cells
      ensures Valid()
      ensures MoveState(grid.Cells(), score, won, movedAfter)
           == MoveCell(MoveState(old(grid.Cells()), score, won, moved), cell, vector)
    {
      SlideStep(MoveState(grid.Cells(), score, won, moved), cell, vector, tile);
      MoveTile(tile, farthest);
      var moving := UpdatePosition(tile, farthest);
      movedAfter := moved;
      if !PositionsEqual(cell, Position(moving)) {
        movedAfter := true;
      }
    }

    /** The body of the traversal in `move` for one cell. */
    method TraverseCell(cell: Pos, vector: Pos, moved: bool) returns (movedAfter: bool)
      requires Valid() && IsUnit(vector)
      modifies this`score, this`won, grid.cells
      ensures Valid()
      ensures MoveState(grid.Cells(), score, won, movedAfter)
           == MoveCell(MoveState(old(grid.Cells()), old(score), old(won), moved), cell, vector)
    {
      ghost var st := MoveState(grid.Cells(), score, won, moved);
      movedAfter := moved;
      var tile := grid.CellContent(cell);
      if tile.Some? {
        var farthest, next := FindFarthestPosition(cell, vector);
        var other := grid.CellContent(next);
        if other.Some? && other.value.value == tile.value.value && other.value.mergedFrom.None? {
          assert grid.Cells() == st.board;
          MergeStep(st, cell, vector, tile.value);
          assert next == Farthest(st.board, cell, vector).1;
          assert other == Boards.CellContent(st.board, next);
          ghost var merged := MergedTile(tile.value, other.value, next);
          movedAfter := MergeTiles(tile.value, cell, next, other.value, moved);
          ghost var after: Board := grid.Cells();
          assert after == MergeOnBoard(st.board, tile.value, merged);
          assert score == st.score + 2 * tile.value.value;
          assert won == (st.won || 2 * tile.value.value == 2048);
          assert movedAfter;
          assert MoveState(after, score, won, movedAfter) == MoveCell(st, cell, vector);
        } else {
          movedAfter := SlideTile(tile.value, cell, vector, farthest, moved);
          assert MoveState(grid.Cells(), score, won, movedAfter) == MoveCell(st, cell, vector);
        }
      } else {
        assert MoveState(grid.Cells(), score, won, movedAfter) == MoveCell(st, cell, vector);
      }
    }

    /** `tileMatchesAvailable`: true iff some occupied cell has an orthogonal neighbour of equal value. */
    method TileMatchesAvailable() returns (r: bool)
      requires grid.Shaped() && grid.size == size
      ensures r <==> Rules.TileMatchesAvailable(grid.Cells())
    {
      ghost var b: Board := grid.Cells();
      var x := 0;
      while x < size
        invariant 0 <= x <= size
        invariant forall i: int, j: int :: 0 <= i < x && 0 <= j < size ==> !MatchAt(b, i, j)
      {
        var y := 0;
        while y < size
          invariant 0 <= y <= size
          invariant forall i: int, j: int :: 0 <= i < x && 0 <= j < size ==> !MatchAt(b, i, j)
          invariant forall j: int :: 0 <= j < y ==> !MatchAt(b, x, j)
        {
          var found := TileMatchesAt(x, y);
          if found {
            return true;
          }
          y := y + 1;
        }
        x := x + 1;
      }
      return false;
    }

    /** The body of `tileMatchesAvailable` for one cell: its four neighbours in direction order. */
    method TileMatchesAt(x: int, y: int) returns (r: bool)
      requires grid.Shaped() && grid.size == size && 0 <= x < size && 0 <= y < size
      ensures r <==> MatchAt(grid.Cells(), x, y)
    {
      ghost var b: Board := grid.Cells();
      var tile := grid.CellContent(Pos(x, y));
      if tile.Some? {
        var direction := 0;
        while direction < 4
          invariant 0 <= direction <= 4
          invariant forall d: Direction :: d < direction ==> !EqualNeighbour(b, x, y, d)
        {
          var vector := GetVector(direction);
          var cell := Pos(x + vector.x, y + vector.y);
          var other := grid.CellContent(cell);
          if other.Some? && other.value.value == tile.value.value {
            assert EqualNeighbour(b, x, y, direction);
            return true;
          }
          assert !EqualNeighbour(b, x, y, direction);
          direction := direction + 1;
        }
      }
      return false;
    }

    /** `movesAvailable`: a free cell, or else a possible merge. */
    method MovesAvailable() returns (r: bool)
      requires Valid()
      ensures r <==> Rules.MovesAvailable(grid.Cells())
    {
      r := grid.CellsAvailable();
      if !r {
        r := TileMatchesAvailable();
      }
    }

    /** The inner loop of the traversal: the cells (x, ys[0]), (x, ys[1]), ... in order. */
    method TraverseColumn(x: int, ys: seq<int>, vector: Pos, moved: bool) returns (movedAfter: bool)
      requires Valid() && IsUnit(vector)
      modifies this`score, this`won, grid.cells
      ensures Valid()
      ensures MoveState(grid.Cells(), score, won, movedAfter)
           == MoveColumn(MoveState(old(grid.Cells()), old(score), old(won), moved), x, ys, vector)
    {
      ghost var column := MoveState(grid.Cells(), score, won, moved);
      movedAfter := moved;
      var j := 0;
      while j < |ys|
        invariant 0 <= j <= |ys|
        invariant Valid()
        invariant MoveState(grid.Cells(), score, won, movedAfter) == MoveColumn(column, x, ys[..j], vector)
      {
        movedAfter := TraverseCell(Pos(x, ys[j]), vector, movedAfter);
        assert ys[..j + 1][..j] == ys[..j];
        j := j + 1;
      }
      assert ys[..|ys|] == ys;
    }

    /**
     * The tile loop of `move`: prepare the tiles, then run the traversal for
     * `vector` over every cell; `moved` tells whether some tile changed cell.
     */
    method SlideTiles(vector: Pos) returns (moved: bool)
      requires Valid() && IsUnit(vector)
      modifies this`score, this`won, grid.cells
      ensures Valid()
      ensures MoveState(grid.Cells(), score, won, moved) == SlideAll(old(State()), vector)
    {
      var xs, ys := BuildTraversals(vector);
      assert xs == Traversal(size, vector.x) && ys == Traversal(size, vector.y);
      PrepareTiles();
      moved := TraverseColumns(xs, ys, vector);
    }

    /** The outer loop of the traversal: the columns xs[0], xs[1], ... in order. */
    method TraverseColumns(xs: seq<int>, ys: seq<int>, vector: Pos) returns (moved: bool)
      requires Valid() && IsUnit(vector)
      modifies this`score, this`won, grid.cells
      ensures Valid()
      ensures MoveState(grid.Cells(), score, won, moved)
           == MoveAll(MoveState(old(grid.Cells()), old(score), old(won), false), xs, ys, vector)
    {
      ghost var start := MoveState(grid.Cells(), score, won, false);
      moved := false;
      var i := 0;
      while i < |xs|
        invariant 0 <= i <= |xs|
        invariant Valid()
        invariant MoveState(grid.Cells(), score, won, moved) == MoveAll(start, xs[..i], ys, vector)
      {
        moved := TraverseColumn(xs[i], ys, vector, moved);
        assert xs[..i + 1][..i] == xs[..i];
        i := i + 1;
      }
      assert xs[..|xs|] == xs;
    }

    /**
     * `move(direction)`: nothing while the game is terminated; otherwise
     * the tile loop, and when some tile moved, a spawn followed by the
     * game-over test.
     */
    method Move(direction: Direction, draw: Draw)
      requires Valid() && ValidDraw(draw)
      modifies this`score, this`won, this`over, grid.cells
      ensures Valid()
      ensures State() == MoveGame(old(State()), direction, draw)
    {
      if IsGameTerminated() {
        return;
      }
      ghost var g := State();
      var vector := GetVector(direction);
      var moved := SlideTiles(vector);
      ghost var after := SlideAll(g, vector);
      assert after == MoveState(grid.Cells(), score, won, moved);
      if moved {
        SpawnAndCheck(draw);
      }
    }

    /** The end of a move in which some tile moved: a random tile, then the game-over test. */
    method SpawnAndCheck(draw: Draw)
      requires Valid() && ValidDraw(draw)
      modifies this`over, grid.cells
      ensures Valid()
      ensures grid.Cells() == Rules.AddRandomTile(old(grid.Cells()), draw)
      ensures over == (old(over) || !Rules.MovesAvailable(grid.Cells()))
    {
      AddRandomTile(draw);
      var available := MovesAvailable();
      if !available {
        over := true;
      }
    }
  }
}
