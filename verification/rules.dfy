/**
 * The rules of a move, as functions on values: the direction vectors, the
 * traversal order, the farthest-position walk, one traversal step (slide or
 * merge), the fold of those steps over the traversal, the spawn of a new tile
 * and the game-over test. The GameManager methods are proved to compute
 * exactly these.
 */
module Rules {
  import opened Wrappers
  import opened Tiles
  import opened Boards

  /** The four inputs: 0 Up, 1 Right, 2 Down, 3 Left. */
  type Direction = d: int | 0 <= d < 4

  /** A step of one cell along exactly one axis. */
  predicate IsUnit(v: Pos)
  {
    (v.x == 0 && (v.y == 1 || v.y == -1)) || (v.y == 0 && (v.x == 1 || v.x == -1))
  }

  /** `getVector`: Up (0,-1), Right (1,0), Down (0,1), Left (-1,0). */
  function GetVector(d: Direction): (v: Pos)
    ensures IsUnit(v)
    ensures v.x == 1 <==> d == 1
    ensures v.y == 1 <==> d == 2
  {
    match d
    case 0 => Pos(0, -1)
    case 1 => Pos(1, 0)
    case 2 => Pos(0, 1)
    case 3 => Pos(-1, 0)
  }

  /** `positionsEqual`: coordinate-wise comparison, which is equality of positions. */
  function PositionsEqual(first: Pos, second: Pos): (r: bool)
    ensures r <==> first == second
  {
    first.x == second.x && first.y == second.y
  }

  function Add(p: Pos, v: Pos): Pos
  {
    Pos(p.x + v.x, p.y + v.y)
  }

  /** The position k steps from `c` along `v`. */
  function Shift(c: Pos, v: Pos, k: int): Pos
  {
    Pos(c.x + k * v.x, c.y + k * v.y)
  }

  lemma ShiftStep(c: Pos, v: Pos, k: int)
    ensures Shift(Add(c, v), v, k) == Shift(c, v, k + 1)
  {
    assert (k + 1) * v.x == k * v.x + v.x;
    assert (k + 1) * v.y == k * v.y + v.y;
  }

  /** `Array.prototype.reverse` on a list of indices. */
  function Reverse(s: seq<int>): (r: seq<int>)
    ensures |r| == |s| && forall i :: 0 <= i < |s| ==> r[i] == s[|s| - 1 - i]
  {
    seq(|s|, i requires 0 <= i < |s| => s[|s| - 1 - i])
  }

  /** One traversal axis: 0..n-1, descending when the vector component is +1. */
  function Traversal(n: nat, component: int): (r: seq<int>)
    ensures |r| == n
    ensures forall i :: 0 <= i < n ==> r[i] == if component == 1 then n - 1 - i else i
  {
    seq(n, i requires 0 <= i < n => if component == 1 then n - 1 - i else i)
  }

  // ---------------------------------------------------------------------
  // findFarthestPosition

  /** How many more steps along `v` stay inside an n×n grid (termination measure). */
  function Room(n: int, c: Pos, v: Pos): int
  {
    if v.x == 1 then n - c.x
    else if v.x == -1 then c.x + 1
    else if v.y == 1 then n - c.y
    else c.y + 1
  }

  /** How many empty cells the walk from `cell` along `v` passes. */
  ghost function FarthestSteps(b: Board, cell: Pos, v: Pos): (k: nat)
    requires IsSquare(b) && IsUnit(v)
    ensures forall i :: 1 <= i <= k ==> InBounds(Shift(cell, v, i), |b|) && CellAvailable(b, Shift(cell, v, i))
    decreases Room(|b|, cell, v)
  {
    var next := Add(cell, v);
    if InBounds(next, |b|) && CellAvailable(b, next) then
      var k := 1 + FarthestSteps(b, next, v);
      assert forall i :: 1 <= i <= k ==> Shift(cell, v, i) == Shift(next, v, i - 1) by {
        forall i | 1 <= i <= k ensures Shift(cell, v, i) == Shift(next, v, i - 1) {
          ShiftStep(cell, v, i - 1);
        }
      }
      assert Shift(cell, v, 1) == next;
      k
    else
      0
  }

  /**
   * `findFarthestPosition`: step from `cell` along `v` while the next
   * position is inside the grid and empty. Returns (farthest, next): next is
   * one step past farthest and is out of bounds or occupied; farthest is
   * `cell` itself or an empty in-bounds cell, reached after FarthestSteps
   * steps over empty cells only.
   */
  function Farthest(b: Board, cell: Pos, v: Pos): (r: (Pos, Pos))
    requires IsSquare(b) && IsUnit(v)
    ensures r.1 == Add(r.0, v)
    ensures !InBounds(r.1, |b|) || CellOccupied(b, r.1)
    ensures InBounds(cell, |b|) ==> InBounds(r.0, |b|)
    ensures r.0 == cell || (InBounds(r.0, |b|) && CellAvailable(b, r.0))
    ensures r.0 == Shift(cell, v, FarthestSteps(b, cell, v))
    decreases Room(|b|, cell, v)
  {
    var next := Add(cell, v);
    if InBounds(next, |b|) && CellAvailable(b, next) then
      var r := Farthest(b, next, v);
      assert r.0 == Shift(cell, v, FarthestSteps(b, cell, v)) by {
        ShiftStep(cell, v, FarthestSteps(b, next, v));
      }
      r
    else
      assert cell == Shift(cell, v, 0);
      (cell, next)
  }

  // ---------------------------------------------------------------------
  // One step of the traversal

  /** `moveTile`: clear the tile's cell, store it at `cell` with its coordinates updated. */
  function MoveTileTo(b: Board, tile: Tile, cell: Pos): (r: Board)
    requires IsSquare(b) && InBounds(Position(tile), |b|) && InBounds(cell, |b|)
    ensures IsSquare(r) && |r| == |b|
    ensures r[cell.x][cell.y] == Some(UpdatePosition(tile, cell))
    ensures cell != Position(tile) ==> r[tile.x][tile.y] == None
    ensures forall x, y :: 0 <= x < |b| && 0 <= y < |b| && Pos(x, y) != cell && Pos(x, y) != Position(tile) ==>
      r[x][y] == b[x][y]
    ensures ValidBoard(b) && ValidValue(tile.value) ==> ValidBoard(r)
  {
    var cleared := SetCell(b, Position(tile), None);
    if ValidBoard(b) && ValidValue(tile.value) then
      SetCellValid(b, Position(tile), None);
      SetCellValid(cleared, cell, Some(UpdatePosition(tile, cell)));
      SetCell(cleared, cell, Some(UpdatePosition(tile, cell)))
    else
      SetCell(cleared, cell, Some(UpdatePosition(tile, cell)))
  }

  /** The grid after a merge: the merged tile stored at `next`, the moving tile's cell cleared. */
  function MergeOnBoard(b: Board, tile: Tile, merged: Tile): (r: Board)
    requires ValidBoard(b) && InBounds(Position(tile), |b|) && InBounds(Position(merged), |b|)
    requires ValidValue(merged.value)
    ensures ValidBoard(r) && |r| == |b|
    ensures r[tile.x][tile.y] == None
    ensures Position(merged) != Position(tile) ==> r[merged.x][merged.y] == Some(merged)
    ensures forall x, y :: 0 <= x < |b| && 0 <= y < |b| && Pos(x, y) != Position(merged) && Pos(x, y) != Position(tile) ==>
      r[x][y] == b[x][y]
  {
    SetCellValid(b, Position(merged), Some(merged));
    var inserted := InsertTile(b, merged);
    SetCellValid(inserted, Position(tile), None);
    RemoveTile(inserted, tile)
  }

  /**
   * The tile a merge creates at `at`: double value, and `mergedFrom` the
   * moving tile (whose coordinates the move then sets to `at`) and the occupant.
   */
  function MergedTile(tile: Tile, other: Tile, at: Pos): (m: Tile)
    ensures Position(m) == at && m.previousPosition == None
    ensures tile.value == other.value && tile.value != 0 ==> m.value == tile.value + other.value
    ensures m.mergedFrom.Some? && m.mergedFrom.value.target == other
    ensures var moved := m.mergedFrom.value.moved;
            Position(moved) == at && moved.value == tile.value && moved.mergedFrom == tile.mergedFrom
  {
    NewTile(at, tile.value * 2).(mergedFrom := Some(TilePair(UpdatePosition(tile, at), other)))
  }

  /** Whether the walk from a tile ends on an equal tile that was not itself made by a merge. */
  function CanMerge(b: Board, tile: Tile, next: Pos): (r: bool)
    requires IsSquare(b)
    ensures r <==> InBounds(next, |b|) && b[next.x][next.y].Some?
                   && b[next.x][next.y].value.value == tile.value
                   && b[next.x][next.y].value.mergedFrom.None?
  {
    var other := CellContent(b, next);
    other.Some? && other.value.value == tile.value && other.value.mergedFrom.None?
  }

  /** What a move has produced so far: the grid, `score`, `won` and the local `moved` flag. */
  datatype MoveState = MoveState(board: Board, score: int, won: bool, moved: bool)

  /**
   * The body of the traversal for one cell: an empty cell is skipped; a tile
   * merges into `next` when CanMerge holds, and otherwise slides to
   * `farthest`; `moved` records whether the tile left its cell.
   */
  function MoveCell(st: MoveState, cell: Pos, v: Pos): (r: MoveState)
    requires ValidBoard(st.board) && IsUnit(v)
    ensures ValidBoard(r.board) && |r.board| == |st.board|
    ensures r.score >= st.score
    ensures st.won ==> r.won
    ensures st.moved ==> r.moved
  {
    var b := st.board;
    var content := CellContent(b, cell);
    if content.None? then st
    else
      var tile := content.value;
      var (farthest, next) := Farthest(b, cell, v);
      if CanMerge(b, tile, next) then
        var merged := MergedTile(tile, CellContent(b, next).value, next);
        assert ValidValue(merged.value) by {
          DoubleIsValid(tile.value);
        }
        MoveState(MergeOnBoard(b, tile, merged),
                  st.score + merged.value,
                  st.won || merged.value == 2048,
                  st.moved || !PositionsEqual(cell, next))
      else
        MoveState(MoveTileTo(b, tile, farthest),
                  st.score,
                  st.won,
                  st.moved || !PositionsEqual(cell, farthest))
  }

  /** The cell the walk stops at is never the starting cell: a walk takes at least one step. */
  lemma NextIsNotStart(b: Board, cell: Pos, v: Pos)
    requires IsSquare(b) && IsUnit(v)
    ensures Farthest(b, cell, v).1 != cell
  {
    StepBeyondLeaves(cell, v, FarthestSteps(b, cell, v));
  }

  /** One step past any number of steps along a unit vector never returns to the start. */
  lemma StepBeyondLeaves(c: Pos, v: Pos, k: nat)
    requires IsUnit(v)
    ensures Add(Shift(c, v, k), v) != c
  {
    if v == Pos(0, 1) {
      assert Shift(c, v, k) == Pos(c.x, c.y + k);
    } else if v == Pos(0, -1) {
      assert Shift(c, v, k) == Pos(c.x, c.y - k);
    } else if v == Pos(1, 0) {
      assert Shift(c, v, k) == Pos(c.x + k, c.y);
    } else {
      assert Shift(c, v, k) == Pos(c.x - k, c.y);
    }
  }

  /**
   * A merge step: the two tiles become one tile of twice the value at the
   * cell the walk stopped on, the score grows by exactly that value, `won`
   * becomes true exactly when it is 2048, and the step always counts as a
   * move.
   */
  lemma MergeStep(st: MoveState, cell: Pos, v: Pos, tile: Tile)
    requires ValidBoard(st.board) && IsUnit(v)
    requires CellContent(st.board, cell) == Some(tile)
    requires CanMerge(st.board, tile, Farthest(st.board, cell, v).1)
    ensures var next := Farthest(st.board, cell, v).1;
            var merged := MergedTile(tile, CellContent(st.board, next).value, next);
            && merged.value == 2 * tile.value
            && ValidValue(merged.value)
            && InBounds(cell, |st.board|) && InBounds(next, |st.board|) && next != cell
            && MoveCell(st, cell, v)
               == MoveState(MergeOnBoard(st.board, tile, merged),
                            st.score + 2 * tile.value,
                            st.won || 2 * tile.value == 2048,
                            true)
  {
    NextIsNotStart(st.board, cell, v);
    DoubleIsValid(tile.value);
  }

  /** A slide step: the tile goes to the farthest free cell; score and `won` are unchanged. */
  lemma SlideStep(st: MoveState, cell: Pos, v: Pos, tile: Tile)
    requires ValidBoard(st.board) && IsUnit(v)
    requires CellContent(st.board, cell) == Some(tile)
    requires !CanMerge(st.board, tile, Farthest(st.board, cell, v).1)
    ensures var farthest := Farthest(st.board, cell, v).0;
            && InBounds(cell, |st.board|) && InBounds(farthest, |st.board|)
            && MoveCell(st, cell, v)
               == MoveState(MoveTileTo(st.board, tile, farthest),
                            st.score,
                            st.won,
                            st.moved || farthest != cell)
  {
  }

  /** The inner loop: the cells (x, ys[0]), (x, ys[1]), ... in order. */
  function MoveColumn(st: MoveState, x: int, ys: seq<int>, v: Pos): (r: MoveState)
    requires ValidBoard(st.board) && IsUnit(v)
    ensures ValidBoard(r.board) && |r.board| == |st.board|
    ensures r.score >= st.score
    ensures st.won ==> r.won
    ensures st.moved ==> r.moved
    decreases |ys|
  {
    if ys == [] then st
    else MoveCell(MoveColumn(st, x, ys[..|ys| - 1], v), Pos(x, ys[|ys| - 1]), v)
  }

  /** The outer loop: every x of `xs` in order, each with the whole inner loop. */
  function MoveAll(st: MoveState, xs: seq<int>, ys: seq<int>, v: Pos): (r: MoveState)
    requires ValidBoard(st.board) && IsUnit(v)
    ensures ValidBoard(r.board) && |r.board| == |st.board|
    ensures r.score >= st.score
    ensures st.won ==> r.won
    ensures st.moved ==> r.moved
    decreases |xs|
  {
    if xs == [] then st
    else MoveColumn(MoveAll(st, xs[..|xs| - 1], ys, v), xs[|xs| - 1], ys, v)
  }

  // ---------------------------------------------------------------------
  // prepareTiles

  /** `mergedFrom = null; savePosition()`. */
  function PrepareTile(t: Tile): (r: Tile)
    ensures Position(r) == Position(t) && r.value == t.value
    ensures r.mergedFrom == None && r.previousPosition == Some(Position(t))
  {
    SavePosition(t.(mergedFrom := None))
  }

  function PrepareCell(c: Option<Tile>): Option<Tile>
  {
    if c.Some? then Some(PrepareTile(c.value)) else None
  }

  /** Every tile on the grid prepared; the cells' occupancy is unchanged. */
  function PrepareBoard(b: Board): (r: Board)
    requires IsSquare(b)
    ensures IsSquare(r) && |r| == |b|
    ensures forall x, y :: 0 <= x < |b| && 0 <= y < |b| ==> r[x][y] == PrepareCell(b[x][y])
    ensures ValidBoard(b) ==> ValidBoard(r)
  {
    seq(|b|, x requires 0 <= x < |b| => seq(|b|, y requires 0 <= y < |b| => PrepareCell(b[x][y])))
  }

  // ---------------------------------------------------------------------
  // Spawning a tile

  /** The two `Math.random()` results one spawn draws: first the value, then the cell. */
  datatype Draw = Draw(value: real, cell: real)

  predicate ValidDraw(d: Draw)
  {
    0.0 <= d.value < 1.0 && 0.0 <= d.cell < 1.0
  }

  predicate ValidDraws(ds: seq<Draw>)
  {
    forall i :: 0 <= i < |ds| ==> ValidDraw(ds[i])
  }

  /** `Math.random() < 0.9 ? 2 : 4`. */
  function SpawnValue(d: Draw): (v: int)
    ensures v == 2 || v == 4
  {
    if d.value < 0.9 then 2 else 4
  }

  /** `Math.floor(r * len)` for r in [0, 1): an index into a list of length len. */
  function PickIndex(r: real, len: nat): (i: nat)
    requires 0.0 <= r < 1.0 && len > 0
    ensures i < len
  {
    assert r * len as real < len as real;
    (r * len as real).Floor
  }

  /** `randomAvailableCell`: the picked empty cell, absent when there is none. */
  function RandomAvailableCell(b: Board, r: real): (p: Option<Pos>)
    requires IsSquare(b) && 0.0 <= r < 1.0
    ensures p.Some? <==> !IsFull(b)
    ensures p.Some? ==> InBounds(p.value, |b|) && b[p.value.x][p.value.y].None?
  {
    AvailableCellsSpec(b);
    var cells := AvailableCells(b);
    if |cells| > 0 then Some(cells[PickIndex(r, |cells|)]) else None
  }

  /** `addRandomTile`: when a cell is available, a new 2 or 4 at the picked cell. */
  function AddRandomTile(b: Board, d: Draw): (r: Board)
    requires ValidBoard(b) && ValidDraw(d)
    ensures ValidBoard(r) && |r| == |b|
  {
    AvailableCellsSpec(b);
    if |AvailableCells(b)| > 0 then
      InsertTile(b, NewTile(RandomAvailableCell(b, d.cell).value, SpawnValue(d)))
    else b
  }

  /** `addStartTiles`: one addRandomTile per draw, in order. */
  function AddStartTiles(b: Board, draws: seq<Draw>): (r: Board)
    requires ValidBoard(b) && ValidDraws(draws)
    ensures ValidBoard(r) && |r| == |b|
    decreases |draws|
  {
    if draws == [] then b
    else AddRandomTile(AddStartTiles(b, draws[..|draws| - 1]), draws[|draws| - 1])
  }

  // ---------------------------------------------------------------------
  // Terminal state

  /** The tile at (x, y) has an equal-valued tile at its neighbour in direction d. */
  predicate EqualNeighbour(b: Board, x: int, y: int, d: Direction)
    requires IsSquare(b) && 0 <= x < |b| && 0 <= y < |b| && b[x][y].Some?
  {
    var v := GetVector(d);
    var other := CellContent(b, Pos(x + v.x, y + v.y));
    other.Some? && other.value.value == b[x][y].value.value
  }

  /** The cell (x, y) holds a tile with an orthogonal neighbour of equal value. */
  predicate MatchAt(b: Board, x: int, y: int)
    requires IsSquare(b) && 0 <= x < |b| && 0 <= y < |b|
  {
    b[x][y].Some? && exists d: Direction :: EqualNeighbour(b, x, y, d)
  }

  /** `tileMatchesAvailable`: some occupied cell has an orthogonal neighbour of equal value. */
  predicate TileMatchesAvailable(b: Board)
    requires IsSquare(b)
  {
    exists x: int, y: int :: 0 <= x < |b| && 0 <= y < |b| && MatchAt(b, x, y)
  }

  /** `movesAvailable`: an empty cell, or a possible merge. */
  predicate MovesAvailable(b: Board)
    requires IsSquare(b)
  {
    |AvailableCells(b)| > 0 || TileMatchesAvailable(b)
  }

  // ---------------------------------------------------------------------
  // The whole game state

  /** What GameManager keeps besides its fixed size: grid, score and the three flags. */
  datatype GameState = GameState(board: Board, score: int, over: bool, won: bool, keepPlaying: bool)

  predicate ValidGame(g: GameState)
  {
    ValidBoard(g.board) && g.score >= 0
  }

  /** `isGameTerminated`: lost, or won while the player has not chosen to keep playing. */
  predicate IsTerminated(over: bool, won: bool, keepPlaying: bool)
  {
    over || (won && !keepPlaying)
  }

  /** The tile loop of `move`: prepare every tile, then traverse in the order for `v`. */
  function SlideAll(g: GameState, v: Pos): (r: MoveState)
    requires ValidGame(g) && IsUnit(v)
    ensures ValidBoard(r.board) && |r.board| == |g.board|
    ensures r.score >= g.score && (g.won ==> r.won)
  {
    var n := |g.board|;
    MoveAll(MoveState(PrepareBoard(g.board), g.score, g.won, false), Traversal(n, v.x), Traversal(n, v.y), v)
  }

  /**
   * `move(direction)`: nothing when the game is terminated; otherwise the
   * tile loop, and when some tile moved, a spawn followed by the game-over test.
   */
  function MoveGame(g: GameState, d: Direction, draw: Draw): (r: GameState)
    requires ValidGame(g) && ValidDraw(draw)
    ensures ValidGame(r) && |r.board| == |g.board|
    ensures r.keepPlaying == g.keepPlaying
    ensures r.score >= g.score && (g.won ==> r.won) && (g.over ==> r.over)
    ensures IsTerminated(g.over, g.won, g.keepPlaying) ==> r == g
  {
    if IsTerminated(g.over, g.won, g.keepPlaying) then g
    else
      var after := SlideAll(g, GetVector(d));
      if !after.moved then
        g.(board := after.board, score := after.score, won := after.won)
      else
        var b := AddRandomTile(after.board, draw);
        g.(board := b, score := after.score, won := after.won, over := g.over || !MovesAvailable(b))
  }

  /** `setup` without a saved game: empty grid, two start tiles, score 0, all flags false. */
  function NewGame(n: nat, startTiles: nat, draws: seq<Draw>): (g: GameState)
    requires ValidDraws(draws) && |draws| >= startTiles
    ensures ValidGame(g) && |g.board| == n
  {
    GameState(AddStartTiles(EmptyBoard(n), draws[..startTiles]), 0, false, false, false)
  }

  // ---------------------------------------------------------------------
  // Saved game

  /** `Grid.serialize()`: `{size, cells}`. */
  datatype GridState = GridState(size: nat, cells: seq<seq<Option<SerializedTile>>>)

  /** `GameManager.serialize()`: `{grid, score, over, won, keepPlaying}`. */
  datatype GameSnapshot = GameSnapshot(grid: GridState, score: int, over: bool, won: bool, keepPlaying: bool)

  function SerializeGame(g: GameState): (s: GameSnapshot)
    ensures s.grid.size == |g.board| && |s.grid.cells| == |g.board|
    ensures forall x :: 0 <= x < |g.board| ==> |s.grid.cells[x]| == |g.board[x]|
    ensures forall x, y :: 0 <= x < |g.board| && 0 <= y < |g.board[x]| ==>
      s.grid.cells[x][y] == SerializeCell(g.board[x][y])
    ensures s.score == g.score && s.over == g.over && s.won == g.won && s.keepPlaying == g.keepPlaying
  {
    GameSnapshot(GridState(|g.board|, SerializeCells(g.board)), g.score, g.over, g.won, g.keepPlaying)
  }

  /**
   * The storage side of `actuate`: the best score becomes the score when
   * that is higher; the saved game is cleared when the game is over and is
   * the serialized game otherwise.
   */
  function ActuateStorage(g: GameState, best: int): (r: (int, Option<GameSnapshot>))
    ensures r.0 >= best && r.0 >= g.score && (r.0 == best || r.0 == g.score)
    ensures r.1.None? <==> g.over
    ensures r.1.Some? ==> r.1.value == SerializeGame(g)
  {
    (if best < g.score then g.score else best, if g.over then None else Some(SerializeGame(g)))
  }

  /** The state `setup` rebuilds from a saved game. */
  function RestoreGame(s: GameSnapshot): (g: GameState)
    requires |s.grid.cells| >= s.grid.size
    ensures |g.board| == s.grid.size && IsSquare(g.board)
    ensures forall x, y :: 0 <= x < s.grid.size && 0 <= y < s.grid.size ==>
      g.board[x][y] == RestoredAt(s.grid.cells, x, y)
    ensures g.score == s.score && g.over == s.over && g.won == s.won && g.keepPlaying == s.keepPlaying
  {
    GameState(RestoreCells(s.grid.size, s.grid.cells), s.score, s.over, s.won, s.keepPlaying)
  }

  /** A saved game this model can resume from: its grid rebuilds into a valid n×n grid. */
  predicate ResumableSnapshot(s: GameSnapshot, n: nat)
  {
    s.grid.size == n && |s.grid.cells| >= n && ValidGame(RestoreGame(s))
  }
}
