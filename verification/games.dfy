/**
 * Spawning, starting and saving a game, proved about the functions in Rules:
 * a spawn adds exactly one 2 or 4 in an empty cell, a new game holds
 * `startTiles` such tiles (fewer only on a grid too small for them), a saved
 * game restores to itself, and the traversal order visits every cell once.
 */
module GameProperties {
  import opened Wrappers
  import opened Tiles
  import opened Boards
  import opened Rules
  import opened MoveProperties

  // ---------------------------------------------------------------------
  // Spawn

  /**
   * `addRandomTile`: when the grid is full nothing changes; otherwise exactly
   * one previously empty cell, the picked one, receives a fresh tile of
   * value 2 or 4, every other cell keeps its content, the grid holds one
   * tile more and the value sum grows by the new tile's value.
   */
  lemma AddRandomTileSpec(b: Board, d: Draw)
    requires ValidBoard(b) && ValidDraw(d)
    ensures IsFull(b) ==> AddRandomTile(b, d) == b
    ensures !IsFull(b) ==>
      var p := RandomAvailableCell(b, d.cell).value;
      var r := AddRandomTile(b, d);
      && InBounds(p, |b|) && b[p.x][p.y].None?
      && r[p.x][p.y] == Some(NewTile(p, SpawnValue(d)))
      && (r[p.x][p.y].value.value == 2 || r[p.x][p.y].value.value == 4)
      && r[p.x][p.y].value.previousPosition.None? && r[p.x][p.y].value.mergedFrom.None?
      && (forall x, y :: 0 <= x < |b| && 0 <= y < |b| && Pos(x, y) != p ==> r[x][y] == b[x][y])
      && TileCount(r) == TileCount(b) + 1
      && ValueSum(r) == ValueSum(b) + r[p.x][p.y].value.value
  {
    AvailableCellsSpec(b);
    if !IsFull(b) {
      var p := RandomAvailableCell(b, d.cell).value;
      var t := NewTile(p, SpawnValue(d));
      SetCellTotal(b, p, Some(t), Occupancy);
      SetCellTotal(b, p, Some(t), ValueOf);
    }
  }

  /** Every tile on the grid has value 2 or 4, as every spawned tile does. */
  predicate SpawnedValues(b: Board)
  {
    forall x, y :: 0 <= x < |b| && 0 <= y < |b[x]| && b[x][y].Some? ==>
      b[x][y].value.value == 2 || b[x][y].value.value == 4
  }

  function Min(a: int, b: int): int
  {
    if a <= b then a else b
  }

  /**
   * Each start tile is one more tile on the grid until the grid is full;
   * every tile placed is a 2 or a 4.
   */
  lemma {:induction false} StartTilesSpec(b: Board, draws: seq<Draw>)
    requires ValidBoard(b) && ValidDraws(draws) && SpawnedValues(b)
    ensures var r := AddStartTiles(b, draws);
            && TileCount(r) == Min(TileCount(b) + |draws|, |b| * |b|)
            && SpawnedValues(r)
    decreases |draws|
  {
    TileCountBound(b, |b|);
    if draws != [] {
      var front := AddStartTiles(b, draws[..|draws| - 1]);
      StartTilesSpec(b, draws[..|draws| - 1]);
      TileCountBound(front, |b|);
      AddRandomTileSpec(front, draws[|draws| - 1]);
    }
  }

  lemma {:induction false} EmptyColumnCount(col: seq<Option<Tile>>)
    requires forall y :: 0 <= y < |col| ==> col[y].None?
    ensures ColumnTotal(col, Occupancy) == 0
    decreases |col|
  {
    if col != [] {
      EmptyColumnCount(col[..|col| - 1]);
    }
  }

  lemma {:induction false} EmptyBoardCount(b: Board)
    requires forall x, y :: 0 <= x < |b| && 0 <= y < |b[x]| ==> b[x][y].None?
    ensures TileCount(b) == 0
    decreases |b|
  {
    if b != [] {
      EmptyColumnCount(b[|b| - 1]);
      EmptyBoardCount(b[..|b| - 1]);
    }
  }

  /**
   * `setup` without a saved game: score 0, no flag set, and `startTiles`
   * tiles of value 2 or 4 (all cells, when the grid has fewer).
   */
  lemma NewGameSpec(n: nat, startTiles: nat, draws: seq<Draw>)
    requires ValidDraws(draws) && |draws| >= startTiles
    ensures var g := NewGame(n, startTiles, draws);
            && TileCount(g.board) == Min(startTiles, n * n)
            && SpawnedValues(g.board)
            && g.score == 0 && !g.over && !g.won && !g.keepPlaying
  {
    var e := EmptyBoard(n);
    EmptyBoardCount(e);
    assert ValidDraws(draws[..startTiles]);
    StartTilesSpec(e, draws[..startTiles]);
  }

  /**
   * A whole `move` on a game that is not terminated: the sum of tile values
   * grows by exactly the spawned tile's value, and the tile count falls by
   * one per merge and grows by one for the spawn. A tile is spawned when
   * some tile moved and the grid has room.
   */
  lemma MoveGameConserves(g: GameState, d: Direction, draw: Draw)
    requires ValidGame(g) && ValidDraw(draw) && !IsTerminated(g.over, g.won, g.keepPlaying)
    ensures var v := GetVector(d);
            var after := SlideAll(g, v);
            var spawned := after.moved && !IsFull(after.board);
            var r := MoveGame(g, d, draw);
            && ValueSum(r.board) == ValueSum(g.board) + (if spawned then SpawnValue(draw) else 0)
            && TileCount(r.board) == TileCount(g.board) - SlideMerges(g, v) + (if spawned then 1 else 0)
  {
    var v := GetVector(d);
    var after := SlideAll(g, v);
    SlideAllConserves(g, v);
    if after.moved {
      AddRandomTileSpec(after.board, draw);
    }
  }

  // ---------------------------------------------------------------------
  // Saved games

  /**
   * A serialized game restores to the same game, with every tile's
   * per-turn fields reset, and it is a snapshot the manager can resume.
   */
  lemma GameRoundTrip(g: GameState)
    requires ValidGame(g)
    ensures ResumableSnapshot(SerializeGame(g), |g.board|)
    ensures RestoreGame(SerializeGame(g)) == g.(board := ClearBoard(g.board))
  {
    GridRoundTrip(g.board);
  }

  /** Saving the restored game gives back the snapshot it was restored from. */
  lemma SnapshotRoundTrip(g: GameState)
    requires ValidGame(g)
    ensures SerializeGame(RestoreGame(SerializeGame(g))) == SerializeGame(g)
  {
    GridRoundTrip(g.board);
    var c := ClearBoard(g.board);
    var s, t := SerializeCells(c), SerializeCells(g.board);
    forall x | 0 <= x < |g.board|
      ensures s[x] == t[x]
    {
      assert |s[x]| == |t[x]|;
    }
  }

  /** What the manager saves after an update: nothing once the game is over, the serialized game otherwise. */
  lemma ActuateSavesResumable(g: GameState, best: int)
    requires ValidGame(g)
    ensures var (_, saved) := ActuateStorage(g, best);
            saved.Some? ==> ResumableSnapshot(saved.value, |g.board|) && RestoreGame(saved.value) == g.(board := ClearBoard(g.board))
  {
    GameRoundTrip(g);
  }

  // ---------------------------------------------------------------------
  // Traversal order

  /**
   * `buildTraversals`: each axis lists 0..n-1 exactly once, so the x-outer,
   * y-inner loop of `move` visits every cell exactly once.
   */
  lemma TraversalVisitsEachOnce(n: nat, component: int)
    ensures var r := Traversal(n, component);
            && (forall k :: 0 <= k < n ==> k in r)
            && (forall i, j :: 0 <= i < j < n ==> r[i] != r[j])
            && (forall i :: 0 <= i < n ==> 0 <= r[i] < n)
  {
    var r := Traversal(n, component);
    forall k | 0 <= k < n
      ensures k in r
    {
      var i := if component == 1 then n - 1 - k else k;
      assert r[i] == k;
    }
  }
}
