/**
 * The grid object: a fixed `size`×`size` matrix of cells, written in place,
 * indexed `cells[x, y]` (column first).
 */
module Grids {
  import opened Wrappers
  import opened Tiles
  import opened Boards
  import opened Rules

  class Grid {
    const size: nat
    const cells: array2<Option<Tile>>

    /** The matrix has the grid's size in both dimensions. */
    ghost predicate Shaped()
    {
      cells.Length0 == size && cells.Length1 == size
    }

    /** The matrix as a value. */
    ghost function Cells(): (b: Board)
      reads this, cells
      requires Shaped()
      ensures |b| == size && IsSquare(b)
      ensures forall x, y :: 0 <= x < size && 0 <= y < size ==> b[x][y] == cells[x, y]
    {
      seq(size, x requires 0 <= x < cells.Length0 reads cells =>
        seq(size, y requires 0 <= y < cells.Length1 reads cells => cells[x, y]))
    }

    /** `new Grid(size)` through `empty()`: every cell null. */
    constructor Empty(size: nat)
      ensures Shaped() && this.size == size && fresh(cells)
      ensures Cells() == EmptyBoard(size)
    {
      var c := new Option<Tile>[size, size];
      var x := 0;
      while x < size
        invariant 0 <= x <= size
        invariant forall i, j :: 0 <= i < x && 0 <= j < size ==> c[i, j] == None
      {
        var y := 0;
        while y < size
          invariant 0 <= y <= size
          invariant forall i, j :: 0 <= i < x && 0 <= j < size ==> c[i, j] == None
          invariant forall j :: 0 <= j < y ==> c[x, j] == None
        {
          c[x, y] := None;
          y := y + 1;
        }
        x := x + 1;
      }
      this.size := size;
      cells := c;
      new;
      assert forall i :: 0 <= i < size ==> Cells()[i] == EmptyBoard(size)[i];
    }

    /**
     * `new Grid(size, previousState)` through `fromState`: each saved tile is
     * rebuilt at its saved position with its saved value and no scratch
     * fields; a null or missing entry gives a null cell.
     */
    constructor FromState(size: nat, state: seq<seq<Option<SerializedTile>>>)
      requires |state| >= size
      ensures Shaped() && this.size == size && fresh(cells)
      ensures Cells() == RestoreCells(size, state)
    {
      var c := new Option<Tile>[size, size];
      var x := 0;
      while x < size
        invariant 0 <= x <= size
        invariant forall i, j :: 0 <= i < x && 0 <= j < size ==> c[i, j] == RestoredAt(state, i, j)
      {
        var y := 0;
        while y < size
          invariant 0 <= y <= size
          invariant forall i, j :: 0 <= i < x && 0 <= j < size ==> c[i, j] == RestoredAt(state, i, j)
          invariant forall j :: 0 <= j < y ==> c[x, j] == RestoredAt(state, x, j)
        {
          var tile := if y < |state[x]| then state[x][y] else None;
          c[x, y] := if tile.Some? then Some(NewTile(tile.value.position, tile.value.value)) else None;
          y := y + 1;
        }
        x := x + 1;
      }
      this.size := size;
      cells := c;
      new;
      assert forall i :: 0 <= i < size ==> Cells()[i] == RestoreCells(size, state)[i];
    }

    /** `withinBounds`. */
    predicate WithinBounds(position: Pos)
      ensures WithinBounds(position) <==> InBounds(position, size)
    {
      0 <= position.x < size && 0 <= position.y < size
    }

    /** `cellContent`: null for every out-of-bounds position, otherwise the stored cell. */
    function CellContent(cell: Pos): (r: Option<Tile>)
      reads cells
      requires Shaped()
      ensures !InBounds(cell, size) ==> r == None
      ensures r == Boards.CellContent(Cells(), cell)
    {
      if WithinBounds(cell) then cells[cell.x, cell.y] else None
    }

    /** `cellOccupied`: a tile is there (never out of bounds). */
    predicate CellOccupied(cell: Pos)
      reads cells
      requires Shaped()
      ensures CellOccupied(cell) <==> InBounds(cell, size) && cells[cell.x, cell.y].Some?
    {
      CellContent(cell).Some?
    }

    /** `cellAvailable`: no tile there; every out-of-bounds position is available. */
    predicate CellAvailable(cell: Pos)
      reads cells
      requires Shaped()
      ensures CellAvailable(cell) <==> Boards.CellAvailable(Cells(), cell)
      ensures !InBounds(cell, size) ==> CellAvailable(cell)
    {
      !CellOccupied(cell)
    }

    /** `insertTile`: only the tile's own cell changes, and it now holds the tile. */
    method InsertTile(tile: Tile)
      requires Shaped() && InBounds(Position(tile), size)
      modifies cells
      ensures Cells() == Boards.InsertTile(old(Cells()), tile)
    {
      cells[tile.x, tile.y] := Some(tile);
      assert forall i :: 0 <= i < size ==> Cells()[i] == Boards.InsertTile(old(Cells()), tile)[i];
    }

    /** `removeTile`: only the tile's own cell changes, and it is now null. */
    method RemoveTile(tile: Tile)
      requires Shaped() && InBounds(Position(tile), size)
      modifies cells
      ensures Cells() == Boards.RemoveTile(old(Cells()), tile)
    {
      cells[tile.x, tile.y] := None;
      assert forall i :: 0 <= i < size ==> Cells()[i] == Boards.RemoveTile(old(Cells()), tile)[i];
    }

    /** `availableCells`: every empty cell, scanning x then y. */
    method AvailableCells() returns (r: seq<Pos>)
      requires Shaped()
      ensures r == Boards.AvailableCells(Cells())
    {
      ghost var b := Cells();
      r := [];
      var x := 0;
      while x < size
        invariant 0 <= x <= size
        invariant r == EmptyBefore(b, x)
      {
        var y := 0;
        while y < size
          invariant 0 <= y <= size
          invariant r == EmptyBefore(b, x) + EmptyInColumn(b, x, y)
        {
          if cells[x, y].None? {
            r := r + [Pos(x, y)];
          }
          y := y + 1;
        }
        x := x + 1;
      }
    }

    /** `cellsAvailable`: true iff some cell is empty. */
    method CellsAvailable() returns (r: bool)
      requires Shaped()
      ensures r <==> !IsFull(Cells())
      ensures r <==> |Boards.AvailableCells(Cells())| > 0
    {
      var available := AvailableCells();
      AvailableCellsSpec(Cells());
      r := |available| > 0;
    }

    /** `randomAvailableCell`: the empty cell at index floor(draw * count), absent when the grid is full. */
    method RandomAvailableCell(draw: real) returns (p: Option<Pos>)
      requires Shaped() && 0.0 <= draw < 1.0
      ensures p == Rules.RandomAvailableCell(Cells(), draw)
      ensures p.Some? <==> !IsFull(Cells())
      ensures p.Some? ==> InBounds(p.value, size) && cells[p.value.x, p.value.y].None?
    {
      var available := AvailableCells();
      if |available| > 0 {
        p := Some(available[PickIndex(draw, |available|)]);
      } else {
        p := None;
      }
    }

    /** `serialize`: the size and every cell in saved form. */
    method Serialize() returns (s: GridState)
      requires Shaped()
      ensures s == GridState(size, SerializeCells(Cells()))
    {
      ghost var saved := SerializeCells(Cells());
      var cellState: seq<seq<Option<SerializedTile>>> := [];
      var x := 0;
      while x < size
        invariant 0 <= x <= size
        invariant cellState == saved[..x]
      {
        var row: seq<Option<SerializedTile>> := [];
        var y := 0;
        while y < size
          invariant 0 <= y <= size
          invariant row == saved[x][..y]
        {
          row := row + [if cells[x, y].Some? then Some(SerializeTile(cells[x, y].value)) else None];
          y := y + 1;
        }
        assert row == saved[x];
        assert saved[..x + 1] == saved[..x] + [saved[x]];
        cellState := cellState + [row];
        x := x + 1;
      }
      assert saved[..size] == saved;
      s := GridState(size, cellState);
    }
  }
}
