/**
 * A concrete move: on a 3×3 grid whose row y = 0 holds 2, 2, c (any tile
 * value c) and whose other cells are empty, a move left merges the first
 * two tiles into a 4 and slides the third next to it. The tile made by the
 * merge is not merged again in the same move, even when c is 4 and an
 * equal tile arrives next to it.
 */
module Scenarios {
  import opened Wrappers
  import opened Tiles
  import opened Boards
  import opened Rules

  /** The vector of direction 3, left. */
  const Left := Pos(-1, 0)

  /** The starting game: 2, 2, c along y = 0, score 0, no flag set. */
  function Start(c: int): GameState
  {
    GameState([[Some(Tile(0, 0, 2, None, None)), None, None],
               [Some(Tile(1, 0, 2, None, None)), None, None],
               [Some(Tile(2, 0, c, None, None)), None, None]], 0, false, false, false)
  }

  /** The values along row y = 0 of a 3×3 grid, 0 for an empty cell. */
  function RowValues(b: Board): seq<int>
    requires |b| == 3 && IsSquare(b)
  {
    [ValueOf(b[0][0]), ValueOf(b[1][0]), ValueOf(b[2][0])]
  }

  /** Every cell outside row y = 0 of a 3×3 grid is empty. */
  predicate OnlyRow(b: Board)
    requires |b| == 3 && IsSquare(b)
  {
    forall x, y :: 0 <= x < 3 && 1 <= y < 3 ==> b[x][y].None?
  }

  /** The inner loop's last cell is processed after all the others. */
  lemma ColumnLast(st: MoveState, x: int, ys: seq<int>, y: int, v: Pos)
    requires ValidBoard(st.board) && IsUnit(v)
    ensures MoveColumn(st, x, ys + [y], v) == MoveCell(MoveColumn(st, x, ys, v), Pos(x, y), v)
  {
    assert (ys + [y])[..|ys|] == ys;
  }

  /** The outer loop's last column is processed after all the others. */
  lemma AllLast(st: MoveState, xs: seq<int>, x: int, ys: seq<int>, v: Pos)
    requires ValidBoard(st.board) && IsUnit(v)
    ensures MoveAll(st, xs + [x], ys, v) == MoveColumn(MoveAll(st, xs, ys, v), x, ys, v)
  {
    assert (xs + [x])[..|xs|] == xs;
  }

  /** One column of a 3×3 grid is the cells (x, 0), (x, 1), (x, 2) in that order. */
  lemma ColumnSteps(st: MoveState, x: int, v: Pos)
    requires ValidBoard(st.board) && IsUnit(v)
    ensures MoveColumn(st, x, [0, 1, 2], v)
         == MoveCell(MoveCell(MoveCell(st, Pos(x, 0), v), Pos(x, 1), v), Pos(x, 2), v)
  {
    ColumnLast(st, x, [], 0, v);
    ColumnLast(st, x, [0], 1, v);
    ColumnLast(st, x, [0, 1], 2, v);
    assert [] + [0] == [0] && [0] + [1] == [0, 1] && [0, 1] + [2] == [0, 1, 2];
  }

  /** A move left on a 3×3 grid is column 0, then column 1, then column 2. */
  lemma LeftSteps(st: MoveState, ys: seq<int>)
    requires ValidBoard(st.board)
    ensures MoveAll(st, Traversal(3, -1), ys, Left)
         == MoveColumn(MoveColumn(MoveColumn(st, 0, ys, Left), 1, ys, Left), 2, ys, Left)
  {
    var v := Left;
    assert Traversal(3, -1) == [0, 1, 2];
    var a1 := MoveAll(st, [0], ys, v);
    assert a1 == MoveColumn(st, 0, ys, v) by {
      AllLast(st, [], 0, ys, v);
      assert [] + [0] == [0];
    }
    var a2 := MoveAll(st, [0, 1], ys, v);
    assert a2 == MoveColumn(a1, 1, ys, v) by {
      AllLast(st, [0], 1, ys, v);
      assert [0] + [1] == [0, 1];
    }
    assert MoveAll(st, [0, 1, 2], ys, v) == MoveColumn(a2, 2, ys, v) by {
      AllLast(st, [0, 1], 2, ys, v);
      assert [0, 1] + [2] == [0, 1, 2];
    }
  }

  /** The tile of value `value` at (x, 0), as `prepareTiles` leaves it. */
  function Prepared(x: int, value: int): Tile
  {
    Tile(x, 0, value, Some(Pos(x, 0)), None)
  }

  /** The 4 made at (0, 0) from the two 2s. */
  function Merged(): Tile
  {
    MergedTile(Prepared(1, 2), Prepared(0, 2), Pos(0, 0))
  }

  /** Before the traversal: the prepared starting grid. */
  function Board0(c: int): Board
  {
    [[Some(Prepared(0, 2)), None, None], [Some(Prepared(1, 2)), None, None], [Some(Prepared(2, c)), None, None]]
  }

  /** After column 1: the new 4 at (0, 0), the third tile still at (2, 0). */
  function Board1(c: int): Board
  {
    [[Some(Merged()), None, None], [None, None, None], [Some(Prepared(2, c)), None, None]]
  }

  /** After column 2: the third tile beside the new 4. */
  function Board2(c: int): Board
  {
    [[Some(Merged()), None, None], [Some(UpdatePosition(Prepared(2, c), Pos(1, 0))), None, None], [None, None, None]]
  }

  /** 2 and 4, the values a spawn produces, are tile values. */
  lemma SmallValues()
    ensures ValidValue(2) && ValidValue(4)
  {
    assert IsPowerOfTwo(1);
    assert IsPowerOfTwo(2);
  }

  /** The prepared starting grid is well formed, with its three tiles along y = 0. */
  lemma Board0Valid(c: int)
    requires ValidValue(c)
    ensures ValidBoard(Board0(c)) && |Board0(c)| == 3
    ensures Board0(c)[0][0] == Some(Prepared(0, 2)) && Board0(c)[1][0] == Some(Prepared(1, 2))
    ensures Board0(c)[2][0] == Some(Prepared(2, c))
  {
    SmallValues();
  }

  /** `prepareTiles` on the starting grid gives Board0. */
  lemma PrepareStart(c: int)
    requires ValidValue(c)
    ensures ValidGame(Start(c)) && PrepareBoard(Start(c).board) == Board0(c)
  {
    SmallValues();
    var b0 := PrepareBoard(Start(c).board);
    assert b0[0] == Board0(c)[0];
    assert b0[1] == Board0(c)[1];
    assert b0[2] == Board0(c)[2];
  }

  /** The walk stops at once when the next cell is off the grid or taken. */
  lemma FarthestStops(b: Board, cell: Pos, v: Pos)
    requires IsSquare(b) && IsUnit(v)
    requires !InBounds(Add(cell, v), |b|) || CellOccupied(b, Add(cell, v))
    ensures Farthest(b, cell, v) == (cell, Add(cell, v))
  {
  }

  /** The walk goes on through a free cell. */
  lemma FarthestGoesOn(b: Board, cell: Pos, v: Pos)
    requires IsSquare(b) && IsUnit(v)
    requires InBounds(Add(cell, v), |b|) && CellAvailable(b, Add(cell, v))
    ensures Farthest(b, cell, v) == Farthest(b, Add(cell, v), v)
  {
  }

  /** A tile whose walk ends on an equal tile not made by a merge merges into it. */
  lemma MergeInto(st: MoveState, cell: Pos, v: Pos, tile: Tile, next: Pos, other: Tile, merged: Tile)
    requires ValidBoard(st.board) && IsUnit(v)
    requires CellContent(st.board, cell) == Some(tile) && Farthest(st.board, cell, v).1 == next
    requires CellContent(st.board, next) == Some(other)
    requires other.value == tile.value && other.mergedFrom.None?
    requires merged == MergedTile(tile, other, next)
    ensures && InBounds(cell, |st.board|) && InBounds(next, |st.board|)
            && merged.value == 2 * tile.value && ValidValue(merged.value)
            && MoveCell(st, cell, v)
               == MoveState(MergeOnBoard(st.board, tile, merged),
                            st.score + merged.value, st.won || merged.value == 2048, true)
  {
    MergeStep(st, cell, v, tile);
  }

  /** A tile whose walk does not end on a tile it can merge with slides to the farthest free cell. */
  lemma SlideInto(st: MoveState, cell: Pos, v: Pos, tile: Tile, farthest: Pos, after: Board)
    requires ValidBoard(st.board) && IsUnit(v)
    requires CellContent(st.board, cell) == Some(tile) && Farthest(st.board, cell, v).0 == farthest
    requires !CanMerge(st.board, tile, Farthest(st.board, cell, v).1)
    requires InBounds(farthest, |st.board|) && MoveTileTo(st.board, tile, farthest) == after
    ensures MoveCell(st, cell, v) == MoveState(after, st.score, st.won, st.moved || farthest != cell)
  {
    SlideStep(st, cell, v, tile);
  }

  /** An empty cell is skipped. */
  lemma EmptyStep(st: MoveState, cell: Pos, v: Pos)
    requires ValidBoard(st.board) && IsUnit(v) && CellContent(st.board, cell).None?
    ensures MoveCell(st, cell, v) == st
  {
  }

  /** A column whose cells (x, 1) and (x, 2) stay empty changes only through its cell (x, 0). */
  lemma ColumnOfOne(st: MoveState, x: int, v: Pos)
    requires ValidBoard(st.board) && IsUnit(v) && |st.board| == 3 && 0 <= x < 3
    requires MoveCell(st, Pos(x, 0), v).board[x][1].None? && MoveCell(st, Pos(x, 0), v).board[x][2].None?
    ensures MoveColumn(st, x, [0, 1, 2], v) == MoveCell(st, Pos(x, 0), v)
  {
    ColumnSteps(st, x, v);
    var s1 := MoveCell(st, Pos(x, 0), v);
    EmptyStep(s1, Pos(x, 1), v);
    EmptyStep(s1, Pos(x, 2), v);
  }

  /** Column 0: the tile at (0, 0) is already against the edge; nothing changes. */
  lemma FirstColumn(c: int)
    requires ValidValue(c)
    ensures ValidBoard(Board0(c))
    ensures MoveColumn(MoveState(Board0(c), 0, false, false), 0, Traversal(3, 0), Left)
         == MoveState(Board0(c), 0, false, false)
  {
    assert Traversal(3, 0) == [0, 1, 2];
    Board0Valid(c);
    var st := MoveState(Board0(c), 0, false, false);
    FarthestStops(st.board, Pos(0, 0), Left);
    SlideStep(st, Pos(0, 0), Left, Prepared(0, 2));
    var b := MoveTileTo(st.board, Prepared(0, 2), Pos(0, 0));
    assert b[0] == st.board[0];
    assert b[1] == st.board[1];
    assert b[2] == st.board[2];
    ColumnOfOne(st, 0, Left);
  }

  /** The grid after the merge of column 1. */
  lemma MergedBoard(c: int)
    requires ValidValue(c)
    ensures ValidBoard(Board0(c)) && ValidValue(Merged().value)
    ensures MergeOnBoard(Board0(c), Prepared(1, 2), Merged()) == Board1(c)
  {
    Board0Valid(c);
    SmallValues();
    var b1 := MergeOnBoard(Board0(c), Prepared(1, 2), Merged());
    assert b1[0] == Board1(c)[0];
    assert b1[1] == Board1(c)[1];
    assert b1[2] == Board1(c)[2];
  }

  /** The 2 at (1, 0) merges into the 2 at (0, 0), scoring 4. */
  lemma SecondStep(c: int)
    requires ValidValue(c)
    ensures ValidBoard(Board0(c))
    ensures MoveCell(MoveState(Board0(c), 0, false, false), Pos(1, 0), Left)
         == MoveState(Board1(c), 4, false, true)
  {
    Board0Valid(c);
    var st := MoveState(Board0(c), 0, false, false);
    assert Farthest(st.board, Pos(1, 0), Left).1 == Pos(0, 0) by {
      assert CellOccupied(st.board, Pos(0, 0));
      FarthestStops(st.board, Pos(1, 0), Left);
    }
    MergeInto(st, Pos(1, 0), Left, Prepared(1, 2), Pos(0, 0), Prepared(0, 2), Merged());
    MergedBoard(c);
  }

  /** Column 1: the merge is the only change. */
  lemma SecondColumn(c: int)
    requires ValidValue(c)
    ensures ValidBoard(Board0(c))
    ensures MoveColumn(MoveState(Board0(c), 0, false, false), 1, Traversal(3, 0), Left)
         == MoveState(Board1(c), 4, false, true)
  {
    assert Traversal(3, 0) == [0, 1, 2];
    SecondStep(c);
    ColumnOfOne(MoveState(Board0(c), 0, false, false), 1, Left);
  }

  /** The grid after the merge is well formed; the new 4 carries its `mergedFrom` pair. */
  lemma Board1Valid(c: int)
    requires ValidValue(c)
    ensures ValidBoard(Board1(c)) && |Board1(c)| == 3
    ensures Board1(c)[0][0] == Some(Merged()) && Board1(c)[1][0] == None
    ensures Board1(c)[2][0] == Some(Prepared(2, c))
    ensures Merged().value == 4 && Merged().mergedFrom.Some?
  {
    MergedBoard(c);
  }

  /** The grid after the slide of column 2. */
  lemma SlidBoard(c: int)
    requires ValidValue(c)
    ensures ValidBoard(Board1(c))
    ensures MoveTileTo(Board1(c), Prepared(2, c), Pos(1, 0)) == Board2(c)
  {
    MergedBoard(c);
    var b2 := MoveTileTo(Board1(c), Prepared(2, c), Pos(1, 0));
    assert b2[0] == Board2(c)[0];
    assert b2[1] == Board2(c)[1];
    assert b2[2] == Board2(c)[2];
  }

  /** The walk of the tile at (2, 0) stops at (1, 0), beside the new 4, which it cannot merge with. */
  lemma ThirdWalk(c: int)
    requires ValidValue(c)
    ensures ValidBoard(Board1(c))
    ensures Farthest(Board1(c), Pos(2, 0), Left) == (Pos(1, 0), Pos(0, 0))
    ensures !CanMerge(Board1(c), Prepared(2, c), Pos(0, 0))
  {
    Board1Valid(c);
    var b := Board1(c);
    assert CellOccupied(b, Pos(0, 0)) && CellAvailable(b, Pos(1, 0));
    FarthestStops(b, Pos(1, 0), Left);
    FarthestGoesOn(b, Pos(2, 0), Left);
  }

  /** The tile at (2, 0) slides to (1, 0) and does not merge with the new 4. */
  lemma ThirdStep(c: int)
    requires ValidValue(c)
    ensures ValidBoard(Board1(c))
    ensures MoveCell(MoveState(Board1(c), 4, false, true), Pos(2, 0), Left)
         == MoveState(Board2(c), 4, false, true)
  {
    ThirdWalk(c);
    Board1Valid(c);
    SlidBoard(c);
    SlideInto(MoveState(Board1(c), 4, false, true), Pos(2, 0), Left, Prepared(2, c), Pos(1, 0), Board2(c));
  }

  /** Column 2: the slide is the only change. */
  lemma ThirdColumn(c: int)
    requires ValidValue(c)
    ensures ValidBoard(Board1(c))
    ensures MoveColumn(MoveState(Board1(c), 4, false, true), 2, Traversal(3, 0), Left)
         == MoveState(Board2(c), 4, false, true)
  {
    assert Traversal(3, 0) == [0, 1, 2];
    ThirdStep(c);
    ColumnOfOne(MoveState(Board1(c), 4, false, true), 2, Left);
  }

  /** The row after the move reads 4, c, empty, and the rest of the grid is still empty. */
  lemma FinalRow(c: int)
    requires ValidValue(c)
    ensures IsSquare(Board2(c)) && |Board2(c)| == 3
    ensures RowValues(Board2(c)) == [4, c, 0] && OnlyRow(Board2(c))
  {
    assert Merged().value == 4;
  }

  /**
   * 2, 2, c moved left becomes 4, c, empty: one merge, worth 4 points; the
   * third tile stops beside the new 4 and, even when it is a 4 as well, does
   * not merge with it.
   */
  lemma NoChainedMerge(c: int)
    requires ValidValue(c)
    ensures ValidGame(Start(c))
    ensures var r := SlideAll(Start(c), GetVector(3));
            && RowValues(r.board) == [4, c, 0] && OnlyRow(r.board)
            && r.score == 4 && r.moved && !r.won
  {
    PrepareStart(c);
    Board0Valid(c);
    var st0 := MoveState(Board0(c), 0, false, false);
    var ys := Traversal(3, 0);
    assert SlideAll(Start(c), GetVector(3)) == MoveAll(st0, Traversal(3, -1), ys, Left) by {
      assert GetVector(3) == Left;
    }
    LeftSteps(st0, ys);
    FirstColumn(c);
    SecondColumn(c);
    ThirdColumn(c);
    FinalRow(c);
  }
}
