/**
 * A single numbered tile: its cell coordinates, its value and the two
 * per-turn scratch fields (`previousPosition`, `mergedFrom`) that tell the
 * renderer where the tile came from during the current move.
 */
module Tiles {
  import opened Wrappers

  /** A cell coordinate, also used for direction vectors: `{x, y}`. */
  datatype Pos = Pos(x: int, y: int)

  /**
   * A tile. `mergedFrom` holds the two tiles a merge consumed: the tile that
   * moved into the occupant and the occupant itself.
   */
  datatype Tile = Tile(x: int, y: int, value: int,
                       previousPosition: Option<Pos>,
                       mergedFrom: Option<TilePair>)

  datatype TilePair = TilePair(moved: Tile, target: Tile)

  /** What a tile is saved as: `{position: {x, y}, value}`. */
  datatype SerializedTile = SerializedTile(position: Pos, value: int)

  function Position(t: Tile): Pos
  {
    Pos(t.x, t.y)
  }

  /** Tile values are powers of two. */
  predicate IsPowerOfTwo(v: int)
    decreases if v < 0 then 0 else v
  {
    v == 1 || (v >= 2 && v % 2 == 0 && IsPowerOfTwo(v / 2))
  }

  /** A value a tile on the board may carry: a power of two, at least 2. */
  predicate ValidValue(v: int)
  {
    v >= 2 && IsPowerOfTwo(v)
  }

  lemma DoubleIsValid(v: int)
    requires ValidValue(v)
    ensures ValidValue(2 * v)
  {
    assert (2 * v) / 2 == v;
  }

  /**
   * `new Tile(position, value)`: the tile sits at `position`, carries
   * `value` (a zero value falls back to 2, as `value || 2` does) and has no
   * scratch information yet.
   */
  function NewTile(position: Pos, value: int): (t: Tile)
    ensures Position(t) == position
    ensures value != 0 ==> t.value == value
    ensures value == 0 ==> t.value == 2
    ensures t.previousPosition == None && t.mergedFrom == None
  {
    Tile(position.x, position.y, if value == 0 then 2 else value, None, None)
  }

  /** `savePosition`: remember the current cell; nothing else changes. */
  function SavePosition(t: Tile): (r: Tile)
    ensures r.previousPosition == Some(Position(t))
    ensures Position(r) == Position(t) && r.value == t.value && r.mergedFrom == t.mergedFrom
  {
    t.(previousPosition := Some(Pos(t.x, t.y)))
  }

  /** `updatePosition`: relocate the tile; value and scratch fields stay. */
  function UpdatePosition(t: Tile, position: Pos): (r: Tile)
    ensures Position(r) == position
    ensures r.value == t.value && r.previousPosition == t.previousPosition && r.mergedFrom == t.mergedFrom
    ensures Position(t) == position ==> r == t
  {
    t.(x := position.x, y := position.y)
  }

  /** `serialize`: only the position and the value are saved. */
  function SerializeTile(t: Tile): (s: SerializedTile)
    ensures s.position == Position(t) && s.value == t.value
  {
    SerializedTile(Pos(t.x, t.y), t.value)
  }

  /** The tile rebuilt from its saved form, as `fromState` does. */
  function RestoreTile(s: SerializedTile): (t: Tile)
    ensures Position(t) == s.position
    ensures s.value != 0 ==> t.value == s.value
    ensures s.value == 0 ==> t.value == 2
    ensures t.previousPosition == None && t.mergedFrom == None
  {
    NewTile(s.position, s.value)
  }

  /** The tile with its per-turn scratch fields reset. */
  function ClearScratch(t: Tile): Tile
  {
    t.(previousPosition := None, mergedFrom := None)
  }

  /** Saving and restoring a tile keeps position and value and drops the scratch fields. */
  lemma TileRoundTrip(t: Tile)
    requires t.value != 0
    ensures RestoreTile(SerializeTile(t)) == ClearScratch(t)
  {
  }
}
