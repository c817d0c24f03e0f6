/**
 * The per-cell record of the puzzle board (Assets/Scripts/Tile.cs).
 *
 * A tile has a fixed kind and four mutable fields: its stored board position
 * and the two transient flags the match search uses.
 */
module Tiles {

  /** The five colours that can be matched, and the Crate obstacle. */
  datatype TileType = Red | Blue | Green | Yellow | Pink | Crate

  class Tile {
    /** The kind never changes: no setter exists for it. */
    const tileType: TileType
    var column: int
    var row: int
    /** Visited by the current search. */
    var tileChecked: bool
    /** Tagged for removal by the current search. */
    var toDestroy: bool

    /** A freshly instantiated tile: the prefab's kind, the default position, both flags clear. */
    constructor (kind: TileType)
      ensures GetTileType() == kind
      ensures GetColumn() == 0 && GetRow() == 0
      ensures !GetTileChecked() && !GetToDestroy()
    {
      tileType := kind;
      column, row := 0, 0;
      tileChecked, toDestroy := false, false;
    }

    method SetPosition(x: int, y: int)
      modifies this
      ensures GetColumn() == x && GetRow() == y
      ensures tileChecked == old(tileChecked) && toDestroy == old(toDestroy)
    {
      column := x;
      row := y;
    }

    function GetColumn(): int
      reads this
    {
      column
    }

    function GetRow(): int
      reads this
    {
      row
    }

    function GetTileType(): TileType
    {
      tileType
    }

    method SetTileChecked(check: bool)
      modifies this
      ensures GetTileChecked() == check
      ensures column == old(column) && row == old(row) && toDestroy == old(toDestroy)
    {
      tileChecked := check;
    }

    function GetTileChecked(): bool
      reads this
    {
      tileChecked
    }

    method SetToDestroy(destroy: bool)
      modifies this
      ensures GetToDestroy() == destroy
      ensures column == old(column) && row == old(row) && tileChecked == old(tileChecked)
    {
      toDestroy := destroy;
    }

    function GetToDestroy(): bool
      reads this
    {
      toDestroy
    }
  }
}
