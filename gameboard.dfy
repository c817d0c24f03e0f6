/**
 * The puzzle engine (Assets/Scripts/GameBoard.cs): a board of tiles held
 * column by column, the flood-fill search started by a click, column
 * compaction, flag reset, and the refill of short columns.
 */
module Board {
  import opened Tiles
  import opened Grid
  import opened Search
  import opened Columns

  /** The kinds of the tiles of one column, bottom to top. */
  function ColumnKinds(col: seq<Tile>): (k: seq<TileType>)
    ensures |k| == |col|
  {
    if col == [] then [] else ColumnKinds(col[..|col| - 1]) + [col[|col| - 1].tileType]
  }

  /** The kinds of the tiles of a board, column by column. */
  function KindsOf(b: seq<seq<Tile>>): (g: Kinds)
    ensures |g| == |b|
    ensures forall x :: 0 <= x < |b| ==> |g[x]| == |b[x]|
  {
    if b == [] then [] else KindsOf(b[..|b| - 1]) + [ColumnKinds(b[|b| - 1])]
  }

  lemma {:induction false} ColumnKindsAt(col: seq<Tile>, y: int)
    requires 0 <= y < |col|
    ensures ColumnKinds(col)[y] == col[y].tileType
  {
    if y < |col| - 1 {
      ColumnKindsAt(col[..|col| - 1], y);
    }
  }

  /** The kind recorded at (x, y) is the kind of the tile held there. */
  lemma {:induction false} KindsOfAt(b: seq<seq<Tile>>, x: int, y: int)
    requires 0 <= x < |b| && 0 <= y < |b[x]|
    ensures KindsOf(b)[x][y] == b[x][y].tileType
  {
    if x < |b| - 1 {
      KindsOfAt(b[..|b| - 1], x, y);
    } else {
      ColumnKindsAt(b[x], y);
    }
  }

  /** Every tile object on a board. */
  ghost function TilesOf(b: seq<seq<Tile>>): set<Tile>
  {
    set x, y | 0 <= x < |b| && 0 <= y < |b[x]| :: b[x][y]
  }

  /** Each tile stores the coordinate it is held at. */
  ghost predicate PositionedOf(b: seq<seq<Tile>>)
    reads TilesOf(b)
  {
    forall x, y :: 0 <= x < |b| && 0 <= y < |b[x]| ==> b[x][y].column == x && b[x][y].row == y
  }

  /** No tile is checked or tagged. */
  ghost predicate RestingOf(b: seq<seq<Tile>>)
    reads TilesOf(b)
  {
    forall x, y :: 0 <= x < |b| && 0 <= y < |b[x]| ==> !b[x][y].tileChecked && !b[x][y].toDestroy
  }

  /** The mask per column that tags the coordinates in S. */
  function CellMask(S: set<Cell>, b: seq<seq<Tile>>): seq<seq<bool>>
  {
    seq(|b|, x requires 0 <= x < |b| => seq(|b[x]|, y requires 0 <= y < |b[x]| => (x, y) in S))
  }

  /** The kind recorded for every cell of a board is the kind of the tile held there. */
  lemma KindsOfShape(b: seq<seq<Tile>>)
    ensures forall x, y :: 0 <= x < |b| && 0 <= y < |b[x]| ==> KindsOf(b)[x][y] == b[x][y].tileType
  {
    forall x, y | 0 <= x < |b| && 0 <= y < |b[x]|
      ensures KindsOf(b)[x][y] == b[x][y].tileType
    {
      KindsOfAt(b, x, y);
    }
  }

  /** The non-null entries of a column, in order: the filter `Where(c => c != null)`. */
  function NonNull(s: seq<Tile?>): (r: seq<Tile>)
    ensures |r| <= |s|
    ensures forall t :: t in r ==> t in s
    ensures forall i :: 0 <= i < |s| && s[i] != null ==> s[i] in r
  {
    if s == [] then []
    else
      assert forall i :: 0 <= i < |s| - 1 ==> s[i] == s[..|s| - 1][i];
      NonNull(s[..|s| - 1]) + (if s[|s| - 1] == null then [] else [s[|s| - 1]])
  }

  /** A column with its tagged entries replaced by null. */
  function Blank(s: seq<Tile>, mask: seq<bool>): (r: seq<Tile?>)
    requires |mask| == |s|
  {
    seq(|s|, i requires 0 <= i < |s| => if mask[i] then null else s[i])
  }

  /** Nulling the tagged entries and then filtering out nulls compacts the column. */
  lemma {:induction false} NonNullBlank(s: seq<Tile>, mask: seq<bool>)
    requires |mask| == |s|
    ensures NonNull(Blank(s, mask)) == Pick(s, mask, false)
  {
    if s != [] {
      var n := |s| - 1;
      NonNullBlank(s[..n], mask[..n]);
      assert Blank(s, mask)[..n] == Blank(s[..n], mask[..n]);
    }
  }

  /** Distinct coordinates hold distinct tiles. */
  ghost predicate DistinctTiles(b: seq<seq<Tile>>)
  {
    forall x, y, i, j :: 0 <= x < |b| && 0 <= y < |b[x]| && 0 <= i < |b| && 0 <= j < |b[i]| && b[x][y] == b[i][j] ==>
      x == i && y == j
  }

  /** A tile stores one coordinate, so a board whose tiles store their own holds each tile once. */
  lemma PositionedDistinct(b: seq<seq<Tile>>)
    requires PositionedOf(b)
    ensures DistinctTiles(b)
  {
  }

  /** Compaction keeps the tiles of each column, and keeps distinct tiles distinct. */
  lemma SurvivorsFromBoard(b: seq<seq<Tile>>, masks: seq<seq<bool>>)
    requires |masks| == |b| && forall x :: 0 <= x < |b| ==> |masks[x]| == |b[x]|
    ensures DistinctTiles(b) ==> DistinctTiles(Survivors(b, masks))
    ensures TilesOf(Survivors(b, masks)) <= TilesOf(b)
    ensures forall x :: 0 <= x < |b| ==> |Survivors(b, masks)[x]| <= |b[x]|
  {
    var s := Survivors(b, masks);
    forall x | 0 <= x < |b|
      ensures |s[x]| <= |b[x]| && |s[x]| == |Positions(masks[x], false)|
      ensures forall y :: 0 <= y < |s[x]| ==>
                0 <= Positions(masks[x], false)[y] < |b[x]| && s[x][y] == b[x][Positions(masks[x], false)[y]]
    {
      PickSplits(b[x], masks[x]);
      PickAt(b[x], masks[x], false);
    }
    forall t | t in TilesOf(s)
      ensures t in TilesOf(b)
    {
      var x, y :| 0 <= x < |s| && 0 <= y < |s[x]| && s[x][y] == t;
      var k := Positions(masks[x], false)[y];
      assert b[x][k] == t;
    }
    forall x, y, i, j | DistinctTiles(b) && 0 <= x < |s| && 0 <= y < |s[x]| && 0 <= i < |s| && 0 <= j < |s[i]| && s[x][y] == s[i][j]
      ensures x == i && y == j
    {
      var P, Q := Positions(masks[x], false), Positions(masks[i], false);
      assert b[x][P[y]] == b[i][Q[j]];
      PositionsInjective(masks[x], false, y, j);
    }
  }

  /** The survivors of a board compacted by the mask of its toDestroy flags are all untagged. */
  lemma SurvivorsUntagged(b: seq<seq<Tile>>, masks: seq<seq<bool>>)
    requires |masks| == |b| && forall x :: 0 <= x < |b| ==> |masks[x]| == |b[x]|
    requires forall x, y :: 0 <= x < |b| && 0 <= y < |b[x]| ==> b[x][y].toDestroy == masks[x][y]
    ensures forall t :: t in TilesOf(Survivors(b, masks)) ==> !t.toDestroy
  {
    var s := Survivors(b, masks);
    forall t | t in TilesOf(s)
      ensures !t.toDestroy
    {
      var x, y :| 0 <= x < |s| && 0 <= y < |s[x]| && s[x][y] == t;
      PickHolds(b[x], masks[x], false);
      assert t in Pick(b[x], masks[x], false);
    }
  }

  /**
   * The columns one click at r leaves on board b before the refill: the
   * board compacted by the tagged cells when r's component has more than one
   * tile, the board itself otherwise.
   */
  ghost function Kept(b: seq<seq<Tile>>, r: Cell): (k: seq<seq<Tile>>)
    ensures |k| == |b|
  {
    var g := KindsOf(b);
    if InGrid(g, r) && |Component(g, r)| > 1 then Survivors(b, CellMask(Marked(g, r), b)) else b
  }

  /**
   * after is kept topped up to the given height: every column of kept is
   * still there, in order, at the bottom of its column, and the tiles above it
   * have kinds drawn from types.
   */
  ghost predicate ToppedUp(kept: seq<seq<Tile>>, after: seq<seq<Tile>>, height: nat, types: seq<TileType>)
  {
    && |after| == |kept|
    && forall x :: 0 <= x < |kept| ==>
         && |after[x]| == height
         && kept[x] <= after[x]
         && forall y :: |kept[x]| <= y < height ==> after[x][y].tileType in types
  }

  class GameBoard {
    const width: nat
    const height: nat
    /** The kinds of the colour prefabs that random tiles are drawn from. */
    const tilesType: seq<TileType>

    var tilesBoard: seq<seq<Tile>>
    var toDestroy: seq<Tile>
    var score: int
    var numberTileMatched: int

    /** width columns of height tiles each. */
    ghost predicate Shaped()
      reads this`tilesBoard
    {
      |tilesBoard| == width && forall x :: 0 <= x < width ==> |tilesBoard[x]| == height
    }

    /** The board is width by height and g records the kind of every tile on it. */
    ghost predicate Depicts(g: Kinds)
      reads this`tilesBoard
    {
      && Shaped()
      && |g| == width && (forall x :: 0 <= x < width ==> |g[x]| == height)
      && forall x, y :: 0 <= x < width && 0 <= y < height ==> g[x][y] == tilesBoard[x][y].tileType
    }

    /**
     * The ghost record of the search in progress: the coordinates whose tile
     * is checked and those whose tile is tagged toDestroy.
     */
    ghost var checked: set<Cell>
    ghost var tagged: set<Cell>

    /** Every tile stores its own coordinate and its two flags agree with the ghost record. */
    ghost predicate Mirrored()
      reads this`tilesBoard, this`checked, this`tagged, TilesOf(tilesBoard)
    {
      && PositionedOf(tilesBoard)
      && (forall x, y :: 0 <= x < |tilesBoard| && 0 <= y < |tilesBoard[x]| ==>
            && (tilesBoard[x][y].tileChecked <==> (x, y) in checked)
            && (tilesBoard[x][y].toDestroy <==> (x, y) in tagged))
    }

    /**
     * Changing the flags of the tile at p, and of no other tile, together with
     * the ghost record at p keeps the two in agreement.
     */
    twostate lemma MirrorOne(p: Cell)
      requires old(Mirrored()) && tilesBoard == old(tilesBoard)
      requires 0 <= p.0 < |tilesBoard| && 0 <= p.1 < |tilesBoard[p.0]|
      requires tilesBoard[p.0][p.1].column == old(tilesBoard[p.0][p.1].column)
      requires tilesBoard[p.0][p.1].row == old(tilesBoard[p.0][p.1].row)
      requires tilesBoard[p.0][p.1].tileChecked <==> p in checked
      requires tilesBoard[p.0][p.1].toDestroy <==> p in tagged
      requires checked - {p} == old(checked) - {p} && tagged - {p} == old(tagged) - {p}
      requires forall t :: t in old(TilesOf(tilesBoard)) && t != tilesBoard[p.0][p.1] ==> unchanged(t)
      ensures Mirrored()
    {
      forall i, j | 0 <= i < |tilesBoard| && 0 <= j < |tilesBoard[i]| && (i, j) != p
        ensures unchanged(tilesBoard[i][j])
        ensures (i, j) in checked <==> (i, j) in old(checked)
        ensures (i, j) in tagged <==> (i, j) in old(tagged)
      {
        assert tilesBoard[i][j] in old(TilesOf(tilesBoard));
        assert old(tilesBoard[i][j].column) == i && old(tilesBoard[i][j].row) == j;
        assert (i, j) in checked - {p} <==> (i, j) in old(checked) - {p};
        assert (i, j) in tagged - {p} <==> (i, j) in old(tagged) - {p};
      }
    }

    /** tile.SetTileChecked(true) for the tile held at p, entered in the ghost record. */
    method MarkChecked(tile: Tile, ghost p: Cell)
      requires Mirrored() && 0 <= p.0 < |tilesBoard| && 0 <= p.1 < |tilesBoard[p.0]| && tilesBoard[p.0][p.1] == tile
      modifies tile, this`checked
      ensures Mirrored() && checked == old(checked) + {p}
    {
      label before:
      tile.SetTileChecked(true);
      checked := checked + {p};
      MirrorOne@before(p);
    }

    /** tile.SetToDestroy(true) for the tile held at p, entered in the ghost record. */
    method MarkTagged(tile: Tile, ghost p: Cell)
      requires Mirrored() && 0 <= p.0 < |tilesBoard| && 0 <= p.1 < |tilesBoard[p.0]| && tilesBoard[p.0][p.1] == tile
      modifies tile, this`tagged
      ensures Mirrored() && tagged == old(tagged) + {p}
    {
      label before:
      tile.SetToDestroy(true);
      tagged := tagged + {p};
      MirrorOne@before(p);
    }

    /**
     * The invariant of the search from r: it is sound and settled, the counter
     * counts the tagged tiles of the root's kind, and every one of those tiles
     * outside the pending set P (the tiles whose neighbours are still being
     * visited) has all its grid neighbours checked.
     */
    ghost predicate Searching(g: Kinds, kind: TileType, r: Cell, C: set<Cell>, P: set<Cell>)
      reads this`tilesBoard, this`checked, this`tagged, this`numberTileMatched
    {
      && Depicts(g)
      && InGrid(g, r) && kind == KindAt(g, r)
      && Closed(g, kind, C)
      && Sound(g, r, C, checked, tagged)
      && Settled(g, kind, checked, tagged)
      && numberTileMatched == |Same(g, tagged, kind)|
      && P <= Same(g, tagged, kind)
      && Finished(g, checked, Same(g, tagged, kind) - P)
    }

    /**
     * The tag-and-explore step of FindMatchFromTile, for the root and for every
     * tile of the root's kind the search reaches: tag the tile, then visit its
     * neighbours. On entry the tile is checked and counted but not yet tagged;
     * on return the search invariant holds again for the same pending set, and
     * the cells of D are still checked.
     */
    method Explore(tile: Tile, ghost g: Kinds, ghost r: Cell, ghost C: set<Cell>, ghost P: set<Cell>, ghost D: set<Cell>)
      requires Depicts(g) && Mirrored()
      requires 0 <= tile.column < width && 0 <= tile.row < height
      requires tilesBoard[tile.column][tile.row] == tile
      requires InGrid(g, r) && tile.tileType == KindAt(g, r)
      requires Closed(g, tile.tileType, C)
      requires Sound(g, r, C, checked, tagged)
      requires (tile.column, tile.row) in checked && (tile.column, tile.row) !in tagged
      requires (tile.column, tile.row) in C
      requires Settled(g, tile.tileType, checked, tagged + {(tile.column, tile.row)})
      requires numberTileMatched == |Same(g, tagged, tile.tileType)| + 1
      requires P <= Same(g, tagged, tile.tileType)
      requires Finished(g, checked, Same(g, tagged, tile.tileType) - P)
      requires D <= checked
      modifies TilesOf(tilesBoard), this`numberTileMatched, this`checked, this`tagged
      decreases Cells(g) - D, 4
      ensures Mirrored() && Searching(g, tile.tileType, r, C, P)
      ensures D <= checked
    {
      var x := tile.GetColumn();
      var y := tile.GetRow();
      var kind := tile.GetTileType();
      MatchStep(g, r, C, checked, tagged, (x, y));
      FinishedTag(g, checked, Same(g, tagged, kind), P, (x, y));
      MarkTagged(tile, (x, y));
      VisitNeighbours(x, y, kind, g, r, C, P + {(x, y)}, D);
      FinishedAdd(g, checked, P, (x, y), Same(g, tagged, kind));
    }

    /**
     * The four neighbour tests of FindMatchFromTile for the tagged tile at
     * (x, y), in the source's order: left and below, then right and above.
     * The source writes the four tests inline; they are split over
     * VisitLower, VisitUpper and Visit here only to keep each proof small.
     */
    method VisitNeighbours(x: int, y: int, kind: TileType, ghost g: Kinds, ghost r: Cell, ghost C: set<Cell>, ghost P: set<Cell>, ghost D: set<Cell>)
      requires Mirrored() && Searching(g, kind, r, C, P)
      requires 0 <= x < width && 0 <= y < height && (x, y) in P
      requires D <= checked
      modifies TilesOf(tilesBoard), this`numberTileMatched, this`checked, this`tagged
      decreases Cells(g) - D, 3
      ensures Mirrored() && Searching(g, kind, r, C, P)
      ensures D <= checked && Around(g, (x, y), checked)
    {
      VisitLower(x, y, kind, g, r, C, P, D);
      VisitUpper(x, y, kind, g, r, C, P, checked);
    }

    /** The neighbour tests of (x, y) to the left and below. */
    method VisitLower(x: int, y: int, kind: TileType, ghost g: Kinds, ghost r: Cell, ghost C: set<Cell>, ghost P: set<Cell>, ghost D: set<Cell>)
      requires Mirrored() && Searching(g, kind, r, C, P)
      requires 0 <= x < width && 0 <= y < height && (x, y) in P
      requires D <= checked
      modifies TilesOf(tilesBoard), this`numberTileMatched, this`checked, this`tagged
      decreases Cells(g) - D, 2
      ensures Mirrored() && Searching(g, kind, r, C, P)
      ensures D <= checked && (x > 0 ==> (x - 1, y) in checked) && (y > 0 ==> (x, y - 1) in checked)
    {
      Visit(x > 0, x - 1, y, kind, g, r, C, (x, y), P, D);
      Visit(y > 0, x, y - 1, kind, g, r, C, (x, y), P, checked);
    }

    /** The neighbour tests of (x, y) to the right and above. */
    method VisitUpper(x: int, y: int, kind: TileType, ghost g: Kinds, ghost r: Cell, ghost C: set<Cell>, ghost P: set<Cell>, ghost D: set<Cell>)
      requires Mirrored() && Searching(g, kind, r, C, P)
      requires 0 <= x < width && 0 <= y < height && (x, y) in P
      requires D <= checked
      modifies TilesOf(tilesBoard), this`numberTileMatched, this`checked, this`tagged
      decreases Cells(g) - D, 2
      ensures Mirrored() && Searching(g, kind, r, C, P)
      ensures D <= checked && (x < width - 1 ==> (x + 1, y) in checked) && (y < height - 1 ==> (x, y + 1) in checked)
    {
      Visit(x < width - 1, x + 1, y, kind, g, r, C, (x, y), P, D);
      Visit(y < height - 1, x, y + 1, kind, g, r, C, (x, y), P, checked);
    }

    /**
     * One neighbour test of FindMatchFromTile: when onBoard (the bounds test
     * for this neighbour) holds, the neighbour (x, y) of the tagged tile at t
     * is visited by CheckTile unless it is already checked. The caller passes
     * the bounds test as onBoard, and the requires clause ties it to the bounds.
     */
    method Visit(onBoard: bool, x: int, y: int, kind: TileType, ghost g: Kinds, ghost r: Cell, ghost C: set<Cell>, ghost t: Cell, ghost P: set<Cell>, ghost D: set<Cell>)
      requires Mirrored() && Searching(g, kind, r, C, P)
      requires onBoard <==> 0 <= x < width && 0 <= y < height
      requires t in P && Adjacent(t, (x, y))
      requires D <= checked
      modifies TilesOf(tilesBoard), this`numberTileMatched, this`checked, this`tagged
      decreases Cells(g) - D, 1
      ensures Mirrored() && Searching(g, kind, r, C, P)
      ensures D <= checked && (onBoard ==> (x, y) in checked)
    {
      if onBoard && !tilesBoard[x][y].GetTileChecked() {
        AdjacentNextTo(C, t, (x, y));
        CheckTile(x, y, kind, g, r, C, P, D);
      }
    }

    /**
     * CheckTile: visits the unchecked tile at (x, y), a neighbour of a tagged
     * tile of the root's kind. A tile of that kind is counted and explored in
     * turn; a Crate is tagged but not explored; any other tile is only checked.
     */
    method CheckTile(x: int, y: int, kind: TileType, ghost g: Kinds, ghost r: Cell, ghost C: set<Cell>, ghost P: set<Cell>, ghost D: set<Cell>)
      requires Mirrored() && Searching(g, kind, r, C, P)
      requires 0 <= x < width && 0 <= y < height
      requires (x, y) !in checked && NextTo(C, (x, y))
      requires D <= checked
      modifies TilesOf(tilesBoard), this`numberTileMatched, this`checked, this`tagged
      decreases Cells(g) - D, 0
      ensures Mirrored() && Searching(g, kind, r, C, P)
      ensures D + {(x, y)} <= checked
    {
      ghost var K0, F0 := checked, tagged;
      FinishedMore(g, K0, (x, y), Same(g, F0, kind) - P);
      var tile := tilesBoard[x][y];
      MarkChecked(tile, (x, y));
      CheckStep(g, r, C, K0, F0, (x, y));
      // kind is never Crate, so at most one of the two tests below succeeds
      if tile.GetTileType() == kind {
        numberTileMatched := numberTileMatched + 1;
        assert (x, y) in C;
        SettledAdd(g, kind, K0, F0, (x, y));
        Explore(tile, g, r, C, P, D + {(x, y)});
      } else if tile.GetTileType() == Crate {
        MarkTagged(tile, (x, y));
        CrateStep(g, r, C, checked, F0, (x, y));
      }
    }

    /** The board between two clicks. */
    ghost predicate Valid()
      reads this, TilesOf(tilesBoard)
    {
      && Shaped()
      && PositionedOf(tilesBoard)
      && RestingOf(tilesBoard)
      && toDestroy == []
      && |tilesType| > 0
    }

    /**
     * What one click on the tile at r of the board before, with score score0,
     * leaves behind: numberTileMatched is the
     * size of r's component; on a match the score grows by it and every column
     * is compacted by the tagged cells (the component and the Crates bordering
     * it) and refilled; otherwise the board and the score are unchanged.
     */
    ghost predicate Resolved(before: seq<seq<Tile>>, score0: int, r: Cell)
      reads this
    {
      var g := KindsOf(before);
      && InGrid(g, r)
      && numberTileMatched == |Component(g, r)|
      && if numberTileMatched > 1 then
           && score == score0 + numberTileMatched
           && ToppedUp(Survivors(before, CellMask(Marked(g, r), before)), tilesBoard, height, tilesType)
         else
           && score == score0
           && tilesBoard == before
    }

    /**
     * FindMatchFromTile(tile, true), the click on a tile that is not a Crate:
     * the root is counted and checked, the search runs from it, and then the
     * matched tiles are removed, flags are reset and short columns refilled.
     */
    method FindMatchFromTile(tile: Tile)
      requires Valid() && tile in TilesOf(tilesBoard) && tile.tileType != Crate
      modifies this, TilesOf(tilesBoard)
      ensures Valid() && Resolved(old(tilesBoard), old(score), (old(tile.column), old(tile.row)))
      ensures forall x, y :: 0 <= x < width && |Kept(old(tilesBoard), (old(tile.column), old(tile.row)))[x]| <= y < height ==>
                fresh(tilesBoard[x][y])
    {
      TileAt(tile);
      var x := tile.GetColumn();
      var y := tile.GetRow();
      KindsOfShape(tilesBoard);
      SearchFrom(tile, KindsOf(tilesBoard), (x, y));
      ClearMatch((x, y));
    }

    /** A tile on a board whose tiles store their coordinates is held at its own coordinate. */
    lemma TileAt(tile: Tile)
      requires Shaped() && PositionedOf(tilesBoard) && tile in TilesOf(tilesBoard)
      ensures 0 <= tile.column < width && 0 <= tile.row < height && tilesBoard[tile.column][tile.row] == tile
    {
      var x, y :| 0 <= x < |tilesBoard| && 0 <= y < |tilesBoard[x]| && tilesBoard[x][y] == tile;
    }

    /**
     * The search part of the root call of FindMatchFromTile on the board whose
     * kinds are g: the root at r is counted and checked, then explored.
     * Afterwards the tagged cells are r's component and the Crates bordering
     * it, the checked cells are the component and its border, and the counter
     * is the component's size.
     */
    method SearchFrom(tile: Tile, ghost g: Kinds, ghost r: Cell)
      requires Valid() && Depicts(g) && tile.tileType != Crate
      requires 0 <= r.0 < width && 0 <= r.1 < height && tilesBoard[r.0][r.1] == tile
      modifies TilesOf(tilesBoard), this`numberTileMatched, this`checked, this`tagged
      ensures Mirrored() && InGrid(g, r)
      ensures tagged == Marked(g, r)
      ensures checked == Component(g, r) + Border(g, Component(g, r))
      ensures numberTileMatched == |Component(g, r)|
    {
      ghost var C := Component(g, r);
      ComponentBasics(g, r);
      ComponentClosed(g, r);
      checked, tagged := {}, {};
      numberTileMatched := 1;
      MarkChecked(tile, r);
      RootStart(g, r, C);
      Explore(tile, g, r, C, {}, {r});
      assert Same(g, tagged, tile.tileType) - {} == Same(g, tagged, tile.tileType);
      SearchComplete(g, r, checked, tagged);
    }

    /**
     * The end of the root call of FindMatchFromTile, once the search from r has
     * tagged Marked(r) and counted r's component: on a match the board is
     * compacted and the score raised; then the flags are reset and the short
     * columns refilled.
     */
    method ClearMatch(ghost r: Cell)
      requires Shaped() && Mirrored() && toDestroy == [] && |tilesType| > 0
      requires InGrid(KindsOf(tilesBoard), r)
      requires tagged == Marked(KindsOf(tilesBoard), r)
      requires numberTileMatched == |Component(KindsOf(tilesBoard), r)|
      modifies this`tilesBoard, this`toDestroy, this`score, TilesOf(tilesBoard)
      ensures Valid() && Resolved(old(tilesBoard), old(score), r)
      ensures forall x, y :: 0 <= x < width && |Kept(old(tilesBoard), r)[x]| <= y < height ==> fresh(tilesBoard[x][y])
    {
      if numberTileMatched > 1 {
        RemoveMatch();
      } else {
        Replenish();
      }
    }

    /**
     * The match branch of ClearMatch: UpdateGameboard, DestroyMatchedTiles,
     * then the reset and refill. The board ends up compacted by the tagged
     * cells and refilled, and the score grows by numberTileMatched.
     */
    method RemoveMatch()
      requires Shaped() && Mirrored() && toDestroy == [] && |tilesType| > 0
      modifies this`tilesBoard, this`toDestroy, this`score, TilesOf(tilesBoard)
      ensures Valid()
      ensures score == old(score) + numberTileMatched
      ensures ToppedUp(Survivors(old(tilesBoard), CellMask(tagged, old(tilesBoard))), tilesBoard, height, tilesType)
      ensures forall x, y :: 0 <= x < width && |Survivors(old(tilesBoard), CellMask(tagged, old(tilesBoard)))[x]| <= y < height ==>
                fresh(tilesBoard[x][y])
    {
      Collapse();
      Replenish();
    }

    /** UpdateGameboard followed by DestroyMatchedTiles. */
    method Collapse()
      requires Shaped() && Mirrored()
      modifies this`tilesBoard, this`toDestroy, this`score, TilesOf(tilesBoard)
      ensures tilesBoard == Survivors(old(tilesBoard), CellMask(tagged, old(tilesBoard)))
      ensures PositionedOf(tilesBoard)
      ensures |tilesBoard| == width && forall x :: 0 <= x < width ==> |tilesBoard[x]| <= height
      ensures TilesOf(tilesBoard) <= old(TilesOf(tilesBoard))
      ensures score == old(score) + numberTileMatched && toDestroy == []
      ensures forall t :: t in TilesOf(tilesBoard) ==> t.tileChecked == old(t.tileChecked) && !t.toDestroy
      ensures forall t :: t in old(TilesOf(tilesBoard)) && t !in TilesOf(tilesBoard) ==> unchanged(t)
    {
      UpdateGameboard();
      DestroyMatchedTiles();
    }

    /**
     * ResetTileStatus followed by SpawnIncompleteColumn on a board whose
     * columns are at most height tall: every column ends with height tiles,
     * all resting at their own coordinates, the old ones first.
     */
    method Replenish()
      requires |tilesBoard| == width
      requires forall x :: 0 <= x < width ==> |tilesBoard[x]| <= height
      requires PositionedOf(tilesBoard)
      requires |tilesType| > 0
      modifies this`tilesBoard, TilesOf(tilesBoard)
      ensures Shaped() && PositionedOf(tilesBoard) && RestingOf(tilesBoard)
      ensures ToppedUp(old(tilesBoard), tilesBoard, height, tilesType)
      ensures old(Shaped()) ==> tilesBoard == old(tilesBoard)
      ensures forall x, y :: 0 <= x < width && |old(tilesBoard[x])| <= y < height ==> fresh(tilesBoard[x][y])
    {
      ResetTileStatus();
      SpawnIncompleteColumn();
      if old(Shaped()) {
        forall x | 0 <= x < width
          ensures tilesBoard[x] == old(tilesBoard[x])
        {
          assert old(tilesBoard[x]) <= tilesBoard[x] && |old(tilesBoard[x])| == |tilesBoard[x]|;
        }
      }
    }

    /**
     * Tile.OnMouseDown: a click on a Crate does nothing; a click on any other
     * tile starts the search from it. The source's handler belongs to the tile
     * and reaches the board through its board field; here it is a board method
     * that takes the clicked tile.
     */
    method OnMouseDown(tile: Tile)
      requires Valid() && tile in TilesOf(tilesBoard)
      modifies this, TilesOf(tilesBoard)
      ensures Valid()
      ensures tile.tileType == Crate ==> unchanged(this) && forall t :: t in old(TilesOf(tilesBoard)) ==> unchanged(t)
      ensures tile.tileType != Crate ==> Resolved(old(tilesBoard), old(score), (old(tile.column), old(tile.row)))
      ensures tile.tileType != Crate ==>
                forall x, y :: 0 <= x < width && |Kept(old(tilesBoard), (old(tile.column), old(tile.row)))[x]| <= y < height ==>
                  fresh(tilesBoard[x][y])
    {
      if tile.GetTileType() != Crate {
        FindMatchFromTile(tile);
      }
    }

    /** Start: an empty score and a freshly spawned board. */
    constructor (w: nat, h: nat, types: seq<TileType>)
      requires |types| > 0
      ensures width == w && height == h && tilesType == types
      ensures Valid() && score == 0
      ensures forall x, y :: 0 <= x < w && 0 <= y < h ==>
                && fresh(tilesBoard[x][y])
                && (y < h * 2 / 3 ==> tilesBoard[x][y].tileType == Crate)
                && (y >= h * 2 / 3 ==> tilesBoard[x][y].tileType in types)
      ensures Crate !in types ==>
                forall x, y :: 0 <= x < w && 0 <= y < h ==> (tilesBoard[x][y].tileType == Crate <==> y < h * 2 / 3)
    {
      width, height, tilesType := w, h, types;
      score := 0;
      numberTileMatched := 0;
      toDestroy := [];
      tilesBoard := [];
      checked, tagged := {}, {};
      new;
      SpawnRandomBoard();
    }

    /**
     * SpawnRandomBoard: fills an empty board column by column, bottom row
     * first, with Crates on the rows below height*2/3 and a drawn colour above.
     */
    method SpawnRandomBoard()
      requires tilesBoard == [] && |tilesType| > 0
      modifies this`tilesBoard
      ensures Shaped() && PositionedOf(tilesBoard) && RestingOf(tilesBoard)
      ensures forall x, y :: 0 <= x < width && 0 <= y < height ==>
                && fresh(tilesBoard[x][y])
                && (y < height * 2 / 3 ==> tilesBoard[x][y].tileType == Crate)
                && (y >= height * 2 / 3 ==> tilesBoard[x][y].tileType in tilesType)
      ensures Crate !in tilesType ==> forall x, y :: 0 <= x < width && 0 <= y < height ==>
                (tilesBoard[x][y].tileType == Crate <==> y < height * 2 / 3)
    {
      for x := 0 to width
        invariant |tilesBoard| == x
        invariant forall i :: 0 <= i < x ==> |tilesBoard[i]| == height
        invariant forall i, j :: 0 <= i < x && 0 <= j < height ==>
                    && fresh(tilesBoard[i][j])
                    && tilesBoard[i][j].column == i && tilesBoard[i][j].row == j
                    && !tilesBoard[i][j].tileChecked && !tilesBoard[i][j].toDestroy
                    && (j < height * 2 / 3 ==> tilesBoard[i][j].tileType == Crate)
                    && (j >= height * 2 / 3 ==> tilesBoard[i][j].tileType in tilesType)
      {
        tilesBoard := tilesBoard + [[]];
        for y := 0 to height
          invariant |tilesBoard| == x + 1 && |tilesBoard[x]| == y
          invariant forall i :: 0 <= i < x ==> |tilesBoard[i]| == height
          invariant forall i, j :: 0 <= i < x + 1 && 0 <= j < |tilesBoard[i]| ==>
                      && fresh(tilesBoard[i][j])
                      && tilesBoard[i][j].column == i && tilesBoard[i][j].row == j
                      && !tilesBoard[i][j].tileChecked && !tilesBoard[i][j].toDestroy
                      && (j < height * 2 / 3 ==> tilesBoard[i][j].tileType == Crate)
                      && (j >= height * 2 / 3 ==> tilesBoard[i][j].tileType in tilesType)
        {
          var tile: Tile;
          if y < height * 2 / 3 {
            tile := new Tile(Crate);
          } else {
            var k :| 0 <= k < |tilesType|;
            tile := new Tile(tilesType[k]);
          }
          tile.SetPosition(x, y);
          tilesBoard := tilesBoard[x := tilesBoard[x] + [tile]];
        }
      }
    }

    /**
     * SpawnIncompleteColumn: tops every column whose length is not height up
     * to height with drawn colours, each new tile at the next row index. A
     * column longer than height would be left as it is.
     */
    method SpawnIncompleteColumn()
      requires |tilesBoard| == width && |tilesType| > 0
      modifies this`tilesBoard
      ensures |tilesBoard| == width
      ensures forall x :: 0 <= x < width ==>
                && |tilesBoard[x]| == (if |old(tilesBoard[x])| < height then height else |old(tilesBoard[x])|)
                && old(tilesBoard[x]) <= tilesBoard[x]
      ensures forall x, y :: 0 <= x < width && |old(tilesBoard[x])| <= y < |tilesBoard[x]| ==>
                && fresh(tilesBoard[x][y])
                && tilesBoard[x][y].column == x && tilesBoard[x][y].row == y
                && !tilesBoard[x][y].tileChecked && !tilesBoard[x][y].toDestroy
                && tilesBoard[x][y].tileType in tilesType
    {
      for x := 0 to width
        invariant |tilesBoard| == width
        invariant forall i :: 0 <= i < x ==>
                    && |tilesBoard[i]| == (if |old(tilesBoard[i])| < height then height else |old(tilesBoard[i])|)
                    && old(tilesBoard[i]) <= tilesBoard[i]
        invariant forall i :: x <= i < width ==> tilesBoard[i] == old(tilesBoard[i])
        invariant forall i, j :: 0 <= i < x && |old(tilesBoard[i])| <= j < |tilesBoard[i]| ==>
                    && fresh(tilesBoard[i][j])
                    && tilesBoard[i][j].column == i && tilesBoard[i][j].row == j
                    && !tilesBoard[i][j].tileChecked && !tilesBoard[i][j].toDestroy
                    && tilesBoard[i][j].tileType in tilesType
      {
        if |tilesBoard[x]| != height {
          var missingTile := height - |tilesBoard[x]|;
          var i := 0;
          ghost var before := tilesBoard;
          while i < missingTile
            invariant 0 <= i <= (if missingTile < 0 then 0 else missingTile)
            invariant |tilesBoard| == width
            invariant |tilesBoard[x]| == |old(tilesBoard[x])| + i && old(tilesBoard[x]) <= tilesBoard[x]
            invariant forall k :: 0 <= k < width && k != x ==> tilesBoard[k] == before[k]
            invariant forall k, j :: 0 <= k <= x && |old(tilesBoard[k])| <= j < |tilesBoard[k]| ==>
                        && fresh(tilesBoard[k][j])
                        && tilesBoard[k][j].column == k && tilesBoard[k][j].row == j
                        && !tilesBoard[k][j].tileChecked && !tilesBoard[k][j].toDestroy
                        && tilesBoard[k][j].tileType in tilesType
          {
            var pick :| 0 <= pick < |tilesType|;
            var tile := new Tile(tilesType[pick]);
            var y := |tilesBoard[x]|;
            tile.SetPosition(x, y);
            tilesBoard := tilesBoard[x := tilesBoard[x] + [tile]];
            i := i + 1;
          }
        }
      }
    }

    /**
     * UpdateGameboard: column by column, bottom to top, every tagged tile is
     * appended to toDestroy and its entry is set to null; the nulls are then
     * filtered out of the column. Finally every remaining tile takes its new
     * index as its position.
     */
    method UpdateGameboard()
      requires Shaped() && Mirrored()
      modifies this`tilesBoard, this`toDestroy, TilesOf(tilesBoard)
      ensures tilesBoard == Survivors(old(tilesBoard), CellMask(tagged, old(tilesBoard)))
      ensures toDestroy == old(toDestroy) + Removed(old(tilesBoard), CellMask(tagged, old(tilesBoard)), width)
      ensures PositionedOf(tilesBoard)
      ensures |tilesBoard| == width && forall x :: 0 <= x < width ==> |tilesBoard[x]| <= height
      ensures TilesOf(tilesBoard) <= old(TilesOf(tilesBoard))
      ensures forall t :: t in TilesOf(tilesBoard) ==> t.tileChecked == old(t.tileChecked) && !t.toDestroy
      ensures forall t :: t in old(TilesOf(tilesBoard)) && t !in TilesOf(tilesBoard) ==> unchanged(t)
    {
      TaggedMask();
      PositionedDistinct(tilesBoard);
      CompactAndReposition(CellMask(tagged, tilesBoard));
    }

    /** UpdateGameboard for the mask M of the toDestroy flags of a board holding each tile once. */
    method CompactAndReposition(ghost M: seq<seq<bool>>)
      requires |M| == |tilesBoard| && forall x :: 0 <= x < |M| ==> |M[x]| == |tilesBoard[x]|
      requires forall x, y :: 0 <= x < |M| && 0 <= y < |M[x]| ==> tilesBoard[x][y].toDestroy == M[x][y]
      requires DistinctTiles(tilesBoard)
      modifies this`tilesBoard, this`toDestroy, TilesOf(tilesBoard)
      ensures tilesBoard == Survivors(old(tilesBoard), M)
      ensures toDestroy == old(toDestroy) + Removed(old(tilesBoard), M, |old(tilesBoard)|)
      ensures PositionedOf(tilesBoard)
      ensures |tilesBoard| == |old(tilesBoard)| && forall x :: 0 <= x < |tilesBoard| ==> |tilesBoard[x]| <= |old(tilesBoard)[x]|
      ensures TilesOf(tilesBoard) <= old(TilesOf(tilesBoard))
      ensures forall t :: t in TilesOf(tilesBoard) ==> t.tileChecked == old(t.tileChecked) && !t.toDestroy
      ensures forall t :: t in old(TilesOf(tilesBoard)) && t !in TilesOf(tilesBoard) ==> unchanged(t)
    {
      ghost var b := tilesBoard;
      CompactColumns(M);
      SurvivorsFromBoard(b, M);
      SurvivorsUntagged(b, M);
      Reposition();
    }

    /** The toDestroy flags of the board are the mask of the tagged cells. */
    lemma TaggedMask()
      requires Mirrored()
      ensures var M := CellMask(tagged, tilesBoard);
        forall i, j :: 0 <= i < |tilesBoard| && 0 <= j < |tilesBoard[i]| ==> tilesBoard[i][j].toDestroy == M[i][j]
    {
    }

    /** The compaction loop of UpdateGameboard, for the mask M of the toDestroy flags. */
    method CompactColumns(ghost M: seq<seq<bool>>)
      requires |M| == |tilesBoard| && forall x :: 0 <= x < |M| ==> |M[x]| == |tilesBoard[x]|
      requires forall x, y :: 0 <= x < |M| && 0 <= y < |M[x]| ==> tilesBoard[x][y].toDestroy == M[x][y]
      modifies this`tilesBoard, this`toDestroy
      ensures tilesBoard == Survivors(old(tilesBoard), M)
      ensures toDestroy == old(toDestroy) + Removed(old(tilesBoard), M, |old(tilesBoard)|)
    {
      ghost var b := tilesBoard;
      for x := 0 to |tilesBoard|
        invariant |tilesBoard| == |b|
        invariant forall i :: 0 <= i < x ==> tilesBoard[i] == Pick(b[i], M[i], false)
        invariant forall i :: x <= i < |b| ==> tilesBoard[i] == b[i]
        invariant toDestroy == old(toDestroy) + Removed(b, M, x)
      {
        CompactColumn(x, M[x]);
        assert Removed(b, M, x + 1) == Removed(b, M, x) + Pick(b[x], M[x], true);
        assert toDestroy == old(toDestroy) + (Removed(b, M, x) + Pick(b[x], M[x], true));
      }
    }

    /**
     * One column of UpdateGameboard's compaction: the tagged tiles of column x
     * (those whose mask bit is set) are appended to toDestroy bottom to top,
     * and the column keeps the others in order.
     */
    method CompactColumn(x: int, ghost m: seq<bool>)
      requires 0 <= x < |tilesBoard| && |m| == |tilesBoard[x]|
      requires forall j :: 0 <= j < |m| ==> tilesBoard[x][j].toDestroy == m[j]
      modifies this`tilesBoard, this`toDestroy
      ensures tilesBoard == old(tilesBoard)[x := Pick(old(tilesBoard[x]), m, false)]
      ensures toDestroy == old(toDestroy) + Pick(old(tilesBoard[x]), m, true)
    {
      ghost var col := tilesBoard[x];
      var column: seq<Tile?> := tilesBoard[x];
      for y := 0 to |column|
        modifies this`toDestroy
        invariant |column| == |col|
        invariant forall j :: 0 <= j < y ==> column[j] == if m[j] then null else col[j]
        invariant forall j :: y <= j < |col| ==> column[j] == col[j]
        invariant toDestroy == old(toDestroy) + Pick(col[..y], m[..y], true)
      {
        var tmpTile := column[y];
        PickSnoc(col, m, true, y);
        if tmpTile.GetToDestroy() {
          toDestroy := toDestroy + [tmpTile];
          column := column[y := null];
        }
      }
      assert column == Blank(col, m);
      assert col[..|col|] == col && m[..|col|] == m;
      NonNullBlank(col, m);
      tilesBoard := tilesBoard[x := NonNull(column)];
    }

    /** The last step of UpdateGameboard: every tile takes its index as its position. */
    method Reposition()
      requires DistinctTiles(tilesBoard)
      modifies TilesOf(tilesBoard)
      ensures PositionedOf(tilesBoard)
      ensures forall t :: t in TilesOf(tilesBoard) ==> t.tileChecked == old(t.tileChecked) && t.toDestroy == old(t.toDestroy)
    {
      for x := 0 to |tilesBoard|
        invariant forall i, j :: 0 <= i < x && 0 <= j < |tilesBoard[i]| ==> tilesBoard[i][j].column == i && tilesBoard[i][j].row == j
        invariant forall t :: t in TilesOf(tilesBoard) ==> t.tileChecked == old(t.tileChecked) && t.toDestroy == old(t.toDestroy)
      {
        for y := 0 to |tilesBoard[x]|
          invariant forall i, j :: 0 <= i < x && 0 <= j < |tilesBoard[i]| ==> tilesBoard[i][j].column == i && tilesBoard[i][j].row == j
          invariant forall t :: t in TilesOf(tilesBoard) ==> t.tileChecked == old(t.tileChecked) && t.toDestroy == old(t.toDestroy)
          invariant forall j :: 0 <= j < y ==> tilesBoard[x][j].column == x && tilesBoard[x][j].row == j
        {
          tilesBoard[x][y].SetPosition(x, y);
        }
      }
    }

    /** DestroyMatchedTiles: the score grows by the number of matched tiles and toDestroy is emptied. */
    method DestroyMatchedTiles()
      modifies this`score, this`toDestroy
      ensures score == old(score) + numberTileMatched && toDestroy == []
    {
      score := score + numberTileMatched;
      toDestroy := [];
    }

    /** ResetTileStatus: every tile on the board is unchecked and untagged; positions stay. */
    method ResetTileStatus()
      modifies TilesOf(tilesBoard)
      ensures RestingOf(tilesBoard)
      ensures forall x, y :: 0 <= x < |tilesBoard| && 0 <= y < |tilesBoard[x]| ==>
                tilesBoard[x][y].column == old(tilesBoard[x][y].column) && tilesBoard[x][y].row == old(tilesBoard[x][y].row)
    {
      for x := 0 to |tilesBoard|
        invariant forall i, j :: 0 <= i < x && 0 <= j < |tilesBoard[i]| ==> !tilesBoard[i][j].tileChecked && !tilesBoard[i][j].toDestroy
        invariant forall i, j :: 0 <= i < |tilesBoard| && 0 <= j < |tilesBoard[i]| ==>
                    tilesBoard[i][j].column == old(tilesBoard[i][j].column) && tilesBoard[i][j].row == old(tilesBoard[i][j].row)
      {
        for y := 0 to |tilesBoard[x]|
          invariant forall i, j :: 0 <= i < x && 0 <= j < |tilesBoard[i]| ==> !tilesBoard[i][j].tileChecked && !tilesBoard[i][j].toDestroy
          invariant forall j :: 0 <= j < y ==> !tilesBoard[x][j].tileChecked && !tilesBoard[x][j].toDestroy
          invariant forall i, j :: 0 <= i < |tilesBoard| && 0 <= j < |tilesBoard[i]| ==>
                      tilesBoard[i][j].column == old(tilesBoard[i][j].column) && tilesBoard[i][j].row == old(tilesBoard[i][j].row)
        {
          tilesBoard[x][y].SetTileChecked(false);
          tilesBoard[x][y].SetToDestroy(false);
        }
      }
    }
  }
}
