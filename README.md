# BlockMatching puzzle engine in Dafny

A model of the puzzle engine of the BlockMatching game, with proofs about it. The board is `width` columns of `height` tiles, with row 0 at the bottom. Each tile is a colour (Red, Blue, Green, Yellow or Pink) or a Crate.

A click on a coloured tile runs a depth-first flood fill from that root tile. Neighbours are visited left, below, right, then above. The search checks every tile it looks at and tags for removal every tile of the root's colour it reaches. It also tags every Crate bordering them, but never continues from a Crate. When at least two tiles matched:
- the score grows by the number of matched tiles;
- each column drops its tagged tiles, and the survivors take their new indices as positions.

In every case the flags are then cleared and short columns are topped up with tiles of random colours.

The model keeps the source's imperative form:
- `Tile` is a class with mutable position and flag fields.
- `GameBoard` is a class. Its fields are `tilesBoard` (a sequence of columns of tiles), `toDestroy`, `score` and `numberTileMatched`.
- Loops stay loops, and the recursive search stays recursive.
  - `Explore`, the non-root part of the source's `FindMatchFromTile`, and `CheckTile` call each other as in the source.
  - The four neighbour tests are spread over `Explore`, `VisitNeighbours`, `VisitLower`, `VisitUpper` and `Visit`, so the recursion passes through six methods.

The files:
- `tile.dfy` (module `Tiles`): the tile record, its kind, and its getters and setters.
- `grid.dfy` (module `Grid`): the board as a grid of kinds, 4-adjacency, the same-kind connected component of a cell (defined by walks, independent of any visiting order), its border, and `Marked`, which is the component plus the Crates next to it.
- `search.dfy` (module `Search`): the invariant the search keeps and the completeness theorem.
  - The search state is two ghost sets of cells, the checked ones and the tagged ones.
  - The theorem says what those sets are once the root's exploration has returned.
- `columns.dfy` (module `Columns`): compaction of a column by a mask, as a sequence function `Pick`, with its ordering and content lemmas.
- `gameboard.dfy` (module `Board`): the `GameBoard` class.
  - Each core method of GameBoard.cs is a method here, proved against the functions and predicates above. `FindMatchFromTile` is split as described under "## Left out", and the Unity-only methods listed there are not modelled.
  - Ghost fields `checked` and `tagged` mirror the tiles' flags, and `Mirrored()` ties the two together.

## Model

| member | source | states |
|---|---|---|
| Tiles.Tile.constructor | Assets/Scripts/Tile.cs:19-25 | a new tile has the given kind, position (0, 0), and both flags false |
| Tiles.Tile.SetPosition | Assets/Scripts/Tile.cs:32-44 | afterwards GetColumn() and GetRow() return the arguments; the two flags are untouched and the kind is a constant |
| Tiles.Tile.SetTileChecked | Assets/Scripts/Tile.cs:61-68 | afterwards GetTileChecked() returns the argument; position and toDestroy are untouched |
| Tiles.Tile.SetToDestroy | Assets/Scripts/Tile.cs:69-76 | afterwards GetToDestroy() returns the argument; position and tileChecked are untouched |
| Board.GameBoard.OnMouseDown | Assets/Scripts/Tile.cs:55-59 | on a Crate nothing on the board or in any tile changes; on any other tile the whole click outcome `Resolved` holds for the tile's position, and every slot above the kept columns holds a newly created tile |
| Board.GameBoard.constructor | Assets/Scripts/GameBoard.cs:30-38 | score 0; the board is valid and width × height; every tile is new; it is a Crate below height*2/3 and drawn from tilesType above; when tilesType holds no Crate, a tile is a Crate iff y < height*2/3 |
| Board.GameBoard.SpawnRandomBoard | Assets/Scripts/GameBoard.cs:51-70 | width columns of height new tiles; the tile at (x, y) stores position (x, y) and has both flags clear; it is a Crate when y < height*2/3 and has a kind from tilesType otherwise; when tilesType holds no Crate, it is a Crate iff y < height*2/3 |
| Board.GameBoard.SpawnIncompleteColumn | Assets/Scripts/GameBoard.cs:72-90 | each column shorter than height is filled to height and other columns are left alone; old tiles keep their indices; each new tile is new, stores (x, index), has clear flags and a kind from tilesType |
| Board.GameBoard.FindMatchFromTile | Assets/Scripts/GameBoard.cs:92-131 | the root call on a non-Crate tile of a valid board leaves a valid board (flags clear, positions equal to indices, toDestroy empty); the click outcome `Resolved` holds for the root's position; every slot above the kept columns (`Kept`) holds a newly created tile |
| Board.GameBoard.SearchFrom | Assets/Scripts/GameBoard.cs:94-119 | after the root is counted, checked and explored: tagged = the root's component plus the Crates next to it; checked = the component plus its border; numberTileMatched = the component's size |
| Board.GameBoard.Explore | Assets/Scripts/GameBoard.cs:99-119 | tagging a counted tile of the root's kind and visiting its neighbours keeps the search invariant (sound, settled, count = tagged tiles of the root's kind, pending set unchanged) and keeps checked cells checked |
| Board.GameBoard.VisitNeighbours | Assets/Scripts/GameBoard.cs:104-119 | after the four neighbour tests every on-board neighbour of the tile is checked, and the search invariant holds again |
| Board.GameBoard.VisitLower | Assets/Scripts/GameBoard.cs:104-111 | the left and lower neighbours, when on the board, are checked afterwards; the search invariant is kept |
| Board.GameBoard.VisitUpper | Assets/Scripts/GameBoard.cs:112-119 | the right and upper neighbours, when on the board, are checked afterwards; the search invariant is kept |
| Board.GameBoard.Visit | Assets/Scripts/GameBoard.cs:104-107 | one bounds-and-unchecked test: the neighbour, when on the board, is checked afterwards; the search invariant is kept |
| Board.GameBoard.CheckTile | Assets/Scripts/GameBoard.cs:148-157 | the tile is checked; a tile of the root's kind is counted and explored; a Crate is tagged and not explored; any other kind is only checked; the search invariant is kept |
| Board.GameBoard.MarkChecked | Assets/Scripts/GameBoard.cs:148-150 | setting one tile's tileChecked adds exactly its cell to the checked record, which still mirrors the flags |
| Board.GameBoard.MarkTagged | Assets/Scripts/GameBoard.cs:102 | setting one tile's toDestroy adds exactly its cell to the tagged record, which still mirrors the flags |
| Board.GameBoard.TileAt | Assets/Scripts/GameBoard.cs:99-100 | a tile of a board whose tiles store their own positions is held at the slot its stored column and row name |
| Board.GameBoard.ClearMatch | Assets/Scripts/GameBoard.cs:121-130 | after the search: on a match the board is compacted by the tagged cells and refilled, and the score grows by numberTileMatched; otherwise board and score are unchanged; the board is valid either way; every refilled slot holds a newly created tile |
| Board.GameBoard.RemoveMatch | Assets/Scripts/GameBoard.cs:123-129 | the match branch leaves a valid board whose columns begin with the survivors of compaction and are topped up to height with newly created tiles; score grows by numberTileMatched |
| Board.GameBoard.Collapse | Assets/Scripts/GameBoard.cs:125-126 | the board becomes the survivors of compaction by the tagged cells, repositioned, with no new tile; each survivor keeps its tileChecked and is untagged; removed tiles are untouched; the score grows by numberTileMatched; toDestroy is emptied |
| Board.GameBoard.Replenish | Assets/Scripts/GameBoard.cs:128-129 | on a board of at most height per column: all flags clear, every column full, old columns kept as prefixes, each added tile newly created and of a tilesType kind; a full board is left as it was |
| Board.GameBoard.UpdateGameboard | Assets/Scripts/GameBoard.cs:159-182 | each column becomes exactly its untagged tiles in order; toDestroy gains the tagged tiles, column by column, bottom to top; every remaining tile stores its index, keeps its tileChecked and is untagged; removed tiles are untouched; no tile is added |
| Board.GameBoard.CompactAndReposition | Assets/Scripts/GameBoard.cs:161-181 | for the mask of the toDestroy flags of a board holding each tile once: the board becomes the compacted columns, toDestroy gains the removed tiles, no tile is added, no column grows, every tile stores its new index, keeps its tileChecked and is untagged, and removed tiles are untouched |
| Board.GameBoard.CompactColumns | Assets/Scripts/GameBoard.cs:161-173 | the compaction loop: the board becomes `Survivors` and toDestroy gains `Removed` of all columns, for the mask of the toDestroy flags |
| Board.GameBoard.CompactColumn | Assets/Scripts/GameBoard.cs:163-172 | one column: toDestroy gains the flagged tiles bottom to top; the column becomes its unflagged tiles in order; no other column changes |
| Board.GameBoard.Reposition | Assets/Scripts/GameBoard.cs:175-181 | every tile of a board holding each tile once ends up storing its own column and row; no tile's tileChecked or toDestroy changes |
| Board.GameBoard.DestroyMatchedTiles | Assets/Scripts/GameBoard.cs:133-141 | score grows by exactly numberTileMatched and toDestroy is empty |
| Board.GameBoard.ResetTileStatus | Assets/Scripts/GameBoard.cs:184-192 | every tile on the board has both flags false; positions are untouched |
| Board.NonNull | Assets/Scripts/GameBoard.cs:172 | the `Where(c => c != null)` filter: the result is no longer than the column, holds only entries of the column, and holds every non-null entry |
| Board.SurvivorsUntagged | Assets/Scripts/GameBoard.cs:165-172 | every tile left on a board compacted by the mask of its toDestroy flags is untagged |
| Board.NonNullBlank | Assets/Scripts/GameBoard.cs:169-172 | nulling the flagged entries and then filtering out nulls gives exactly the unflagged entries in order |
| Board.SurvivorsFromBoard | Assets/Scripts/GameBoard.cs:159-181 | compaction adds no tile, shortens no column beyond its length, and keeps distinct tiles distinct, so repositioning one tile disturbs no other |
| Search.SearchComplete | Assets/Scripts/GameBoard.cs:92-157 | once the root is tagged and every tagged tile of its kind has all neighbours checked: the tagged tiles of the root's kind are the component, all tagged tiles are `Marked`, and the checked tiles are the component plus its border |
| Search.SearchDeterminate | Assets/Scripts/GameBoard.cs:104-119 | two finished searches from the same root agree on checked and tagged cells, so the neighbour order cannot change the outcome |
| Search.MatchStep | Assets/Scripts/GameBoard.cs:152-154 | tagging a checked tile of the root's kind inside the component keeps the search sound and raises the count of tagged same-kind cells by one |
| Search.CrateStep | Assets/Scripts/GameBoard.cs:156 | tagging a checked Crate keeps the search sound and adds nothing to the count |
| Grid.MarkedExactly | Assets/Scripts/GameBoard.cs:148-157 | a tagged cell has the root's kind or is a Crate, so other colours are never tagged; a Crate is tagged iff it is next to the root's component |
| Grid.CratesNeverScore | Assets/Scripts/GameBoard.cs:133-136 | the component holds no Crate, equals the tagged cells minus the Crates, and its size (the score increment) is the tagged count minus the bordering Crates |
| Grid.SingletonComponent | Assets/Scripts/GameBoard.cs:121-127 | numberTileMatched is 1 (no removal) exactly when no 4-neighbour of the root has the root's kind |
| Grid.ComponentLeast | Assets/Scripts/GameBoard.cs:148-155 | the component is contained in every closed set holding the root, which the search's tagged set becomes |
| Columns.KeepsUntaggedInOrder | Assets/Scripts/GameBoard.cs:163-172 | compaction keeps the entries at the untagged indices, in ascending index order, and every untagged index occurs |
| Columns.PickSplits | Assets/Scripts/GameBoard.cs:163-172 | survivors and removed entries of a column together are a permutation of the column |
| Columns.PickFrom | Assets/Scripts/GameBoard.cs:172 | a survivor of a column comes from that column, so no tile changes column |
| Columns.PickHolds | Assets/Scripts/GameBoard.cs:165-168 | an entry is picked iff its mask bit has the wanted value |
| Columns.RemovedHoldsTagged | Assets/Scripts/GameBoard.cs:163-168 | the removed list holds every flagged tile of the board, and only flagged tiles |

## Left out

- Unity engine calls are not part of this model:
  - `Instantiate` with its `Vector2` world placement, `transform.parent`, and `SetGameboard`;
  - `Destroy(tile.gameObject)`, which appears here only as toDestroy being emptied;
  - the `UpdateScore` TextMeshPro call, the per-frame `Tile.Update` animation, the Escape-key `Update`, the scene reload `Reset`, and the button wiring in `Start`.
- `Random.Range` is an oracle outside the model. Each draw is a nondeterministic choice of an index into `tilesType`, so the properties hold whichever indices it returns.
- The prefab lists are modelled by kinds. `tileCrate` is the kind Crate, and `tilesType` is a sequence of kinds. The constructor takes `width`, `height` and `tilesType` as arguments, which the source sets in the editor.
- FindMatchFromTile: the source's optional `rootTile` flag is split in two. `FindMatchFromTile(tile)` is the root call, `tile` being the tile `OnMouseDown` passes. The recursive non-root call is `Explore`, split into `VisitLower`, `VisitUpper` and `Visit` for the four neighbour tests.
- FindMatchFromTile requires a non-Crate root. Its only caller, `OnMouseDown`, rules Crates out, and the model does not follow a search from a Crate root.
- CheckTile: the source's second test (`GetTileType() == Crate`) is an `else if` here. The root's kind is never Crate, so the two tests cannot both succeed. The recursive call does not change `tilesBoard`, so the tile read once is the tile the source reads again.
- UpdateGameboard: `tilesBoard[x][y] = null` is modelled on a local copy of the column, of type `seq<Tile?>`, filtered by `NonNull` (the LINQ `Where`) and written back. The board itself never holds null.
- The board's column lists are sequence values held in a field, not shared list objects, so aliasing of a column list is not modelled. Aliasing of the tiles themselves is modelled: they are heap objects shared by the board and `toDestroy`.
- The constructor, SpawnRandomBoard, SpawnIncompleteColumn and Valid require a non-empty `tilesType`. With an empty list the source's draw `tilesType[Random.Range(0, 0)]` fails with an out-of-range index, and that failure is not modelled.
- `width` and `height` are natural numbers here where the source has `int`. A negative size makes the source's spawning loops run zero times, and that case is not modelled.
- DestroyMatchedTiles: does not model 32-bit wrap-around of `score`. Integers are unbounded here.
- The search's checked and tagged cells are also kept as ghost sets, with `Mirrored()` tying them to the tiles' flags.
