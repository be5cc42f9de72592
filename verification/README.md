# Reversi board and move rules, modelled in Dafny

This project models the game logic of the Unity Reversi controller in
`Assets/Scripts/Singleton.cs`. It covers these parts:

- the `ReversiGraph` board: 64 `GridCell`s named `_A1` to `_H8`, the four
  centre pieces, and the `Edges` table of each cell;
- the recursive `Traverse` walk that finds a capture line and collects the
  cells to flip;
- the move rules: `getSeekingState`, `isValidMove`, `GetAllPossibleMoves`,
  `performMove` with `GridCell.Flip`, and the `itemClicked` handler;
- the piece counts: `Examine`, `IsFinished` and `GetWhiteScore`,
  `GetBlackScore`, `GetEmptyCount`;
- the leaf case of `negamax`;
- the object structure of `new ReversiGraph()`, `ReversiGraph.Clone` and
  `GridCell.Clone`. The constructor gives every cell its own edge
  dictionary. The clone gets a new `Cells` dictionary of fresh cell objects,
  which share the original's edge dictionaries.

Modules:

- `Geometry` (geometry.dfy): coordinates `Coord(row, col)`, where row is the
  constructor's index i and col its index j. It also holds the nine-value
  `Direction` enum, walking along a direction (`Ray`, `StepsLeft`,
  `Neighbor`), cell names, and the constructor's edge table (`Edges`).
- `Graph` (graph.dfy): the board as an 8x8 sequence of `CellState`, the
  starting board, `Flip`, `Traverse`, the counts and `IsFinished`. `Traverse`
  returns a `Trace`: the distance it returns plus the cells it would add to
  the sink. A call with a null sink simply ignores the cells.
- `Rules` (rules.dfy): players, legality, the set of legal moves, the capture
  set, `performMove` as a pure function on `Game(board, currentTurn)`, the
  click handler, and the negamax leaf.
- `Opening` (opening.dfy): facts about the starting position. WHITE has
  exactly four legal first moves, and each one captures a single piece.
- `Objects` (objects.dfy): an explicit heap of `GridCell` objects, edge
  dictionaries and each graph's `Cells` dictionary. Every allocation takes a
  block of addresses never used before. A graph's `Cells` dictionary may hold
  any objects, so two graphs can share cells. `Clone` is shown to copy
  states, share edges and allocate fresh cells. That freshness is what
  isolates later writes through the clone. A graph that reused the
  original's cell objects would not be isolated (`Objects.SharedCellsLeak`).

The rules are stated twice so that one version can be checked against the
other. Legality and capture are first computed the way the source computes
them. `Traverse` takes each step through the current cell's `Edges` entry and
looks the stored name up among the cells. `Geometry.EdgesAreNeighbors` proves
that this step reaches the offset neighbour. The capture set is the union of the
sinks over all enum values that have an edge, with the target cell removed.
Both are then proved equal to a direct description of a capture line
(`Graph.Capped`, `Rules.Captured`): a run of opposing pieces followed by one
of the mover's own, measured with the plain offset geometry.

## Model

| member | source | states |
|---|---|---|
| Geometry.StepsLeft | Assets/Scripts/Singleton.cs:319-376 | Every step up to the returned count stays on the board, and for a real direction the next step leaves it. A walk therefore lasts at most 7 steps. |
| Geometry.Neighbor | Assets/Scripts/Singleton.cs:319-376 | A neighbour exists exactly when at least one step is left. It is one step along the direction, and it has one step fewer left. |
| Geometry.EdgesAreNeighbors | Assets/Scripts/Singleton.cs:319-376 | The constructor's edge table has an entry for direction d exactly when the offset neighbour is on the board. The entry names that neighbour, so the walk's step `Cells[current.Edges[d]]` (lines 435-437) reaches it. No cell has a `NONE` edge. |
| Geometry.EdgeGuard | Assets/Scripts/Singleton.cs:319-376 | The constructor's guards, taken one direction at a time: a cell has an edge in direction d exactly when d is not `NONE` and the first step along d stays on the board. The edge then names the cell at that step. |
| Geometry.EveryCellHasEdge | Assets/Scripts/Singleton.cs:319-376 | Every cell gets at least one edge, so the direction loops of `isValidMove` and `performMove` call `Traverse` at least once. |
| Geometry.EdgesSymmetric | Assets/Scripts/Singleton.cs:319-376 | If a cell has an edge to a neighbour in direction d, the neighbour has an edge back in the opposite direction (N/S, E/W, NE/SW, NW/SE). |
| Geometry.NameParses | Assets/Scripts/Singleton.cs:287-297 | The name `"_" + ('A'+j) + (i+1)` is a key of `Cells` and parses back to its cell. |
| Geometry.ParsedIsName | Assets/Scripts/Singleton.cs:287-297 | A string that parses to a cell is that cell's name, so names and cells correspond one to one. |
| Geometry.CellNamesParse | Assets/Scripts/Singleton.cs:280-299 | A string is a key of `Cells` exactly when it has the form of a cell name. |
| Geometry.BoardSize | Assets/Scripts/Singleton.cs:286-299 | The constructor's two loops create exactly 64 cells. |
| Geometry.NamesSize | Assets/Scripts/Singleton.cs:286-299 | The 64 cells have 64 distinct names, so `Cells` has 64 entries. |
| Graph.Flip | Assets/Scripts/Singleton.cs:623-645 | EMPTY stays EMPTY, and an occupied cell changes to the other colour. |
| Graph.Traverse | Assets/Scripts/Singleton.cs:410-448 | The walk terminates because it is bounded by the steps left to the board edge. A negative depth returns 0 and adds nothing. Otherwise the result is positive exactly when some step k reaches the requested state, with every earlier step passing. That means it is not the requested state and not an empty gap at depth > 0. The result is then depth + k, and the sink gains exactly the cells at steps 0..k-1. |
| Graph.TraverseFromStart | Assets/Scripts/Singleton.cs:410-448 | From depth 0 on a cell that is not in the requested state, the result lies in 0..7. It equals k >= 1 exactly when step k holds the requested colour and steps 1..k-1 hold the opposite colour. The cells added are steps 0..k-1. |
| Graph.Count | Assets/Scripts/Singleton.cs:509-533 | The score getters' counts are at most 64. A count is 0 exactly when no cell is in that state. |
| Graph.CountsPartition | Assets/Scripts/Singleton.cs:468-493 | white + black + empty == 64. |
| Graph.Examine | Assets/Scripts/Singleton.cs:468-493 | The loop over all cells counts each state as `Count` does, and the three counts sum to 64. |
| Graph.IsFinished | Assets/Scripts/Singleton.cs:499-503 | The game is over exactly when no cell is empty, or no cell is black, or no cell is white. |
| Rules.Other | Assets/Scripts/Singleton.cs:223 | The turn toggle always gives the other player. |
| Rules.SeekingState | Assets/Scripts/Singleton.cs:230-233 | A player always seeks a non-empty colour. |
| Rules.SeekingStatesOpposite | Assets/Scripts/Singleton.cs:230-233 | The two players seek opposite colours: one player's colour is the `Flip` of the other's. |
| Rules.ValidMoveSpec | Assets/Scripts/Singleton.cs:159-180 | `isValidMove` holds exactly when the cell is empty and some direction has a capture line of length at least 2. |
| Rules.GetAllPossibleMoves | Assets/Scripts/Singleton.cs:120-131 | The returned set is exactly the on-board cells for which `isValidMove` holds. |
| Rules.CollectFlipsMember | Assets/Scripts/Singleton.cs:197-206 | After the loop over directions, a cell is in the sink exactly when the traversal along some direction with an edge added it. |
| Rules.TraversedCollected | Assets/Scripts/Singleton.cs:197-206 | Every cell that the traversal along a direction with an edge adds ends up in `performMove`'s sink. |
| Rules.CaptureSetSpec | Assets/Scripts/Singleton.cs:186-215 | With the target removed, the sink is exactly the set of cells strictly inside a capture line from the target. Each of them holds the opponent's colour. |
| Rules.PerformMove | Assets/Scripts/Singleton.cs:186-224 | On an occupied cell, or when it is not the player's turn, nothing changes. Otherwise the target takes the mover's colour, every captured cell takes the mover's colour, every other cell is unchanged, and the turn passes to the other player. |
| Rules.PerformMoveCounts | Assets/Scripts/Singleton.cs:186-224 | After a move on an empty cell by the player to move, empty drops by 1, the mover gains 1 + f and the opponent loses f, where f is the number flipped. f >= 1 exactly when the move is legal. |
| Rules.CaptureNonEmpty | Assets/Scripts/Singleton.cs:159-215 | For an empty target, the capture set is non-empty exactly when `isValidMove` holds. |
| Rules.ItemClicked | Assets/Scripts/Singleton.cs:78-95 | An unknown name is an error. A click on an illegal cell changes nothing. A legal click places the mover's colour and turns every captured piece, leaving every other cell as it was. It captures at least one piece, uses up one empty cell, gives the mover 1 + f pieces and takes f from the opponent, where f is the number captured, and it passes the turn. |
| Rules.Negamax | Assets/Scripts/Singleton.cs:137-146 | A null graph gives no move. At the leaf the move has no cell, and its score is the player's own piece count minus the opponent's. |
| Rules.NegamaxLeafZeroSum | Assets/Scripts/Singleton.cs:141-146 | The leaf score for one player is the negation of the score for the other, with the window swapped, and it lies in -64..64. |
| Opening.InitialLayout | Assets/Scripts/Singleton.cs:280-312 | The new graph has BLACK on `_D4` and `_E5`, WHITE on `_E4` and `_D5`, and the other cells empty. That gives 2 black, 2 white and 60 empty, and the game is not over. |
| Opening.StartCounts | Assets/Scripts/Singleton.cs:302-312 | Any board in the starting layout has 2 black, 2 white and 60 empty cells and is not finished. |
| Opening.OpeningLine | Assets/Scripts/Singleton.cs:159-180 | In the starting layout, every capture line for WHITE has length 2, starts at an opening cell, and runs over that cell's captured piece. |
| Opening.OpeningMoves | Assets/Scripts/Singleton.cs:159-180 | In the starting layout, WHITE's legal moves are exactly `_D3`, `_C4`, `_F5` and `_E6`. |
| Opening.OpeningCaptures | Assets/Scripts/Singleton.cs:186-215 | Each opening move captures exactly one piece: the BLACK piece next to it. |
| Opening.OpeningClick | Assets/Scripts/Singleton.cs:78-95 | Clicking an opening cell at the start gives 4 white, 1 black and 59 empty cells, and BLACK moves next. |
| Opening.OpeningIllegalClick | Assets/Scripts/Singleton.cs:78-95 | At the start, clicking any other cell leaves the game unchanged. |
| Opening.NewGameIsStart | Assets/Scripts/Singleton.cs:55-61 | `Start` sets up the starting layout with WHITE to move. |
| Objects.SetState | Assets/Scripts/Singleton.cs:220 | An assignment to one object's `State` changes that field only. Every other object and every edge dictionary is unchanged. |
| Objects.FlipObject | Assets/Scripts/Singleton.cs:623-645 | `GridCell.Flip` changes one object's state as `Flip` does and leaves every other object alone. |
| Objects.SetStateIsPlace | Assets/Scripts/Singleton.cs:212-221 | Writing the state of a graph's object for cell c is the same as placing that state at c on the graph's board. |
| Objects.SetStateSpares | Assets/Scripts/Singleton.cs:212-221 | A write to an object that is not in a graph's `Cells` dictionary leaves that graph's board unchanged. |
| Objects.NewGraphObject | Assets/Scripts/Singleton.cs:279-376 | The constructor yields a well-formed graph on the opening board, built from fresh objects. Every cell has an edge dictionary of its own, and objects that already existed are untouched. |
| Objects.ConstructFresh | Assets/Scripts/Singleton.cs:286-299 | The constructor allocates, in an unused block, one `GridCell` per name carrying that name and a new edge dictionary (lines 595-599), and its `Cells` dictionary maps each name to that cell. |
| Objects.ConstructKeeps | Assets/Scripts/Singleton.cs:279-376 | The constructor changes no existing object, edge dictionary or graph. |
| Objects.ConstructValid | Assets/Scripts/Singleton.cs:279-376 | The constructed graph is well formed: 64 names, each leading to a cell with that name and the board's edge table for it. |
| Objects.ConstructView | Assets/Scripts/Singleton.cs:302-312 | The constructed graph's board is the opening board. |
| Objects.Clone | Assets/Scripts/Singleton.cs:379-390 | The clone is well formed and has the same board. Its `Cells` dictionary shares no object with the original's, every one of its cells is newly allocated, and each shares the original cell's edge dictionary. Existing objects and graphs are untouched. |
| Objects.CloneFresh | Assets/Scripts/Singleton.cs:602-617 | Each copied cell object has the original's name, state and edge dictionary, and is newly allocated under a new graph identity. |
| Objects.CloneKeeps | Assets/Scripts/Singleton.cs:379-390 | The copy constructor changes no existing object, edge dictionary or graph. |
| Objects.CloneValid | Assets/Scripts/Singleton.cs:379-390 | After the copy both the original and the clone are well-formed graphs. |
| Objects.CloneView | Assets/Scripts/Singleton.cs:455-458 | After cloning, the clone's board and the original's board both equal the original board. |
| Objects.CloneDisjoint | Assets/Scripts/Singleton.cs:386-389 | No cell object is in both the clone's and the original's `Cells` dictionaries. |
| Objects.WritesSpare | Assets/Scripts/Singleton.cs:212-221 | Any sequence of cell writes made through one graph leaves the board of a graph that shares none of its cell objects unchanged. |
| Objects.CloneIsolated | Assets/Scripts/Singleton.cs:379-390 | No sequence of state writes through the graph that `Clone` returns changes the original graph's board. |
| Objects.SharedCellsLeak | Assets/Scripts/Singleton.cs:388 | A second graph whose `Cells` dictionary reuses the original's objects (that is, a copy without `cell.Clone()`) is well formed and shows the same board. A write through it changes the original's board exactly as a write through the original would, so isolation rests on the copies. |

## Left out

- Unity lifecycle and the singleton bootstrap (`Awake`, `DontDestroyOnLoad`, the static instance): engine plumbing with no game logic. `Start` is reduced to the starting `Game`.
- Rendering: `Resources.Load`, `Instantiate`, `GameObject.Find`, the `Model` field, rotation quaternions and the floating-point `SpawnPoint`. These are foreign calls and floating point that the rules never read.
- `print` and `Debug` output and the debug flag: logging only.
- Graph.Traverse: the `dirty = true` side effect and the cached counts are not modelled. The counts are computed directly from the cell states instead. In the source the cache is never read stale. Both constructors set `dirty` (lines 281 and 383). The only state writes are in `performMove` (lines 212-220). Every cell has at least one edge (`Geometry.EveryCellHasEdge`), so `performMove` has already called `Traverse`, which sets `dirty` (line 413), before it writes. The `current == null` check is also left out, because every cell the walk reaches comes from the `Cells` dictionary and is never null.
- Graph.Count: the three score getters (`GetWhiteScore`, `GetBlackScore`, `GetEmptyCount`) are this one function applied to each state, without the `dirty` re-examination.
- Rules.Negamax: only the leaf case is modelled, and its precondition requires the leaf (depth <= 0 or a finished board). The source's non-leaf branch calls `GetAllPossibleMoves`, then stops at a placeholder comment with no return statement. There is no search to model, so no pruning, tie-break or recursion is invented here.
- `AIMove` and `aiDifficulty`: `AIMove` only calls the unfinished search and discards the result.
- Rules.PerformMove: the new piece's model and rotation are not modelled. The function does not check legality, and neither does the source's `performMove`. Only `itemClicked` checks it.
- Objects.Clone: `SpawnPoint` copying is omitted (floating point). The `Model` field, which the copy constructor deliberately does not copy, is omitted too.
- `negamax` stops at `//more code here` with no return (Singleton.cs:148-153). There is no pruning, tie-break, turn controller or background search in the code to model.
