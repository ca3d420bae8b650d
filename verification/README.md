# Prim-style maze generator of `labyrinth`, in Dafny

This project models the maze generator of the `labyrinth` game: `Prim::new(row, col)` in
`src/algo.rs` and its helpers `add_neighbors`, `random_edge_point`, `find_end_point`,
`enforce_edge_walls` and `Point::opposite`. The model proves properties of them.

The generator works on a `row × col` grid of characters. It starts with every cell a wall `'#'`.
It marks a random edge cell `'S'` and seeds a frontier with the start's in-bounds 4-neighbours.
Then it repeatedly removes a random frontier entry and computes the entry's *opposite*, the cell
one step further in the parent→entry direction. When both cells are still walls, it opens both
to `'.'` and pushes the opposite's neighbours. Once the frontier is empty, it draws random edge
cells until one is a `'.'` other than `(0, 0)`, marks that cell `'E'`, and turns every other edge
cell back into `'#'`.

Files and modules:

- `maze.dfy`, module `Maze`: cells, the character grid (`seq<seq<char>>`), the tile characters,
  edge and 4-adjacency geometry, single-cell update, and wall counting.
- `paths.dfy`, module `Paths`: walks through open cells (`'.'` or `'S'`) and the `Connected`
  relation.
- `point.dfy`, module `Points`: the frontier entry `Point` and `Point::opposite`.
- `edges.dfy`, module `Edges`: `random_edge_point`, `find_end_point` and `enforce_edge_walls`.
- `carving.dfy`, module `Carving`: `add_neighbors`, one loop iteration as a pure step function,
  the loop invariant, and the carving loop as a method.
- `prim.dfy`, module `Prim`: `Prim::new` and the shape of a finished maze.

Random choices are inputs.

- The start is an `EdgeDraw(side, offset)`, the two values `random_edge_point` draws.
- The frontier index of the k-th iteration is `pick(k, n)`, with `pick(k, n) < n`.
- `find_end_point` gets a finite sequence of draws. `None` stands for "still looping after these
  draws".

The model follows the code, and some things one might expect of a maze generator are not there.

- The code has no boundary-approval rule, no exit-candidate set, no flood-fill fallback and no
  `NoExitFound` error. It carves any pair of walls, including edge cells.
- The code picks the exit by redrawing edge cells until it gets a `'.'` other than `(0, 0)`, and
  loops forever when there is none.
- The test `(er != 0 || ec != 0)` in `find_end_point` carries the comment "not the start point",
  but it excludes the top-left corner, not the start. The start is kept out by the `'.'` test,
  since the start cell holds `'S'` (`Edges.EndIsNotStart`).

## Model

| member | source | states |
|---|---|---|
| `Points.Opposite` | src/algo.rs:118-144 | Without a parent there is no opposite. The opposite of a point inside the grid is inside the grid. For a 4-neighbour parent it is the point itself or a 4-neighbour of it. |
| `Points.OppositeOfNeighbour` | src/algo.rs:118-144 | For an in-grid point with a 4-neighbour parent, the opposite is one of three things. It is the cell one step beyond (2·pos − parent) when that cell is in the grid. It is nothing when the step passes the last row or column, because the other branch cannot fire. It is the point's own cell when the step would go below 0. |
| `Points.OppositeSaturates` | src/algo.rs:120-136 | A row-0 point with its parent below, or a column-0 point with its parent to the right in the same row, is its own opposite, because `saturating_sub` stops at 0. |
| `Carving.AddNeighbors` | src/algo.rs:50-68 | Existing frontier entries are unchanged and keep their positions. At most four entries are appended, each an in-bounds 4-neighbour of (r, c) recorded with the given parent. Every in-bounds 4-neighbour is appended. The new entries are in the order up, down, left, right, each at most once. |
| `Carving.OpenPair` | src/algo.rs:27-30 | Opening the entry and its opposite turns both into passages and leaves every other cell alone. The wall count drops by the number of distinct cells opened. |
| `Carving.InitialGrid` | src/algo.rs:8-13 | The starting grid is `row × col`, has `'S'` at the start, and has a wall everywhere else. |
| `Carving.InitialState` | src/algo.rs:8-17 | The state before the loop satisfies the loop invariant. |
| `Carving.CarveStep` | src/algo.rs:22-37 | One iteration strictly decreases 5·(walls) + \|frontier\|, so the loop terminates. It only ever rewrites a `'#'` into a `'.'`. The remaining entries keep their order after `remove`. All frontier entries stay inside the grid. |
| `Carving.StepKeepsInv` | src/algo.rs:22-37 | One iteration preserves the loop invariant. The start keeps its `'S'` and every other cell is `'#'` or `'.'`. Every frontier entry's parent is an in-grid 4-neighbour of it holding `'S'` or `'.'`. Every `'.'` is 4-connected to the start through `'.'`/`'S'` cells. |
| `Carving.CarveKeepsReached` | src/algo.rs:26-35 | The two cells carved for an entry are connected to the start through the entry's open parent. Every older passage stays connected. |
| `Carving.Carve` | src/algo.rs:8-37 | When the loop exits, the grid is `row × col` with `'S'` only at the start and every other cell `'#'` or `'.'`. Every `'.'` is reachable from the start through `'.'`/`'S'` cells. |
| `Edges.RandomEdgePoint` | src/algo.rs:71-79 | For `row, col ≥ 1`, every draw in `gen_range`'s ranges gives a cell inside the grid on its outer ring. |
| `Edges.EdgeDrawCovers` | src/algo.rs:71-79 | Every cell of the outer ring is the outcome of some valid draw. |
| `Edges.FindEndPoint` | src/algo.rs:82-89 | A returned cell is on the edge, holds `'.'` and is not `(0, 0)`. It comes from the first draw that passes that test. There is no result exactly when no draw passes it. |
| `Edges.EndIsNotStart` | src/algo.rs:85 | The end point is never the start cell, whatever the start's coordinates, because the start holds `'S'`. |
| `Edges.FindEndPointStuck` | src/algo.rs:82-89 | If no edge cell other than `(0, 0)` holds `'.'`, no sequence of draws ends the search, so the source loops forever. |
| `Edges.FindEndPointReaches` | src/algo.rs:82-89 | Every acceptable edge cell is returned by some one-draw sequence. |
| `Edges.EnforceEdgeWalls` | src/algo.rs:92-103 | Afterwards every ring cell is `'#'`, `'S'` or `'E'`. `'S'` and `'E'` cells are kept. Cells off the ring are unchanged. Nothing but `'#'` is ever written. |
| `Edges.EnforceEdgeWallsIdempotent` | src/algo.rs:92-103 | Applying `enforce_edge_walls` twice gives the same grid as applying it once. |
| `Prim.FinishIsMaze` | src/algo.rs:39-44 | A carved grid with `'E'` put on an edge `'.'` and then resealed has only the four tile characters. It has exactly one `'S'` and one `'E'`, distinct and both on the edge, and every other edge cell is `'#'`. |
| `Prim.New` | src/algo.rs:7-47 | A returned maze is `row × col` over `{'#','.','S','E'}`. It has exactly one `'S'`, at the drawn start, and exactly one `'E'`, at one of the drawn end points. Both are on the edge and distinct, and every other edge cell is `'#'`. A 1×1 grid never gets an exit. |

## Left out

- Randomness: the `rand` stream is replaced by explicit draws. Its distribution and uniformity are not modelled. The source draws everything from one stream, and the model uses three separate inputs.
- Degenerate sizes: `row == 0` underflows in `random_edge_point` and panics in `enforce_edge_walls`, and `col == 0` panics in `gen_range`. Both are excluded by `requires row >= 1 && col >= 1`.
- Non-termination of `find_end_point`: it is modelled over a finite sequence of draws, with `None` meaning it has not returned yet. Termination is not claimed.
- Prim.New: says nothing about when the result is `None`, except for the 1×1 grid, because the source never returns in that case and the carved grid is internal to `new`.
- Points.OppositeOfNeighbour: states the result only for 4-neighbour parents, the only kind the generator creates. For other parents, `Opposite` follows the source's branches but no further property is stated.
- Parent chain: `Point`'s boxed parent chain is cut to the parent's coordinates, the only part `opposite` reads. The opposite is returned as a cell, because only its coordinates are used.
- `usize` overflow: `self.r + 1` and `self.c + 1` at `usize::MAX` are not modelled, because coordinates are unbounded naturals.
- Connectivity of the final grid is not claimed: `enforce_edge_walls` can re-wall edge passages that carried a corridor. Connectivity is proved for the carved grid only.
- A boundary-approval rule, an exit-candidate set and a flood-fill fallback do not exist in the code and are not modelled.
- `src/algo.rs` is not declared as a module in `src/main.rs`, so it is modelled as a standalone library.
- `src/menu.rs`, `src/world.rs`, `src/player.rs`, `src/camera.rs` and `src/main.rs` are not part of this model. They hold UI state, file I/O of the map, float geometry, input handling and engine wiring.
