# novelty_grid — a verified model of the grid-growth core

`novelty_grid.py` is a pygame toy. A GRID_SIZE x GRID_SIZE boolean grid (50 x 50)
is drawn in an 800 x 800 window.

- Clicking the left mouse button activates the cell under the pointer. Clicking the right button clears it.
- While growth is switched on, each frame activates one more cell.
- That cell is chosen among the inactive 4-neighbours of the active cells. The winner is the one whose summed
  distance to all active cells is largest, with ties going to the earliest candidate.

This project models that core in Dafny and proves properties of it:

- `ListOps.dfy`: the Python list operations the code relies on (`list.index`,
  `list.remove`, `max`), plus an order-preserving subsequence relation.
- `GridState.dfy`: the constants, boards as values, writing one cell, mapping a pixel
  to a cell, and `np.argwhere` as the row-major list of active cells.
- `Neighbourhood.dfy`: `get_neighbours`. This covers both the loop as written, which removes
  entries from the list it is iterating over, and the intended filter.
- `Growth.dfy`: the candidate frontier, summed distances, `furthest_cell`
  (a method with nested loops), and the cell one growth step activates.
- `NoveltyGrid.dfy`: class `Grid` over an `array2<bool>` updated in place. Its members are the
  start-up grid, `set_cell`, the candidate-collection loops, and `enable_furthest_cell`.

Growth.Scores is the specification of the list `distances` built by
`furthest_cell`: entry `i` is the summed distance (`TotalDistance`) from
candidate `i` to every active cell. Growth.FurthestCell's nested loops are
proved to build exactly that list.

The array's contents are read as a board value through `Grid.Snapshot()`. Each
state-changing method is specified by the board function it computes on that value.

## Model

| member | source | states |
|---|---|---|
| GridState.CellOfPixel | novelty_grid.py:36 | the cell selected by pixel (px, py) is the one whose pixel square contains it: first index from py, second from px, by floor division by CELL_SIZE |
| GridState.OnScreenPixelInGrid | novelty_grid.py:8-11 | CELL_SIZE is 800 // 50 = 16, and every pixel of the window lands on a cell of the grid |
| GridState.SetAt | novelty_grid.py:36 | after writing `v` at cell `c`, that cell reads `v` and every other cell keeps its value |
| GridState.SetAtIdempotent | novelty_grid.py:34-36 | repeating the same `set_cell` write leaves the grid as one write left it |
| GridState.EmptyBoard | novelty_grid.py:23 | the start-up grid has every cell inactive |
| GridState.ActiveCellsExact | novelty_grid.py:70 | `np.argwhere(grid)` lists exactly the active cells, each once, in row-major order |
| GridState.ActivateAddsOne | novelty_grid.py:70-82 | turning one inactive cell on adds exactly one entry to the active-cell list |
| ListOps.IndexOf | novelty_grid.py:64 | `list.index` returns a position holding the value, with no earlier position holding it |
| ListOps.Max | novelty_grid.py:64 | `max` of a non-empty list is an element of it that no element exceeds |
| ListOps.RemoveFirstOfDistinct | novelty_grid.py:45 | in a list without repeats, `list.remove` of the entry at `i` cuts out exactly position `i`, and the result has no repeats |
| Neighbourhood.Candidates | novelty_grid.py:41 | four distinct candidate coordinates |
| Neighbourhood.CandidatesAdjacent | novelty_grid.py:41 | the candidates are exactly the 4-adjacent coordinates |
| Neighbourhood.NeighboursExact | novelty_grid.py:39-47 | the intended neighbour list holds exactly the in-range 4-adjacent cells, in candidate order |
| Neighbourhood.GetNeighboursAsWritten | novelty_grid.py:39-47 | the loop that removes while iterating returns SkipFilter of the candidates: each removal makes the loop skip the following entry |
| Neighbourhood.AsWrittenAdjacent | novelty_grid.py:39-47 | every entry the as-written routine returns is 4-adjacent to the input, in candidate order |
| Neighbourhood.SkipFilterIsFilter | novelty_grid.py:42-45 | removal while iterating filters correctly whenever no two out-of-range entries are consecutive |
| Neighbourhood.AsWrittenAgreesOffCorner | novelty_grid.py:39-47 | for every in-range cell except (0, GRID_SIZE-1), the as-written result equals the intended one |
| Neighbourhood.AsWrittenLeaksAtCorner | novelty_grid.py:42-45 | for (0, GRID_SIZE-1), the as-written result is [(1, 49), (0, 50), (0, 48)]; it keeps the out-of-range (0, 50) and differs from the intended list |
| Neighbourhood.AsWrittenInRangeIff | novelty_grid.py:42-45 | for an in-range input, the as-written result is entirely in range if and only if the input is not (0, GRID_SIZE-1) |
| Growth.FrontierMembers | novelty_grid.py:72-79 | a cell is collected as a candidate iff it is in range, inactive, and 4-adjacent to some listed active cell |
| Growth.FrontierOfBoard | novelty_grid.py:70-79 | on the grid's own active cells, the candidates are exactly the inactive cells with an active 4-neighbour |
| Growth.FrontierNonEmptyIff | novelty_grid.py:70-81 | there is a candidate iff the grid has at least one active and at least one inactive cell |
| Growth.FirstMaxIndex | novelty_grid.py:64 | `distances.index(max(distances))` is the first position of a largest value |
| Growth.FurthestCell | novelty_grid.py:55-65 | returns the candidate at the first position whose summed distance is largest |
| Growth.FrontierAsWrittenIff | novelty_grid.py:74-79 | collecting candidates over the as-written `get_neighbours` fails with an index error iff (0, GRID_SIZE-1) is among the active cells; otherwise it yields exactly the intended candidate list |
| Growth.GrowthAsWritten | novelty_grid.py:70-79 | on a board, the as-written collection fails iff cell (0, GRID_SIZE-1) is active; otherwise it gathers the same candidates as the intended frontier |
| Growth.EmptyCandidatesOnlyOnEmptyGrid | novelty_grid.py:64-79 | the as-written collection yields an empty candidate list (so `max([])` fails) iff the grid is all inactive; on a full grid it fails earlier, at the out-of-range read |
| Growth.Chosen | novelty_grid.py:68-82 | the cell a growth step activates is a collected candidate: in range and inactive |
| Growth.ChosenIsInactiveNeighbour | novelty_grid.py:68-82 | the activated cell is inactive, 4-adjacent to an active cell, no candidate has a larger summed distance, and it sits at the first position of the largest summed distance in the candidate list |
| Growth.GrowthStepActivatesOne | novelty_grid.py:82 | a growth step changes exactly one cell, from inactive to active; no cell is cleared, and the active count grows by one |
| Growth.SingleSeed | novelty_grid.py:68-82 | from a single active cell whose neighbours are all at the same distance, the step activates the first in-range neighbour, which is (x+1, y) when that is in range; the as-written collection succeeds for that seed iff it is not (0, GRID_SIZE-1) |
| NoveltyGrid.Grid.constructor | novelty_grid.py:23 | the new grid array is 50 x 50 and all inactive |
| NoveltyGrid.Grid.SetCell | novelty_grid.py:34-36 | writes `value` into the cell under the pixel; the rest of the array is unchanged |
| NoveltyGrid.Grid.InactiveNeighbours | novelty_grid.py:76-79 | the inner loop collects the currently inactive intended neighbours of one cell, in order |
| NoveltyGrid.Grid.CollectCandidates | novelty_grid.py:72-79 | the nested loops collect the candidate frontier of the given active cells, duplicates kept |
| NoveltyGrid.Grid.EnableFurthestCell | novelty_grid.py:68-82 | the array afterwards is the old board with the chosen cell set to active, and nothing else changes |

## Left out

- Not modelled: the pygame window, `draw_grid`, the event loop and frame timing (novelty_grid.py:16-20, 26-31, 85-113). They are I/O. Reading a cell for drawing is a plain array read.
- `euclidean_distance` (novelty_grid.py:50-52) is replaced by a distance parameter `dist` on cell pairs. Sums are exact reals, so floating-point rounding and `math.sqrt` are not modelled. Only Growth.SingleSeed assumes anything about `dist`: that each 4-neighbour lies at distance 1, as under the Euclidean distance.
- NoveltyGrid.Grid.SetCell: requires the pixel to lie inside the window. Off-window pixels are not modelled. A pixel from -800 to -1 gives an index from -50 to -1, which numpy wraps around to the far side of the grid. A pixel below -800, or at 800 or beyond, gives an index outside that range, and numpy raises IndexError.
- NoveltyGrid.Grid.EnableFurthestCell: requires at least one candidate. With no candidate the code fails on `max([])` (novelty_grid.py:64). For the program as written this happens only on the empty grid; a full grid fails earlier, at line 78, because (0, GRID_SIZE-1) is active (Growth.EmptyCandidatesOnlyOnEmptyGrid). The model states the precondition rather than a no-op, and Growth.FrontierNonEmptyIff says when it holds.
- Growth.FurthestCell: requires a non-empty candidate list, for the same reason.
- The candidate list keeps duplicates, exactly as the code does. A cell next to two active cells appears twice, and the first-maximum rule picks its first occurrence.
- NoveltyGrid.Grid.EnableFurthestCell: uses the intended neighbour filter, not the as-written one. When cell (0, GRID_SIZE-1) is active, the source fails instead: it reads `grid[0, 50]` at novelty_grid.py:78, which is out of range, and leaves the grid unchanged. Growth.GrowthAsWritten proves that whenever that cell is inactive, the as-written collection gathers the same candidates as the model. The remaining difference is the floating-point summation listed above: two candidates whose sums tie exactly over the reals may differ by rounding in the source, so a later candidate can win there. Growth.Chosen describes the intended step in the same way. Growth.SingleSeed states itself that the as-written step fails for the seed (0, GRID_SIZE-1). See Findings.
- The collection loop of `enable_furthest_cell` is modelled as two methods, one per loop level. Their ghost board parameter names the array's contents for the contracts.
- GRID_SIZE, SCREEN_WIDTH and SCREEN_HEIGHT are fixed at the source's values, not parameters.
- `active_cells` from `np.argwhere` is an integer array in the source. Here it is a sequence of coordinate pairs.

## Findings

| source | as written | input that shows it | evidently intended | confidence | as-written member | corrected member |
|---|---|---|---|---|---|---|
| novelty_grid.py:42-45 | `neighbours.remove` inside `for ... in neighbours` shifts the list, so the entry after a removed one is never examined | `get_neighbours(0, 49)` returns [(1, 49), (0, 50), (0, 48)]. The later `grid[0, 50]` read at line 78 is out of range whenever cell (0, 49) is active during growth | every out-of-range coordinate is dropped | not executed | Neighbourhood.AsWrittenLeaksAtCorner | Neighbourhood.NeighboursExact |
