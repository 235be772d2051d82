# Occupancy grid and wavefront planner

A Dafny model of the grid core of the robot mapper: the occupancy map of
`src/Cartographer.py` and the wavefront planner of `src/Navigator.py`.

- `pyerrors.dfy` (module `PyErrors`): the Python exceptions the core can
  raise (IndexError, KeyError, ValueError) and the result shapes that
  carry them.
- `cartographer.dfy` (module `Cartography`): the map and its operations.
  - The map is built from integer world bounds with `CELL_SIZE = 1`; a
    fresh map holds only UNKNOWN cells.
  - Cell tests: the bounds test, the state read with numpy's indexing
    (negative indices wrap), and the obstacle test.
  - The world/cell conversions.
  - `getNextBorder`, the one-step expansion of a border to its admissible
    4-neighbours.
- `navigator.dfy` (module `Navigation`): the planner.
  - `wave` computes breadth-first layers from the robot's cell.
  - `findNeighbor` picks an 8-neighbour of a cell from a layer.
  - `computePath` walks back through the layers. It is modelled as written,
    and a corrected version is modelled beside it (see "## Findings").

The robot's cell is the explicit `start` argument: `getPosition` is not
defined in `src/Cartographer.py`. Python's unordered `set` operations
(`list(set(..))`, `set.pop`) become methods that may return any enumeration
or any member; every contract holds whichever one comes back.

`computePath` (src/Navigator.py:6-14) has no `return` statement, so a
caller that does not see it raise always receives None.

## Model

| member | source | states |
|---|---|---|
| Cartography.Height | src/Cartographer.py:21-25 | With `CELL_SIZE = 1`, the floor division gives exactly `yMax - yMin` rows. |
| Cartography.Width | src/Cartographer.py:27-31 | With `CELL_SIZE = 1`, the floor division gives exactly `xMax - xMin` columns. |
| Cartography.Build | src/Cartographer.py:8-19 | Construction succeeds exactly when both extents are non-negative; otherwise numpy raises ValueError. A built map keeps its bounds, is `Height` x `Width`, and every cell is UNKNOWN. |
| Cartography.FreshMapPassable | src/Cartographer.py:19 | Every in-bounds cell of a freshly built map is passable. |
| Cartography.IsOutOfBound | src/Cartographer.py:33-34 | On a well-shaped map the test is true exactly when the cell is outside the stored grid. |
| Cartography.PyIndex | src/Cartographer.py:45-46 | Python indexing of a length-`n` sequence succeeds exactly for `-n <= i < n`, lands on `i` or `i + n`, and otherwise raises IndexError. |
| Cartography.GetState | src/Cartographer.py:45-46 | Reading a state succeeds exactly for indices from minus the dimension up to the dimension. In bounds it returns the stored state. Otherwise it raises IndexError. |
| Cartography.IsObstacle | src/Cartographer.py:36-37 | Defined exactly where the state read is. In bounds, a cell is an obstacle exactly when it is OCCUPIED; EMPTY and UNKNOWN cells are not obstacles. |
| Cartography.PassableMeansNoObstacle | src/Cartographer.py:63-64 | The model's passability is exactly the source's test: in bounds and `isObstacle` answering False. |
| Cartography.GetGridPosition | src/Cartographer.py:48-51 | The row is the floor of the Y offset and the column the floor of the X offset. A position inside the world bounds lands on an in-bounds cell. |
| Cartography.GetRealPosition | src/Cartographer.py:53-56 | As written, converting back to a cell swaps the components: `GetGridPosition(GetRealPosition((a, b))) == (b, a)`. |
| Cartography.CellCenter | src/Cartographer.py:53-56 | The intended conversion inverts `getGridPosition` on every cell and maps in-bounds cells inside the world bounds. |
| Cartography.CellCenterNearest | src/Cartographer.py:48-56 | The centre of the cell containing a position is within half a cell of it on each axis. |
| Cartography.OffsetsAreAdjacent4 | src/Cartographer.py:61 | The four offsets reach exactly the 4-neighbours of a cell. |
| Cartography.ExpandCell | src/Cartographer.py:61-65 | One border cell contributes at most four cells. Each is passable, not inside, and one offset away. |
| Cartography.ExpandCellComplete | src/Cartographer.py:61-65 | Every passable, not-inside shift of the cell by a tried offset is contributed. |
| Cartography.ExpandCellNoDup | src/Cartographer.py:61-65 | One border cell contributes no cell twice. |
| Cartography.NextBorder | src/Cartographer.py:58-66 | The result has at most four cells per border cell. Each is passable, not inside, and a 4-neighbour of a border cell. The map is read only after the bounds test passes, so the read never raises. |
| Cartography.NextBorderExact | src/Cartographer.py:58-66 | Soundness and completeness: a cell is in the result exactly when it is a passable, not-inside 4-neighbour of some border cell. |
| Cartography.NextBorderConcat | src/Cartographer.py:60-65 | The result for a concatenated border is the concatenation of the results, so nothing is deduplicated. |
| Cartography.NextBorderSingletonNoDup | src/Cartographer.py:58-66 | Expanding a single cell lists no cell twice. |
| Navigation.ListOfSet | src/Navigator.py:34 | `list(set)` returns each member of the set exactly once, in some order. |
| Navigation.FindNeighbor | src/Navigator.py:16-23 | Succeeds exactly when the layer holds an 8-neighbour of `goal`. It then returns a layer member that is an 8-neighbour (not `goal` itself). Otherwise `set.pop` raises KeyError. |
| Navigation.FlattenMember | src/Navigator.py:31 | A cell has been appended to `inside` exactly when it is in one of the layers. |
| Navigation.VisitedMember | src/Navigator.py:27-31 | `inside` holds exactly the start cell and the layer cells. |
| Navigation.LayersVisited | src/Navigator.py:31 | Every layer cell is in `inside`. |
| Navigation.VisitedPrefix | src/Navigator.py:31 | `inside` only grows as layers are added. |
| Navigation.FirstFrontier | src/Navigator.py:27-28 | The first `getNextBorder` call, with empty `inside`, yields exactly the first frontier, without repeats. |
| Navigation.WaveExtend | src/Navigator.py:30 | Appending a non-empty, repeat-free frontier keeps the layers breadth-first. |
| Navigation.FlattenSnoc | src/Navigator.py:31 | Appending a layer appends its cells to `inside`. |
| Navigation.PrefixIsWave | src/Navigator.py:30 | Every prefix of a breadth-first wave is one. |
| Navigation.WaveStep | src/Navigator.py:29-32 | One round keeps the layers breadth-first and adds the layer to `inside`. It strictly shrinks the set of in-bounds cells not yet inside (the termination measure). `getNextBorder` of the new layer is exactly the next frontier. |
| Navigation.FrontierOutsideLayers | src/Navigator.py:33-34 | Frontier cells are in no layer, so subtracting the layers removes nothing from the frontier. |
| Navigation.Wave | src/Navigator.py:25-35 | The result is breadth-first layers from `start`, and no layer holds `dest`. Either `dest` is in the frontier after the last layer (a 4-neighbour of that layer, or of `start` when there is none) or that frontier is empty. |
| Navigation.WaveCells | src/Navigator.py:27-32 | Every layer cell is in bounds, not OCCUPIED, and not the start cell. |
| Navigation.WaveDisjoint | src/Navigator.py:31-34 | The layers are pairwise disjoint. |
| Navigation.WaveAdjacent | src/Navigator.py:28-32 | Layer 0 cells are 4-neighbours of `start`; each later layer cell is a 4-neighbour of a cell of the layer before. |
| Navigation.LayerCellReachable | src/Navigator.py:28-32 | Every cell of layer `k` ends a 4-connected walk of exactly `k + 1` steps from `start`. |
| Navigation.FrontierCellReachable | src/Navigator.py:29-32 | A cell of the final frontier ends a walk one step longer than the wave. |
| Navigation.StepFromVisited | src/Navigator.py:29-32 | A passable 4-neighbour of a cell in `inside` is in `inside` or in the next frontier. |
| Navigation.WalkDepth | src/Navigator.py:25-35 | Breadth-first depth: step `i` of any walk is within the first `i` layers or in the frontier after them. |
| Navigation.ShortestWalk | src/Navigator.py:25-35 | A cell that ends a walk no longer than the wave is in `inside`. |
| Navigation.ClosedWaveHoldsWalk | src/Navigator.py:29 | Once the frontier is empty, no walk leaves `inside`. |
| Navigation.ClosedWaveCoversReachable | src/Navigator.py:29 | When the wave stops on an empty frontier, every reachable cell is in `inside`. |
| Navigation.WaveEmptyIff | src/Navigator.py:27-29 | The wave is empty exactly when the first frontier is empty or holds `dest`. The first frontier never holds `start`. |
| Navigation.ComputePath | src/Navigator.py:6-14 | As written, the call returns (None) exactly when `dest` is `start` and `start` has a passable 4-neighbour. It raises IndexError when the first frontier is empty or holds `dest`. |
| Navigation.CornerReachableOnFreshMap | src/Navigator.py:6-14 | On a fresh 3 x 3 map the corner (0, 0) is reachable from the centre (1, 1), yet `ComputePath` between them raises. |
| Navigation.BackStep | src/Navigator.py:11-12 | A frontier cell after layer `j - 1` has an 8-neighbour in that layer, so `findNeighbor` succeeds. Every cell of that layer is in the frontier of the layers before it. |
| Navigation.FrontierParity | src/Navigator.py:28-32 | A cell of the frontier after `j` layers has coordinate-sum parity equal to that of `start` plus `j + 1`. |
| Navigation.BackStepIs4 | src/Navigator.py:11-12 | The 8-neighbour `findNeighbor` picks in the next-shallower layer is always a 4-neighbour: a diagonal neighbour has the wrong parity to be there. |
| Navigation.ChainIsWalk | src/Navigator.py:11-14 | A route that starts next to `start`, moves between 4-neighbours and stays on passable cells is a walk. |
| Navigation.WalkBack | src/Navigator.py:11-14 | Walking back from a frontier cell yields one cell per layer plus `dest`. It starts next to `start`, consecutive cells are 4-neighbours, every cell is passable and not `start`, so the route is a walk. |
| Navigation.ComputePathCorrected | src/Navigator.py:6-14 | The route exists exactly when `dest` is reachable. It is empty when `dest` is `start`; otherwise it runs from a 4-neighbour of `start` to `dest` through passable 4-connected cells, so it is itself a walk, and it is no longer than any walk to `dest`. |

## Left out

- `ShowMap` and the display (src/Cartographer.py:18): external I/O. Construction assumes it does not raise.
- The numpy float map: cells are integers, since only equality with the three state constants is ever asked of a cell.
- `getPosition(robot)`: not defined in src/Cartographer.py. It is replaced by the `start` argument.
- `Cartographer.update`, `followThePath` and everything in src/PlanningModule.py: empty stubs with no behaviour to state.
- src/Controller.py and src/Computations.py: floating-point pursuit geometry, motion commands and sleeps.
- src/Main.py: argument parsing and the process loop.
- Cartographer.py at the repository root: a superseded draft with no coherent grid behaviour.
- The tests: they construct objects and plot or print, and assert nothing.
- Cartography.GetGridPosition: world coordinates are exact reals, so the rounding of Python's floating-point subtraction near the upper edge is not modelled. With IEEE doubles a coordinate just below `xMax` can round up to column `Width`, which is out of bounds; the model's clause that positions inside the world land in bounds holds only for exact arithmetic.
- Navigation.ComputePath: the reversal of `path` before the function falls off its end is not modelled, because the reversed list is discarded and the caller receives None.

## Findings

| source | as written | input that shows it | evidently intended | confidence | as-written member | corrected member |
|---|---|---|---|---|---|---|
| src/Cartographer.py:53-56 | `getRealPosition` takes X from `square[0]` and Y from `square[1]`, but cells are `(row, col)` with the row from Y | cell `(0, 1)` on a map with bounds at 0 converts to X 0.5, Y 1.5, which `getGridPosition` maps to `(1, 0)` | X from the column and Y from the row, so the conversion inverts `getGridPosition` | high, not executed | Cartography.GetRealPosition | Cartography.CellCenter |
| src/Navigator.py:6-14 | the loop waits for `dest` to become the robot's cell, but each step moves to a layer cell and no layer holds that cell; the first `pop` also discards the layer next to `dest` | fresh 3 x 3 map over bounds 0..3, start `(1, 1)`, dest `(0, 0)`: the wave has one layer, it is popped, and the loop's first `pop` raises IndexError although `(0, 0)` is two steps away | keep every layer, walk back through all of them to the cell next to the start, then return the reversed path | high, not executed | Navigation.ComputePath | Navigation.ComputePathCorrected |
