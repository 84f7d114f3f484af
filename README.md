# Conway's Game of Life world, modelled in Dafny

This project models the `World` class of `world2d/conway.py` and the snapshot
loop `make_a_movie`.

A world holds a rows x cols matrix of 0/1 cells in `status`. It also holds a
scratch buffer `_next`, the neighbour-count matrix `conv_matrix` of the last
update, and an update counter `loop_count`.

One update does the following:

- It computes the count matrix by convolving the grid with a kernel. The kernel
  is all zeros except for a 3x3 block of ones with a zero centre.
- It writes three masked assignments into the buffer:
  - a live cell with fewer than 2 neighbours dies;
  - a live cell with more than 3 neighbours dies;
  - a dead cell with exactly 3 neighbours is born.
- When a birth rate is set, it ORs in a random birth mask.
- It increments the counter and installs a copy of the buffer as the new grid.

The model has five modules:

- `Grids`: grids as values (`seq<seq<int>>`), the 0/1 invariant, sums, and
  `Shows(a, g)`, which says that 2-D array `a` holds grid `g`.
- `Neighborhood`: the count of one cell as the stencil-weighted sum, its
  equality with the direct sum of the eight Moore neighbours, and the kernel
  that `calc_conv` builds. The kernel fails to fit a grid with fewer than three
  rows or columns.
- `Rules`: the three masks as data, their order and cell-order independence,
  and the random-birth OR.
- `Life`:
  - `Generation`, the grid one update produces;
  - `Run`, the generations of a run;
  - the `neighbors` query as written (`NeighborsOf`) and as intended
    (`AliveNeighbors`).
- `Conway`: the imperative part.
  - Class `World` has array fields `status`, `next` and `conv` and a counter
    `loopCount`.
  - A ghost field `grid` names the grid `status` holds.
  - A ghost field `counted` names the grid the count matrix was computed from.
  - Module-level methods do the array loops.
  - `MakeAMovie` is split into its two loops (`Advance`, `Film`).
  - `Valid()` includes that the count matrix, once there is one, holds the
    neighbour counts of `counted`, so this holds after every call.

Every state-changing method is proved against the value functions:

- `Update` turns `grid` into `Generation(old(grid), …)`.
- `MakeAMovie` returns snapshots equal to entries `start .. start+n-1` of `Run`.

The properties of those functions are lemmas:

- B3/S23 cell by cell;
- independence from mask order and from the order of cell visits;
- 0/1-ness is preserved;
- population bounds;
- the neighbour count does not depend on the cell's own state.

Inputs that the source draws at random are parameters:

- the initial grid (`init`);
- the birth mask of each update (`mask`, standing for `rand < birth_rate`).

The edge handling of the convolution helper `fft_convolve2d` is the parameter
`Boundary`: zero padding or wrap-around.

A count matrix holds the counts of the grid that the last update *started
from*. So after an update, `neighbors` compares the previous generation's
counts with the current cell states. `World.Neighbors` states exactly that
through `counted`.

## Model

| member | source | states |
|---|---|---|
| Grids.SumBounds | world2d/conway.py:122-124 | the sum of a 0/1 grid lies in [0, rows*cols] and equals rows*cols exactly when every cell is alive |
| Neighborhood.CountIsMooreSum | world2d/conway.py:83-87 | the count-matrix entry of a cell (the 3x3 stencil of ones with a zero centre, centred on it) equals the sum of its eight Moore neighbours |
| Neighborhood.CountBounds | world2d/conway.py:83-87 | on a 0/1 grid every neighbour count lies in [0, 8] |
| Neighborhood.CountsBounds | world2d/conway.py:87-88 | every entry of the stored count matrix of a 0/1 grid lies in [0, 8] |
| Neighborhood.CountIgnoresOwnCell | world2d/conway.py:83-86 | changing a cell's own state does not change its count (the stencil's centre is 0); under wrap-around this needs at least 2 rows and 2 columns |
| Neighborhood.WrapMovesAway | world2d/conway.py:83-86 | with wrap-around on an axis of length at least 2, a non-zero offset never lands back on the cell |
| Neighborhood.ThinTorusCountsOwnCell | world2d/conway.py:83-86 | on a one-cell torus the cell's own state is counted eight times, so the 2-row/2-column condition above is needed |
| Neighborhood.Kernel | world2d/conway.py:81-86 | the kernel is None (the slice assignment raises) iff rows < 3 or cols < 3; otherwise it is rows x cols and is 1 exactly at the eight offsets around (rows//2, cols//2) |
| Rules.SourceRulesAt | world2d/conway.py:50-52 | the three masks in source order, on a buffer equal to the grid: an under- or overpopulated live cell becomes 0, a dead cell with 3 neighbours becomes 1, any other cell keeps its value; on 0/1 cells the result is B3/S23 |
| Rules.ApplyRulesOutcome | world2d/conway.py:50-52 | applying the masks in any order leaves a cell alone when no mask fires and writes the firing mask's value when one does |
| Rules.ApplyMasksAt | world2d/conway.py:50-52 | each cell after several whole-grid masked assignments equals those assignments applied to that cell alone |
| Rules.RuleOrderIrrelevant | world2d/conway.py:50-52 | every permutation of the three masked assignments gives the same next grid as the source order |
| Rules.RuleStepAt | world2d/conway.py:48-52 | the rule step cell by cell: death by under- or overpopulation, birth on exactly 3, otherwise unchanged; B3/S23 on 0/1 cells |
| Rules.RuleStepBinary | world2d/conway.py:50-52 | the rule step of a 0/1 grid is a 0/1 grid |
| Rules.WriteCellsAt | world2d/conway.py:50-52 | after writing a masked assignment cell by cell, exactly the visited cells carry the mask's decision |
| Rules.CellOrderIrrelevant | world2d/conway.py:50-52 | visiting the cells in any covering order (repeats allowed) gives the whole-grid masked assignment, because the masks read the grid and count matrix, never the buffer |
| Rules.SpawnOnlyAdds | world2d/conway.py:54-57 | the OR of `next` and `rand` on 0/1 cells: a cell is alive afterwards iff it was alive or its mask bit is set; an all-set mask fills the grid, a clear mask changes nothing |
| Life.GenerationAt | world2d/conway.py:48-57 | one generation cell by cell: alive if random birth is enabled and the mask bit is set, otherwise B3/S23 on the cell's neighbour count in the previous grid |
| Life.GenerationBinary | world2d/conway.py:48-57 | a generation of a 0/1 grid is a 0/1 grid of the same shape |
| Life.DisabledBirthIgnoresMask | world2d/conway.py:54-57 | with `birth_rate` None or 0 the mask is never consulted: the next grid is the rule step alone |
| Life.DisabledBirthRunsAgree | world2d/conway.py:54-60 | with `birth_rate` None or 0, two runs of the same length from the same grid give identical generations, whatever the masks |
| Life.DisabledBirthEntriesAgree | world2d/conway.py:54-60 | with `birth_rate` None or 0, entry k of two such runs is the same grid, for every k |
| Life.FullMaskFillsGrid | world2d/conway.py:54-57 | with birth enabled and every mask bit set, every cell is alive and the population is rows*cols |
| Life.Run | world2d/conway.py:140-151 | a run of k masks has k+1 generations starting with the initial grid, all of the initial shape |
| Life.RunStep | world2d/conway.py:146-150 | entry k+1 of a run is the generation of entry k under mask k |
| Life.RunChain | world2d/conway.py:146-150 | every consecutive pair of a run is related by one generation |
| Life.RunBinary | world2d/conway.py:146-150 | every generation of a run from a 0/1 grid is a 0/1 grid |
| Life.PyIndex | world2d/conway.py:92-94 | a Python index is accepted iff -n <= p < n, and negative indices count from the end |
| Life.NeighborsDoubleSubtracts | world2d/conway.py:91-95 | `neighbors` as written succeeds exactly for in-range positions, and gives the Moore sum minus the cell's state, one too few at every live cell |
| Life.NeighborsUndercountExample | world2d/conway.py:91-95 | on [[1,1,0],[0,1,0],[0,0,0]] `neighbors((1, 1))` gives 1 while the cell has 2 live neighbours |
| Life.AliveNeighbors | world2d/conway.py:91-95 | the corrected query succeeds iff a count matrix exists and the position is in range |
| Life.AliveNeighborsCorrect | world2d/conway.py:91-95 | the corrected query gives the number of live Moore neighbours, in [0, 8] |
| Conway.FromGrid | world2d/conway.py:37-41 | the initial grid is placed in a fresh rows x cols array holding exactly that grid |
| Conway.CopyGrid | world2d/conway.py:33 | `copy()` gives a fresh array with the same contents |
| Conway.MaskInto | world2d/conway.py:50-52 | one masked assignment over the buffer array turns its grid into the whole-grid masked assignment, decided from the grid and count arrays |
| Conway.RuleInto | world2d/conway.py:50-52 | the three masked assignments in source order turn a buffer holding the grid into the rule step of the grid and its counts |
| Conway.SpawnGrid | world2d/conway.py:54-57 | the OR of `next` and `rand` gives a fresh array holding the spawned grid |
| Conway.World.constructor | world2d/conway.py:26-41 | a new world has the given size and birth rate, holds the initial grid in status and a distinct copy in the buffer, has no count matrix and a counter of 0 |
| Conway.World.CalcConv | world2d/conway.py:80-88 | succeeds iff the kernel fits (rows, cols >= 3); then stores in a fresh array the neighbour counts of the current grid; otherwise changes nothing |
| Conway.World.Update | world2d/conway.py:44-60 | on a grid too small for the kernel, fails and changes nothing; otherwise the grid becomes the generation of the old grid under the mask, the counter goes up by one, status is a fresh copy of the buffer, and the count matrix holds the old grid's counts |
| Conway.World.Population | world2d/conway.py:122-124 | the result is the sum of the grid the world holds, i.e. the number of live cells; it lies in [0, rows*cols] and equals rows*cols iff every cell is alive |
| Conway.World.Neighbors | world2d/conway.py:91-95 | succeeds iff there is a count matrix and the position is in range (with negative indices); the result is the count in the grid the last update started from minus the cell's current state |
| Conway.World.AliveNeighbors | world2d/conway.py:91-95 | the corrected query: same success condition, and the result is the stored count itself, in [0, 8] |
| Conway.World.AliveNeighborsAsIntended | world2d/conway.py:91-95 | the corrected query on the object equals `Life.AliveNeighbors` on the world's grid and its stored count matrix (None before the first update) |
| Conway.Step | world2d/conway.py:147 | one update inside the loops moves the grid from run entry i to entry i+1 and leaves the count matrix computed from entry i, or fails and leaves grid and count matrix |
| Conway.Advance | world2d/conway.py:146-147 | the first loop: `start` updates take the grid from run entry lo to entry hi and raise the counter by hi-lo; it fails without changing the grid iff there is an update and the kernel does not fit; after a successful non-empty loop the count matrix is computed from run entry hi-1, otherwise it is unchanged |
| Conway.Shoot | world2d/conway.py:149-150 | one round of the second loop appends the current grid array and updates; the earlier snapshots keep their contents; on success the count matrix is computed from the photographed entry, on failure it is unchanged |
| Conway.Film | world2d/conway.py:148-150 | the second loop takes hi-lo snapshots; snapshot k holds run entry lo+k; after a successful non-empty loop the count matrix is computed from run entry hi-1, otherwise it is unchanged |
| Conway.MakeAMovie | world2d/conway.py:140-151 | fails iff an update is attempted and the kernel does not fit, leaving grid and counter unchanged; otherwise returns n snapshots, snapshot k being the grid after start+k updates, and leaves the grid after start+n updates with the counter raised by start+n and, when start+n > 0, the count matrix computed from the grid after start+n-1 updates (stale by one generation, as `conv` is) |

## Left out

- `fft_convolve2d` (from `utils`) is not part of this model. The count matrix is the exact stencil sum under a chosen `Boundary` (zero padding or wrap-around). The model does not state how the convolution helper aligns the full-size kernel built at rows//2, cols//2. `Neighborhood.Kernel` is modelled, and its failure decides whether an update succeeds.
- `.round()` after the FFT: floating-point rounding error is not modelled. The counts are exact integers.
- Random numbers: `init_status`'s `randint` and `update`'s `rand(...) < birth_rate` are inputs. They are the initial grid and one boolean mask per update.
- `birth_rate` is `Option<real>`. Only its truthiness (None or 0 disables birth) affects the model, because the comparison with the random draw is the mask.
- `next | rand` is modelled on 0/1 cell values only. Every grid the world holds is 0/1, so bitwise OR is "set to 1 where the mask is set".
- `display`, `run` (a display and print loop), `WorldGUI`, `gen_gif` and the `__main__` block do only I/O, plotting and timing. They are left out.
- Exceptions become values. Python raises inside `calc_conv` on a grid with fewer than 3 rows or columns; here `Update` returns `Fail(KernelDoesNotFit)` and `MakeAMovie` returns `Err`, with the state unchanged. Reading `neighbors` before any update raises `AttributeError` in Python; here it is `Err(NoCountMatrix)`.
- Negative sizes are excluded by the type `nat`.
- Negative `start` or `n` in `make_a_movie` are excluded by the type `nat`. Python's `range` treats them as 0, so each such call behaves as the call with 0.
- `self.shape` and the default arguments `size=(39,39)`, `start=0`, `n=1000` and the default `pos=(0, 0)` of `neighbors` are not modelled. Sizes, `start`, `n` and `pos` are explicit parameters.
- Conway.World.Neighbors: no equation with `Life.NeighborsOf` is stated on the class member. Its contract states the success condition and the value (stored count minus the cell's state) directly, and `Life.NeighborsDoubleSubtracts` proves the undercount on grid values.
- Conway.MakeAMovie: it requires one mask per update (`|masks| == start + n`) of the world's shape. The source draws these itself.

## Findings

| source | as written | input that shows it | evidently intended | confidence | as-written member | corrected member |
|---|---|---|---|---|---|---|
| world2d/conway.py:91-95 | `conv[pos] - status[pos]`: the count matrix already excludes the cell (the stencil centre is 0), so subtracting the cell's state undercounts every live cell by one | grid [[1,1,0],[0,1,0],[0,0,0]] after `calc_conv`, `neighbors((1, 1))` returns 1; cell (1,1) has 2 live neighbours | return the stored count `conv[pos]`, the number of live neighbours | high, not executed | Life.NeighborsUndercountExample | Life.AliveNeighbors |
