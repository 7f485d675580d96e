# Game of Life on a torus, reference and partitioned

This project models the grid arithmetic of a Go implementation of Conway's
Game of Life and proves properties of it in Dafny.

- `glife/glife.go` is the reference simulator. A `Universe` holds `ny` rows
  of `nx` one-byte cells (0 dead, 1 alive). `EvolveOneGenerationTo` applies
  B3/S23. Both axes wrap, so the grid is a torus.
- `glifego/glifego.go` splits the torus into `ngo` horizontal strips, one
  per worker. Each worker's `Universe` holds its `ny/ngo` real rows between
  two halo ("shadow") rows. Those rows carry the last real row of the left
  neighbour and the first real row of the right neighbour in the ring of
  workers. Only columns wrap inside a strip.

The Dafny modules follow that split:

- `LifeRules` (`life_rules.dfy`) holds the pure specification.
  - The 8-bit counter of the source, with its wrap-around (`U8`).
  - The wrapped index `(k + n) % n` (`Wrap`).
  - The nine-cell sums exactly as the loops accumulate them.
  - The torus step `Step` and its iterate `StepN`.
  - The padded-strip step `StepStrip`.
  - The glider pattern.
- `Glife` (`glife.dfy`) is the reference `Universe`: a class over an
  `array2<Byte>` whose methods are proved against `LifeRules`. It also holds
  the `life` driver loop.
- `Ring` (`ring.dfy`) holds the worker ring as index arithmetic.
  - Who neighbours whom, and which channels each worker is started with.
  - How the grid is cut into strips, and what each halo row holds.
  - The central theorem: stepping every strip with the halos the ring wires
    in, then stacking the strips, gives the reference step of the whole
    torus.
- `Glifego` (`glifego.dfy`) is the strip `Universe` with its halo rows and
  the configuration check. It runs the workers one after the other per
  generation: halo exchange, evolve, copy back. When every strip has at
  least 3 rows, the `life` driver with `ngo` workers is proved to compute
  `StepN` of the starting grid, which is what the reference simulator
  computes. The driver seeds through the corrected `CheckedSetGliderAt`
  (see Findings), so with smaller strips it reports an error instead.
- `Glider` (`glider.dfy`) covers the doc-comment claim at
  `glife/glife.go:25`. On a torus of at least 6 x 6, four generations move
  the glider one cell down and one cell right. It also proves that a step
  commutes with that diagonal move.

The strip `SetGliderAt` (`glifego/glifego.go:32-38`) checks no bounds and
writes physical rows `i+1 .. i+3`. With a strip of height 2 its last row is
the bottom halo row, so the glider loses that row (see Findings).
`Glifego.Universe.SetGliderAt` models the code as written.

## Model

| member | source | states |
|---|---|---|
| LifeRules.Wrap | glife/glife.go:57 | The wrapped index lies in `0 .. n-1`. It is the index itself inside the range, `n-1` for `-1` and `0` for `n`, so row 0 counts row `ny-1` and column 0 counts column `nx-1`. |
| LifeRules.U8Add | glife/glife.go:54-57 | Adding into the `uint8` counter one cell at a time leaves the whole sum modulo 256. |
| LifeRules.CounterNoWrap | glife/glife.go:60 | A counter holding a sum below 256 does not wrap when a part of that sum is subtracted. |
| LifeRules.Zero | glife/glife.go:16-23 | `ny` rows of `nx` cells, every cell 0. |
| LifeRules.RowSumThree | glife/glife.go:56-58 | The inner loop's sum over `j1 = j-1 .. j+1` is the three wrapped cells of the row. |
| LifeRules.WindowSumRows | glife/glife.go:55-59 | The outer loop's sum is the three row sums added. |
| LifeRules.WindowSumSplit | glife/glife.go:54-60 | The nine-cell sum is the eight neighbours plus the centre cell. |
| LifeRules.WindowBound | glife/glife.go:54-60 | On 0/1 cells the nine-cell sum is at most 9 and the neighbour count at most 8, so the `uint8` counter never wraps. |
| LifeRules.CounterIsNeighbours | glife/glife.go:60 | When the sum fits in the counter, the counter after subtracting the centre is exactly the number of live neighbours. |
| LifeRules.WindowRule | glife/glife.go:60-64 | On 0/1 cells a cell is alive next iff it has 3 live neighbours, or 2 and is alive. |
| LifeRules.NextRow | glife/glife.go:61-64 | The next row has the row's width and holds only 0 and 1. |
| LifeRules.Step | glife/glife.go:51-67 | One torus generation keeps the grid's shape and holds only 0 and 1. |
| LifeRules.StepN | glife/glife.go:84-87 | `ns` generations keep the grid's shape. |
| LifeRules.Rule | glife/glife.go:61-64 | The next state is 0 or 1, and it is 1 exactly when the counter is 3, or 2 on a live cell. |
| LifeRules.StepRule | glife/glife.go:55-64 | On a 0/1 grid a cell of the torus step is 1 iff its eight wrapped neighbours number 3, or 2 and the cell is 1; the count is at most 8. |
| LifeRules.StepStrip | glifego/glifego.go:57-73 | Stepping a padded strip gives its real rows only (two fewer rows), same width, 0/1 cells. |
| LifeRules.StepStripRule | glifego/glifego.go:61-70 | On 0/1 cells a strip cell is alive next iff it has 3 neighbours, or 2 and is alive; the neighbour rows are not wrapped. |
| LifeRules.PlaceGlider | glife/glife.go:26-32 | The five writes of `SetGliderAt` keep the number of rows; `PlaceGliderCells` states which cells they set. |
| LifeRules.PlaceGliderCells | glife/glife.go:26-32 | Placing the glider sets exactly `(i,j+1)`, `(i+1,j+2)`, `(i+2,j)`, `(i+2,j+1)` and `(i+2,j+2)` to 1 and keeps every other cell and the shape. |
| LifeRules.Seed | glife/glife.go:76-78 | The starting grid is all dead except the glider's five cells at `(0, 0)`. |
| Glife.Universe.Make | glife/glife.go:16-23 | A fresh buffer of `ny` rows of `nx` cells, all 0. |
| Glife.Universe.SetGliderAt | glife/glife.go:26-32 | The new cells are the old cells with the glider placed at `(i, j)`. The glider must fit, because an index past the buffer is a run-time panic. |
| Glife.Universe.CopyCellsTo | glife/glife.go:42-48 | The destination holds the source's cells and the source is unchanged. A second copy therefore changes nothing (idempotence). |
| Glife.Universe.AddRow | glife/glife.go:56-58 | The inner loop adds the row's three wrapped cells into the 8-bit counter. |
| Glife.Universe.SumAround | glife/glife.go:54-59 | The two inner loops leave the 8-bit nine-cell sum of the torus window around `(i, j)`. |
| Glife.Universe.NextState | glife/glife.go:54-64 | The value written for `(i, j)` is cell `(i, j)` of `Step` of the current cells. |
| Glife.Universe.EvolveRowTo | glife/glife.go:53-65 | Row `i` of the destination becomes row `i` of `Step`. Other destination rows and the source are unchanged. |
| Glife.Universe.EvolveOneGenerationTo | glife/glife.go:51-67 | The destination becomes `Step` of the source and the source is unchanged. |
| Glife.Life | glife/glife.go:75-87 | After `ns` rounds of evolve and copy back, the current universe holds `StepN(Seed(ny, nx), ns)`. |
| Ring.LeftNeighbour | glifego/glifego.go:193-197 | A worker's left neighbour is a worker of the ring; `NeighboursInverse` gives its number. |
| Ring.RightNeighbour | glifego/glifego.go:193-197 | A worker's right neighbour is a worker of the ring; `NeighboursInverse` gives its number. |
| Ring.WorkerLinks | glifego/glifego.go:193-197 | Worker `i` sends left and receives from the left on the channels numbered `i`. It receives from the right and sends right on the channels numbered by its right neighbour, which is worker 0 for the last worker. |
| Ring.NeighboursInverse | glifego/glifego.go:193-197 | The left neighbour is `(i-1+ngo) % ngo` and the right neighbour `(i+1) % ngo`; going left then right, or right then left, returns to `i`. |
| Ring.TopHaloSender | glifego/glifego.go:191-197 | The worker that sends on the channel a worker receives its top halo row from is exactly its left neighbour. |
| Ring.BottomHaloSender | glifego/glifego.go:191-197 | The worker that sends on the channel a worker receives its bottom halo row from is exactly its right neighbour. |
| Ring.StartBound | glifego/glifego.go:194 | With `ny/ngo` rows per worker, every worker's strip ends inside the `ny`-row grid. |
| Ring.Slice | glifego/glifego.go:194 | Row `r` of worker `k`'s strip is global row `k*h + r`, and the strip lies inside the grid. |
| Ring.Partition | glifego/glifego.go:191-197 | `ngo` strips, each `h` rows high. |
| Ring.Halo | glifego/glifego.go:112-122 | A worker's buffer after the exchange has two rows more than its strip. |
| Ring.HaloParts | glifego/glifego.go:113-121 | After the exchange, a worker's top halo row is its left neighbour's last real row and its bottom halo row is its right neighbour's first real row. Between them it holds its own strip. |
| Ring.SelfWrap | glifego/glifego.go:108-110 | A lone worker's buffer is its strip with its own last row on top and its own first row below. |
| Ring.SelfWrapIsRing | glifego/glifego.go:108-110 | With one worker, the ring's halo rule is the self-wrap: row 0 is row `ny` and row `ny+1` is row 1. |
| Ring.HaloTop | glifego/glifego.go:112-122 | A worker's top halo row is the torus row just above its first row, including worker 0, which wraps to the last worker. |
| Ring.HaloBottom | glifego/glifego.go:112-122 | A worker's bottom halo row is the torus row just below its last row, including the last worker, which wraps to worker 0. |
| Ring.HaloMiddle | glifego/glifego.go:58-59 | Between its halo rows a worker holds its own strip. |
| Ring.HaloRow | glifego/glifego.go:112-122 | Every row `q` of a haloed strip, halo rows included, is the torus row `q-1` rows below the worker's first row, wrapped. |
| Ring.HaloWindow | glifego/glifego.go:61-63 | The three rows read directly around real row `k` are the torus window around the matching global row. |
| Ring.HaloRect | glifego/glifego.go:112-122 | A haloed strip of a rectangular grid is rectangular with the grid's width. |
| Ring.RingStripStep | glifego/glifego.go:112-132 | Stepping a worker's strip with the halos the ring wires in gives exactly that worker's rows of the torus step. |
| Ring.SelfWrapStep | glifego/glifego.go:108-110 | With one worker, stepping the self-wrapped buffer gives the torus step. |
| Ring.JoinPartition | glifego/glifego.go:191-197 | Stacking the strips in worker order gives back the grid. |
| Ring.RingStep | glifego/glifego.go:126-138 | One generation of the ring gives one stepped strip per worker. |
| Ring.RingStepIsStep | glifego/glifego.go:126-138 | Stacking the stepped strips gives the torus step of the whole grid, for any worker count and strip height. |
| Glifego.WithRealIdempotent | glifego/glifego.go:48-54 | Copying the real rows in twice leaves what copying once left. |
| Glifego.WithRealOwn | glifego/glifego.go:48-54 | Copying a buffer's own real rows back changes nothing. |
| Glifego.GliderInReal | glifego/glifego.go:32-38 | When the glider lies three or more rows above the last physical row, placing it one row down on the buffer places it on the real rows and keeps both halo rows. |
| Glifego.OffSet | glifego/glifego.go:12 | Physical row `i + 1` of a strip buffer holds real row `i`; row 0 is the top halo row. |
| Glifego.Universe.Real | glifego/glifego.go:42-44 | The real rows are physical rows `offSet .. ny`, `ny` rows of `nx` cells. |
| Glifego.Universe.Make | glifego/glifego.go:22-29 | A fresh buffer of `ny+2` rows of `nx` cells, all 0. |
| Glifego.Universe.SetGliderAt | glifego/glifego.go:32-38 | The glider is placed at physical row `i+offSet`. Only the physical bounds are required, so its last row may be the bottom halo row. |
| Glifego.Universe.CheckedSetGliderAt | glifego/glifego.go:32-38 | It succeeds iff the glider fits in the real rows; then it places the glider on the real rows and keeps the halo rows. Otherwise nothing changes. |
| Glifego.Universe.CopyCellsTo | glifego/glifego.go:48-54 | The destination's real rows become the source's real rows. The destination's halo rows and the source are unchanged. |
| Glifego.Universe.AddRow | glifego/glifego.go:62-64 | The inner loop adds the row's three column-wrapped cells into the 8-bit counter. |
| Glifego.Universe.SumAround | glifego/glifego.go:60-65 | The two inner loops leave the 8-bit nine-cell sum of rows `i-1 .. i+1` read directly, columns wrapped. |
| Glifego.Universe.NextState | glifego/glifego.go:60-70 | The value written for physical cell `(i, j)` is cell `(i-1, j)` of `StepStrip` of the buffer. |
| Glifego.Universe.EvolveRowTo | glifego/glifego.go:59-71 | Physical row `i` of the destination becomes the matching row of `StepStrip`. Other rows and the source are unchanged. |
| Glifego.Universe.EvolveOneGenerationTo | glifego/glifego.go:57-73 | The destination's real rows become `StepStrip` of the source. The destination's halo rows and the source are unchanged. |
| Glifego.Universe.SetHalos | glifego/glifego.go:108-122 | Rows 0 and `ny+1` become the given rows and the real rows are unchanged. |
| Glifego.HaloRows | glifego/glifego.go:112-122 | Installing the left neighbour's last real row and the right neighbour's first real row around a worker's real rows gives the ring's haloed strip. |
| Glifego.ExchangeOne | glifego/glifego.go:108-122 | After its exchange, worker `k`'s buffer is its haloed strip: the self-wrap for one worker, the ring rule otherwise. |
| Glifego.ExchangeHalos | glifego/glifego.go:107-123 | After the exchange, every worker's buffer is its haloed strip of the real rows held before it. |
| Glifego.EvolveOne | glifego/glifego.go:132 | Worker `k`'s second universe gets `StepStrip` of its buffer. No other buffer changes. |
| Glifego.EvolveAll | glifego/glifego.go:126-136 | Every worker's second universe holds `StepStrip` of its current buffer. |
| Glifego.CommitOne | glifego/glifego.go:137 | Worker `k`'s real rows become those of its second universe. No other buffer changes. |
| Glifego.CommitAll | glifego/glifego.go:133-137 | Every worker's real rows become those of its second universe, and its halo rows are kept. |
| Glifego.CheckConfig | glifego/glifego.go:167-174 | The check accepts iff `ngo` is 1 or even and divides `ny`, and then returns the strip height `ny/ngo`. Otherwise it returns the error of the first failing test, in the source's order. |
| Glifego.SeedStrips | glifego/glifego.go:84-86 | Worker 0's strip of the starting grid is the glider at `(0, 0)` and every other strip is empty. |
| Glifego.Spawn | glifego/glifego.go:81-83 | Every worker gets two fresh, distinct universes of `h` real rows, every cell of both dead (`AllDead` for the second). |
| Glifego.PlantGlider | glifego/glifego.go:84-86 | Worker 0 places the glider when it fits in its real rows; the other workers stay empty. |
| Glifego.Seeded | glifego/glifego.go:81-86 | When the glider fits, the workers' real rows are the strips of the starting grid. |
| Glifego.Generation | glifego/glifego.go:126-138 | When the workers hold the strips of `g`, after one exchange, evolve and copy back they hold the strips of `Step(g)`. |
| Glifego.Gather | glifego/glifego.go:140-158 | The workers' real rows stacked in worker order (the order of the print pipeline) are the grid they hold. |
| Glifego.Run | glifego/glifego.go:126-138 | After `ns` generations the workers hold the strips of `StepN(g0, ns)`. |
| Glifego.Life | glifego/glifego.go:163-205 | A rejected configuration gives the check's error, and a glider that does not fit in worker 0's real rows gives `GliderOutOfRange` (the corrected placement). Otherwise the result is `StepN(Seed(ny, nx), ns)`, the same grid as the reference simulator for every worker count. |
| Glifego.GliderClippedByHalo | glifego/glifego.go:32-38 | With `ny = 4` and two workers the check accepts, the glider's last row lands in the bottom halo row, and the strips then hold a grid other than the starting grid. |
| Glider.PhaseNeighbours | glife/glife.go:55-58 | The torus neighbour count on a phase grid is the count of the phase's wrapped live cells. |
| Glider.PhaseStep | glife/glife.go:25 | On a torus of at least 6 x 6, one generation takes glider phase `k` to phase `k+1`, for `k < 4`. |
| Glider.SeedIsPhase | glife/glife.go:78 | The starting grid is glider phase 0. |
| Glider.FourSteps | glife/glife.go:25 | Four generations take the starting grid to phase 4. |
| Glider.PhaseShift | glife/glife.go:25 | Phase 4 is the starting grid moved one row down and one column right. |
| Glider.AtShifted | glife/glife.go:57 | A wrapped read of the moved grid is the wrapped read of the grid one row up and one column left. |
| Glider.NeighboursShifted | glife/glife.go:55-59 | A cell of the moved grid has the neighbour count of its source cell. |
| Glider.CellShifted | glife/glife.go:60-64 | On a 0/1 grid, each cell of the step of the moved grid is the same cell of the moved step. |
| Glider.StepShifted | glife/glife.go:51-67 | On a 0/1 grid, the torus step commutes with moving the grid one cell diagonally. |
| Glider.GliderMoves | glife/glife.go:25 | On a torus of at least 6 x 6, four generations of the starting grid give the starting grid moved one cell down and right. |

## Left out

- Goroutines, the barriers (an external library), the channels and the
  `sync.WaitGroup` join are not modelled. The workers run one after the
  other inside every generation: all exchange, all evolve, all copy back.
  Freedom from deadlock and the even/odd send order are concurrency
  properties and are not stated.
- Row-slice aliasing through the channels is modelled as copies. Before
  every generation the neighbours' edge rows are copied into the halo rows
  (`SetHalos`). The source instead shares the row slices once, so later
  writes to those rows show through. Both give the same halo rows at every
  compute phase.
- `Print`, the ordered print pipeline, `fmt.Println`, timing and `os.Exit`
  are I/O and are not modelled. `Life` returns the grid the print-out
  shows, and a rejected configuration becomes an error value instead of
  exiting the process.
- The `main` functions, the benchmarks and the print-only test are left out.
- Index panics of the source are preconditions of `SetGliderAt` in both
  files and of the reference `life` with fewer than 3 rows or columns. The
  strip driver `Glifego.Life` reports them as an error instead (next two
  lines).
- Glifego.Life: seeds through the corrected `CheckedSetGliderAt`. With
  strips of 2 rows it returns `GliderOutOfRange`, where the source runs on
  from a glider that lost its last row. With strips of 1 row, or fewer
  than 3 columns, it returns `GliderOutOfRange`, where the source panics.
- Glifego.PlantGlider: places the glider only when it fits in worker 0's
  real rows, and otherwise reports failure. The source writes the glider's
  last row into the bottom halo row, or panics.
- `ngo >= 1` is a precondition, because `ny % ngo` panics for 0. `ns` is
  a natural number; a negative `ns` in the source runs no generation.
- Glider.GliderMoves: the glider is proved to move once, in four
  generations. Its continued travel (16 generations in the demo) is not
  proved; `StepShifted` is the step such a proof would build on.

## Findings

| source | as written | input that shows it | evidently intended | confidence | as-written member | corrected member |
|---|---|---|---|---|---|---|
| glifego/glifego.go:32-38 | `SetGliderAt` writes physical rows `i+1 .. i+3`, and `life` accepts any strip height that divides `ny`. With a strip of 2 real rows the glider's last row is the bottom halo row, which the halo exchange replaces by the right neighbour's first row. | `nx = 10, ny = 4, ngo = 2` (strip height 2): the run starts from a grid without the glider's bottom row. | Place the glider only inside the real rows, and report an error when it does not fit. | not executed | Glifego.GliderClippedByHalo | Glifego.Universe.CheckedSetGliderAt |
