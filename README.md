# Game of Life on a smart screen, modelled in Dafny

This project models the core of GameOfLife.SmartScreen, a program that runs
Conway's Game of Life on a small serial-attached display. The model has three
parts and proves properties about each.

- **The bit-packed grid** (`GameOfLife.cs`, module `Life` in `life.dfy`).
  - Cells are stored one bit each in a byte array, column by column. Cell
    (x, y) is bit `y % 8` of byte `x * bytesPerRow + y / 8`, where
    `bytesPerRow = (height + 7) / 8`.
  - Reads and writes follow the grid's topology: a torus when `Warped`, a
    dead border otherwise.
  - The class `GameOfLife` owns the byte array (`array<bv8>`) and updates it in
    place. `Value()` is the grid as `Equals` sees it: the `Grid` datatype of
    dimensions and raw bytes.
  - Neighbour counting, the B3/S23 generation step, the per-byte randomiser,
    equality, hashing and deep copy are methods of the class. They are proved
    against specification functions on `Grid`: `Alive`, `MooreCount`, `Rule`,
    `IsNextGeneration`, `Write` and `RandomBytes`.
- **The dirty-rectangle pipeline** (`BufferedScreen.cs`, module `Buffered` in
  `buffered_screen.dfy`).
  - The committed pixels and the pending pixels are two `array<int>`, row-major.
  - The diff pass copies every differing pending pixel into the committed
    buffer. It returns the changed coordinates and is specified by
    `ChangedPixels`.
  - The greedy clustering pass turns those coordinates into boxes. It is
    specified by `Rounds`: each round takes the first pooled point as its seed
    and absorbs the points near that seed.
  - `Flush` runs the diff, then the clustering, then dispatches the boxes in
    order.
- **The screen** (`GameOfLifeScreen.cs`, module `Screen` in `life_screen.dfy`).
  - The integer layout: the client area, the grid size, and each cell's
    rectangle.
  - The stagnation detector `Next`. It keeps the set of grid values seen since
    the last randomisation and reports whether the new generation is among them.
  - `Randomize`, which clears that set and reseeds the grid in place.

`arith.dfy` (module `Arith`) holds the division, remainder and row-major
offset facts the three parts share.

Three behaviours of the code are worth stating up front:

- `getUpdatedBoxes` starts its scan at index 1 of the pool left after the seed,
  so the point right after the seed is never absorbed in that round. Two or
  more points therefore always give two or more boxes, even when the radii
  cover the whole screen (`Buffered.RoundCount`).
- `GameOfLife.Equals` compares every byte, including the padding bits below
  the last row. It does not compare `Warped`.
- `Next` adds the current grid to the set before it tests the new one, so a
  still life is reported at the very first step (`Screen.StillLifeEndsAnimation` and the last `ensures` of
  `Screen.GameOfLifeScreen.Next`).

## Model

| member | source | states |
|---|---|---|
| Life.WithBitBit | GameOfLife.cs:46-49 | setting or clearing bit k of a byte gives bit k the new value and leaves the other seven bits as they were |
| Life.PackBitsBit | GameOfLife.cs:73-78 | the byte built by or-ing `1 << bit` for every true draw has bit j set exactly when draw j is true |
| Life.ByteIndex | GameOfLife.cs:29-30 | the byte `x * bytesPerRow + y / 8` of an in-range cell lies inside the store of `width * bytesPerRow` bytes |
| Life.CellPositionsDistinct | GameOfLife.cs:29-30 | distinct in-range cells occupy distinct (byte, bit) positions |
| Life.CellIsNotPadding | GameOfLife.cs:15-16 | the bit of an in-range cell is never a padding bit |
| Life.BitIsCellOrPadding | GameOfLife.cs:15-16 | every bit of the store that is not padding is the bit of one in-range cell |
| Life.AlignedHeightHasNoPadding | GameOfLife.cs:15-16 | when the height is a multiple of 8 the store has no padding bits |
| Life.SameCellsSameGrid | GameOfLife.cs:83-89 | two grids of the same size with clear padding and the same cells are equal as `Equals` compares them |
| Life.CsRem | GameOfLife.cs:22 | C#'s truncating remainder: the Euclidean remainder when a >= 0; when a < 0 a value in (-n, 0], 0 exactly when n divides a and otherwise the Euclidean remainder minus n |
| Life.Wrap | GameOfLife.cs:21-25 | the intended torus normalisation lands in [0, n) and leaves in-range coordinates alone |
| Life.WrapPeriodic | GameOfLife.cs:21-25 | the normalisation is unchanged by adding any multiple of the size |
| Life.WrapAsWritten | GameOfLife.cs:22-23 | the written normalisation, `n + a % n` below 0 and `a % n` from n up, agrees with `Wrap` except on exact negative multiples of n |
| Life.WrapAsWrittenEscapes | GameOfLife.cs:22 | on an exact negative multiple of n the written normalisation yields n, one past the grid |
| Life.SetterCoords | GameOfLife.cs:35-38 | the setter's intended normalisation reaches the wrapped cell in both coordinates |
| Life.SetterCoordsAsWritten | GameOfLife.cs:35-38 | the written setter normalisation: for a negative row, x becomes the wrapped row and y stays negative; from row 0 up, y is wrapped and x is the wrapped column when off the exact negative multiples |
| Life.SetterAsWrittenAgrees | GameOfLife.cs:35-38 | for rows from 0 up the setter's written normalisation equals the intended one |
| Life.SetterWrongAxis | GameOfLife.cs:37 | on a 2 x 2 torus the written setter aims (0, -1) at (1, -1) instead of (0, 1) |
| Life.Read | GameOfLife.cs:20-31 | a read gives the topology-aware value `Alive`: false outside a bounded grid, the stored bit inside, the wrapped cell on a torus |
| Life.ReadPeriodic | GameOfLife.cs:21-25 | on a torus, reading x + width or y + height gives the same value as reading x or y |
| Life.MooreCount | GameOfLife.cs:56-66 | the number of live Moore neighbours is at most 8 |
| Life.InsideNeighboursReadable | GameOfLife.cs:61-64 | for a cell inside a torus of at least 2 x 2, all eight neighbour reads stay on the grid |
| Life.BlockCountIsMoore | GameOfLife.cs:56-66 | the counter after the full dx/dy scan, which skips (0, 0), equals the Moore count |
| Life.Write | GameOfLife.cs:43-49 | a cell write keeps the grid well formed and its dimensions unchanged |
| Life.WriteThenRead | GameOfLife.cs:43-49 | after a write the written cell holds the new value and every other cell keeps its old one |
| Life.WriteKeepsPadding | GameOfLife.cs:43-49 | a cell write changes no padding bit |
| Life.WriteKeepsPaddingClear | GameOfLife.cs:43-49 | a cell write preserves clear padding |
| Life.NextGenerationUnique | GameOfLife.cs:103-119 | a grid has at most one next generation |
| Life.StillLifeRepeats | GameOfLife.cs:103-119 | a grid that is its own next generation steps to itself |
| Life.DirtyPaddingNeverRepeats | GameOfLife.cs:83-89 | a grid with a set padding bit never `Equals` its next generation, because generations have clear padding |
| Life.RandomBytes | GameOfLife.cs:71-81 | randomising produces exactly one byte per byte of the store |
| Life.RandomBit | GameOfLife.cs:71-81 | bit b of byte i is set exactly when draw 8 * i + b came out true |
| Life.RandomizeCanDirtyPadding | GameOfLife.cs:71-81 | when the height is not a multiple of 8, a true draw for a padding position leaves the padding dirty |
| Life.HashAgreesWithEquals | GameOfLife.cs:142-148 | `GetHashCode` gives grids that are `Equals` the same value for every per-process seed; `Warped` does not enter it |
| Life.GameOfLife.Value | GameOfLife.cs:4-9 | the value of a valid grid object is a well-formed grid |
| Life.GameOfLife.Get | GameOfLife.cs:19-32 | the indexer getter returns the topology-aware value `Alive`, which is the stored bit for an in-range cell |
| Life.GameOfLife.constructor | GameOfLife.cs:11-17 | a new grid has `(height + 7) / 8` bytes per column, all bytes zero, clear padding and every cell dead |
| Life.GameOfLife.Set | GameOfLife.cs:33-50 | bounded: an out-of-range write leaves the store unchanged and an in-range write is `Write`; wrapped: the write goes to the wrapped cell |
| Life.GameOfLife.WriteCell | GameOfLife.cs:43-49 | the store update sets or clears exactly the bit of in-range cell (x, y), which is `Write` of the old value |
| Life.GameOfLife.CountColumn | GameOfLife.cs:57-66 | the inner loop counts the live cells at (x + dx, y - 1 .. y + 1) through the getter, skipping the cell itself |
| Life.GameOfLife.CountLiveNeighbors | GameOfLife.cs:53-69 | the count, read through the getter with the grid's own topology, is the Moore count and lies in 0..8; the `warped` argument is ignored |
| Life.GameOfLife.PackByte | GameOfLife.cs:73-78 | the byte built from eight draws, or-ing `1 << bit` for each true one from bit 0 up, is their packing |
| Life.GameOfLife.Randomize | GameOfLife.cs:71-81 | every byte of the store is rewritten from the draws, bit b of byte i from draw 8 * i + b, padding included |
| Life.GameOfLife.Equals | GameOfLife.cs:83-89 | equality holds exactly when the other grid is not null and has the same width, height and bytes; `Warped` is not compared |
| Life.GameOfLife.DeepCopy | GameOfLife.cs:97-101 | the copy is a fresh object with a fresh store, the same value and topology, and `Equals` its source |
| Life.GameOfLife.ComputeNextGeneration | GameOfLife.cs:103-119 | the result is a fresh grid with the same size and topology whose cells follow B3/S23 and whose padding is clear; the receiver is not modified |
| Buffered.ChangedPixelsExact | BufferedScreen.cs:87-97 | the diff lists exactly the on-screen pixels whose pending value differs from the committed one, in row-major order, with no repeats |
| Buffered.NoChangesAfterCommit | BufferedScreen.cs:92-95 | a second diff against unchanged pending pixels is empty |
| Buffered.RemoveFirstRemovesOne | BufferedScreen.cs:68 | `List.Remove` takes away exactly one occurrence of a present value and leaves the list alone otherwise |
| Buffered.Rounds | BufferedScreen.cs:50-79 | the greedy clustering yields no rounds exactly when there are no points, and the first round's seed is the first point |
| Buffered.AbsorbedFromTail | BufferedScreen.cs:60-68 | a round absorbs only points near its seed, drawn from the pool after the seed and never its first element |
| Buffered.RoundInsideItsBox | BufferedScreen.cs:58-75 | the seed and every absorbed point lie inside the box the round emits, which is at least 1 x 1 |
| Buffered.ClusterBoxSize | BufferedScreen.cs:65-71 | with non-negative radii a box is at most 2 * radX + 1 wide and 2 * radY + 1 high |
| Buffered.RoundsConsumeEachOnce | BufferedScreen.cs:53-76 | the rounds consume the input exactly: each point is a seed or absorbed exactly as often as it occurs |
| Buffered.RoundsAreClusters | BufferedScreen.cs:65-68 | in every round each absorbed point is within the radii of that round's seed |
| Buffered.MergeCoversInput | BufferedScreen.cs:53-76 | every input point lies in the box of the round that consumed it, and the rounds hold only input points |
| Buffered.RoundCount | BufferedScreen.cs:53-61 | there are no more boxes than points, none exactly when there are no points, and at least two whenever there are two or more points |
| Buffered.SecondSeedIsSecondPoint | BufferedScreen.cs:54-61 | without repeated points, the point right after the seed is not absorbed and becomes the next seed |
| Buffered.MergedBoxesOnScreen | BufferedScreen.cs:53-76 | boxes built from on-screen points lie on the screen |
| Buffered.BufferedScreen.constructor | BufferedScreen.cs:14-21 | both buffers start as distinct width * height arrays filled with the background colour |
| Buffered.BufferedScreen.UpdateScreenBufferAndGetDiffs | BufferedScreen.cs:81-99 | afterwards the committed buffer equals the pending one, the pending buffer is untouched, and the result is `ChangedPixels` of the old committed buffer |
| Buffered.BufferedScreen.UpdateRow | BufferedScreen.cs:88-96 | one row of the diff pass copies the row's pending pixels into the committed buffer, leaves every other pixel alone, and lists the row's changes left to right |
| Buffered.BufferedScreen.GetUpdatedBoxes | BufferedScreen.cs:50-79 | the boxes are those of the rounds of the greedy clustering, in order |
| Buffered.BufferedScreen.ScanNeighbours | BufferedScreen.cs:60-73 | the inner scan removes the round's absorbed points from the pool and returns their bounds together with the seed |
| Buffered.BufferedScreen.Flush | BufferedScreen.cs:39-48 | the buffers are committed first, then the boxes of the diff's clustering are dispatched in list order, each lying on the screen |
| Screen.SlotsFit | GameOfLifeScreen.cs:16-17 | `n / c * c` is a multiple of c holding n / c slots, at most c - 1 short of n |
| Screen.ClientArea | GameOfLifeScreen.cs:16-20 | each side of the client area is a multiple of the cell size, no larger than the screen and less than one cell short of it |
| Screen.ClientAreaCentred | GameOfLifeScreen.cs:16-20 | the client area is a whole number of cells, as many as fit, no larger than the screen, and centred with left and right margins differing by at most one pixel |
| Screen.CellRect | GameOfLifeScreen.cs:44 | with a non-negative border, every pixel of cell (x, y)'s rectangle lies in that cell's slot of the client area |
| Screen.CellRectOnScreen | GameOfLifeScreen.cs:44 | the rectangle of an in-range cell lies in its slot, inside the client area and on the screen |
| Screen.CellRectsDisjoint | GameOfLifeScreen.cs:44 | a pixel lies in the rectangle of at most one cell |
| Screen.GapBetweenCells | GameOfLifeScreen.cs:44 | with a border of at least 1, the first pixel column of every slot is painted by no cell |
| Screen.CellCommandAt | GameOfLifeScreen.cs:42-44 | the fill for row-major index y * width + x is cell (x, y)'s rectangle in the live or dead colour |
| Screen.ClientAreaSlots | GameOfLifeScreen.cs:16-22 | the grid built from the client area has screen width / cell size columns and screen height / cell size rows |
| Screen.FillsBeforeIndexed | GameOfLifeScreen.cs:42-45 | the fills issued before reaching cell (x, y), row by row, are the fills of row-major indices 0 .. y * width + x - 1, each that cell's rectangle in its colour |
| Screen.StillLifeEndsAnimation | GameOfLifeScreen.cs:76-80 | once a grid is its own next generation, the next step finds its result in the history |
| Screen.GameOfLifeScreen.constructor | GameOfLifeScreen.cs:14-24 | the grid is wrapped and has screen width / cell size by screen height / cell size cells, all dead; `Border` is 1 whatever the argument; the buffers start green; the history is empty |
| Screen.GameOfLifeScreen.Randomize | GameOfLifeScreen.cs:26-29 | the history is emptied and the same grid object is reseeded from the draws, keeping its size and topology |
| Screen.GameOfLifeScreen.Next | GameOfLifeScreen.cs:76-80 | the history gains exactly the current grid, the grid becomes its next generation, and the result is true exactly when that generation is not in the history; a still life gives false |
| Screen.GameOfLifeScreen.DrawGrid | GameOfLifeScreen.cs:31-47 | the canvas is cleared to the background, then every cell is filled, row by row, with its rectangle in the live or the dead colour |

## Left out

- Program.cs is not part of this model: option parsing, colour parsing, port
  selection, screen setup and the retry loop are I/O and library glue.
- SkiaSharp rendering is not modelled at pixel level. `DrawGrid` returns the
  canvas commands it issues; the pixels those commands paint into the pending
  buffer are not modelled. `clearBuffers` and `SetBackground` are in the same
  position.
- Screen.GameOfLifeScreen.DrawGrid: states the commands and not the pixels,
  and requires only a valid grid, not the whole screen invariant.
- The transport calls in `Flush` (`CreateBuffer`, `ReadFrom`,
  `DisplayBuffer`) are modelled only as the list of boxes sent, in order. A
  transport failure part way through is not modelled.
- `SaveGrid`, `ToString`, `ClearTile` and `operator ==` / `!=` are not
  modelled. They are file output, display text, an unused helper whose loop
  does not end, and null-handling sugar.
- `Random.NextDouble` and the float or double density are replaced by a
  sequence of booleans, one per bit, each meaning "the draw fell below the
  probability".
- Life.HashOf: the real `HashCode` combiner is seeded per process. The model
  keeps a seed parameter and proves only agreement with `Equals`, not the
  concrete value.
- Integers are unbounded. The 32-bit overflow of `width * bytesPerRow`,
  `screen.Width * screen.Height` and pixel offsets is not modelled; the
  displays are a few hundred pixels wide.
- `SKRect` coordinates are floats in the source. They are modelled as ints,
  which is exact for these sizes.
- Life.GameOfLife.Set: on a torus it requires rows from 0 up and no column on
  an exact negative multiple of the width, which is where the written
  normalisation is the intended one. Other wrapped writes are modelled only by
  `Life.SetterCoordsAsWritten`. The source issues only in-range writes.
- Life.Read: on a torus it requires both dimensions to be at least 1 and no
  coordinate to be an exact negative multiple of its dimension.
  - With a width or height of 0 every wrapped read divides by zero
    (`x % Width`) and the source throws.
  - On an exact negative multiple of the width, the source indexes past the
    store.
  - On an exact negative multiple of the height, it reads a padding bit or
    the next column's first bit. In the last column, with a height that is a
    multiple of 8, that read also indexes past the store.
  - That behaviour appears only as `Life.WrapAsWrittenEscapes`.
- Life.GameOfLife.Get: the indexer getter carries the same exclusion as
  `Life.Read`, for the same reasons.
- Life.GameOfLife.CountLiveNeighbors: on a torus it requires every neighbour
  read to meet the exclusion of `Life.Read`. So it leaves out a torus 1 wide
  or 1 high, and columns such as x = 1 - Width whose neighbour lands on an
  exact negative multiple.
- Life.GameOfLife.ComputeNextGeneration: on a torus it requires one dimension
  to be 0 or both to be at least 2. With a dimension of exactly 1 the
  neighbour reads leave the grid as above.
- Screen.GameOfLifeScreen.Next requires the same of the grid.
- Negative grid dimensions, negative screen sizes and a cell size of 0 or less
  are excluded by `requires`. On them the source does one of three things:
  - it fails (negative array size, division by zero);
  - it builds an empty store: a height from -14 to -1 gives 0 bytes per
    column, and a negative width with height 0 gives no bytes at all;
  - it builds a grid with negative dimensions over a non-empty store. A cell
    size of -8 on a 320 x 480 screen gives a -40 x -60 grid with -6 bytes per
    column and 240 bytes in all.
- Screen.GameOfLifeScreen.Randomize: the history is a set of grid values.
  This is faithful because a grid in the history is never changed afterwards:
  `Randomize` clears the set before reseeding the current grid in place.

## Findings

| source | as written | input that shows it | evidently intended | confidence | as-written member | corrected member |
|---|---|---|---|---|---|---|
| GameOfLife.cs:22 | a negative coordinate x on a torus becomes `Width + (x % Width)` with C#'s truncating `%` | x = -1 on a torus of width 1 (a screen less than two cells wide): the neighbour read goes to column 1, past the store; likewise y = -1 with height 1 reads a padding bit | the Euclidean remainder, here 0 | not executed | Life.WrapAsWrittenEscapes | Life.Wrap |
| GameOfLife.cs:37 | the wrapped setter stores the normalised row into `x` | writing (0, -1) on a 2 x 2 torus aims at column 1, row -1 | writing cell (0, 1) | not executed | Life.SetterWrongAxis | Life.SetterCoords |
