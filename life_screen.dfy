/** GameOfLifeScreen.cs: a wrapped grid laid out on a pixel screen, one
    square slot of `CellSize` pixels per cell inside a centred client area,
    stepped generation by generation until a grid repeats. */
module Screen {
  import opened Arith
  import opened Life
  import opened Buffered

  /** Colours as 32-bit ARGB values. */
  const GREEN: int := 0xFF00_8000
  const DEEP_PINK: int := 0xFFFF_1493
  const PINK: int := 0xFFFF_C0CB
  const BLACK: int := 0xFF00_0000

  /** A rectangle by its top-left corner and its size. */
  datatype Rect = Rect(left: int, top: int, width: int, height: int)

  predicate InRect(r: Rect, px: int, py: int)
  {
    r.left <= px < r.left + r.width && r.top <= py < r.top + r.height
  }

  /** The client area: in each direction the largest multiple of the cell
      size that fits the screen, centred with the odd pixel of slack (if any)
      on the right or at the bottom. */
  function ClientArea(screenWidth: int, screenHeight: int, cellSize: int): (r: Rect)
    requires cellSize > 0 && screenWidth >= 0 && screenHeight >= 0
    ensures r.width % cellSize == 0 && r.width <= screenWidth < r.width + cellSize
    ensures r.height % cellSize == 0 && r.height <= screenHeight < r.height + cellSize
  {
    var w := screenWidth / cellSize * cellSize;
    var h := screenHeight / cellSize * cellSize;
    DivModUnique(w, cellSize, screenWidth / cellSize, 0);
    DivModUnique(h, cellSize, screenHeight / cellSize, 0);
    Rect((screenWidth - w) / 2, (screenHeight - h) / 2, w, h)
  }

  /** The client area holds a whole number of slots, as many as fit the
      screen, and lies centred on the screen. */
  lemma ClientAreaCentred(screenWidth: int, screenHeight: int, cellSize: int)
    requires cellSize > 0 && screenWidth >= 0 && screenHeight >= 0
    ensures var r := ClientArea(screenWidth, screenHeight, cellSize);
      r.width % cellSize == 0 && r.height % cellSize == 0
      && r.width / cellSize == screenWidth / cellSize && r.height / cellSize == screenHeight / cellSize
      && r.width <= screenWidth < r.width + cellSize && r.height <= screenHeight < r.height + cellSize
      && 0 <= r.left && r.left + r.width <= screenWidth && 0 <= r.top && r.top + r.height <= screenHeight
      && 0 <= (screenWidth - r.left - r.width) - r.left <= 1
      && 0 <= (screenHeight - r.top - r.height) - r.top <= 1
  {
    SlotsFit(screenWidth, cellSize);
    SlotsFit(screenHeight, cellSize);
  }

  /** The client area holds exactly the slots that fit the screen. */
  lemma ClientAreaSlots(screenWidth: int, screenHeight: int, cellSize: int)
    requires cellSize > 0 && screenWidth >= 0 && screenHeight >= 0
    ensures ClientArea(screenWidth, screenHeight, cellSize).width / cellSize == screenWidth / cellSize >= 0
    ensures ClientArea(screenWidth, screenHeight, cellSize).height / cellSize == screenHeight / cellSize >= 0
  {
    SlotsFit(screenWidth, cellSize);
    SlotsFit(screenHeight, cellSize);
  }

  /** `n / c * c` is a multiple of c holding n / c slots, at most c - 1 short of n. */
  lemma SlotsFit(n: int, c: int)
    requires n >= 0 && c > 0
    ensures (n / c * c) % c == 0 && (n / c * c) / c == n / c
    ensures n / c * c <= n < n / c * c + c
  {
    DivModUnique(n / c * c, c, n / c, 0);
  }

  /** The rectangle DrawGrid paints for cell (x, y): the cell's slot inset
      by the border on every side. */
  function CellRect(area: Rect, cellSize: int, border: int, x: int, y: int): (r: Rect)
    ensures border >= 0 ==> forall px, py :: InRect(r, px, py) ==>
      area.left + x * cellSize <= px < area.left + x * cellSize + cellSize
      && area.top + y * cellSize <= py < area.top + y * cellSize + cellSize
  {
    Rect(area.left + x * cellSize + border, area.top + y * cellSize + border,
         cellSize - border * 2, cellSize - border * 2)
  }

  /** The rectangle of an in-range cell lies inside its slot, hence inside
      the client area and on the screen. */
  lemma CellRectOnScreen(screenWidth: int, screenHeight: int, cellSize: int, border: int, x: int, y: int)
    requires cellSize > 0 && screenWidth >= 0 && screenHeight >= 0
    requires 0 <= border && 2 * border <= cellSize
    requires 0 <= x < screenWidth / cellSize && 0 <= y < screenHeight / cellSize
    ensures var area := ClientArea(screenWidth, screenHeight, cellSize);
      var r := CellRect(area, cellSize, border, x, y);
      area.left + x * cellSize <= r.left && r.left + r.width <= area.left + (x + 1) * cellSize
      && area.top + y * cellSize <= r.top && r.top + r.height <= area.top + (y + 1) * cellSize
      && area.left <= r.left && r.left + r.width <= area.left + area.width
      && area.top <= r.top && r.top + r.height <= area.top + area.height
      && 0 <= r.left && r.left + r.width <= screenWidth && 0 <= r.top && r.top + r.height <= screenHeight
  {
    ClientAreaCentred(screenWidth, screenHeight, cellSize);
    SlotInside(x, screenWidth / cellSize, cellSize);
    SlotInside(y, screenHeight / cellSize, cellSize);
  }

  /** Slot k of n lies inside n slots. */
  lemma SlotInside(k: int, n: int, c: int)
    requires 0 <= k < n && c > 0
    ensures 0 <= k * c && (k + 1) * c <= n * c
  {
    MulNonNegative(k, c);
    assert n * c == (n - k - 1) * c + (k + 1) * c;
    MulNonNegative(n - k - 1, c);
  }

  /** The column of a pixel inside cell x's rectangle determines x. */
  lemma ColumnOfPixel(left: int, cellSize: int, border: int, x: int, px: int)
    requires cellSize > 0 && border >= 0
    requires left + x * cellSize + border <= px < left + x * cellSize + cellSize - border
    ensures (px - left) / cellSize == x
  {
    DivModUnique(px - left, cellSize, x, px - left - x * cellSize);
  }

  /** No pixel is painted by two cells: the rectangles of distinct cells are
      disjoint. */
  lemma CellRectsDisjoint(area: Rect, cellSize: int, border: int, x1: int, y1: int, x2: int, y2: int, px: int, py: int)
    requires cellSize > 0 && border >= 0
    requires InRect(CellRect(area, cellSize, border, x1, y1), px, py)
    requires InRect(CellRect(area, cellSize, border, x2, y2), px, py)
    ensures x1 == x2 && y1 == y2
  {
    ColumnOfPixel(area.left, cellSize, border, x1, px);
    ColumnOfPixel(area.left, cellSize, border, x2, px);
    ColumnOfPixel(area.top, cellSize, border, y1, py);
    ColumnOfPixel(area.top, cellSize, border, y2, py);
  }

  /** With a border of at least one pixel the first column of every slot is
      painted by no cell, so neighbouring cells are separated by a line of
      the background colour. */
  lemma GapBetweenCells(area: Rect, cellSize: int, border: int, x: int, x': int, y': int, py: int)
    requires cellSize > 0 && border >= 1
    ensures !InRect(CellRect(area, cellSize, border, x', y'), area.left + x * cellSize, py)
  {
    if x' >= x {
      MulNonNegative(x' - x, cellSize);
      assert x' * cellSize - x * cellSize == (x' - x) * cellSize;
    } else {
      MulAtLeast(x - x', cellSize);
      assert x * cellSize - x' * cellSize == (x - x') * cellSize;
    }
  }

  /** What DrawGrid asks of the canvas: clear it to a colour, or fill a
      rectangle with a colour. */
  datatype Command = Clear(colour: int) | FillRect(rect: Rect, colour: int)

  /** The fill for cell (x, y): its rectangle in the live or the dead colour. */
  function CellFill(g: Grid, area: Rect, cellSize: int, border: int, alive: int, dead: int, x: int, y: int): Command
    requires WellFormed(g) && InRange(g, x, y)
  {
    FillRect(CellRect(area, cellSize, border, x, y), if CellAt(g, x, y) then alive else dead)
  }

  /** The fill for the cell at row-major index i = y * width + x. */
  function CellCommand(g: Grid, area: Rect, cellSize: int, border: int, alive: int, dead: int, i: int): Command
    requires WellFormed(g) && 0 <= i < g.width * g.height
  {
    assert g.width > 0;
    OffsetSplit(i, g.height, g.width);
    CellFill(g, area, cellSize, border, alive, dead, i % g.width, i / g.width)
  }

  lemma CellCommandAt(g: Grid, area: Rect, cellSize: int, border: int, alive: int, dead: int, x: int, y: int)
    requires WellFormed(g) && InRange(g, x, y)
    ensures 0 <= y * g.width + x < g.width * g.height
    ensures CellCommand(g, area, cellSize, border, alive, dead, y * g.width + x) == CellFill(g, area, cellSize, border, alive, dead, x, y)
  {
    OffsetInBlock(y, x, g.height, g.width);
    assert g.height * g.width == g.width * g.height;
    var i := y * g.width + x;
    DivModUnique(i, g.width, y, x);
    assert i % g.width == x && i / g.width == y;
  }

  /** The fills of every cell before (x, y) in row-major order: all of rows
      0 .. y - 1, then cells 0 .. x - 1 of row y. */
  function FillsBefore(g: Grid, area: Rect, cellSize: int, border: int, alive: int, dead: int, x: int, y: int): seq<Command>
    requires WellFormed(g) && 0 <= x <= g.width && 0 <= y <= g.height && (y == g.height ==> x == 0)
    decreases y, x
  {
    if x > 0 then
      FillsBefore(g, area, cellSize, border, alive, dead, x - 1, y) + [CellFill(g, area, cellSize, border, alive, dead, x - 1, y)]
    else if y > 0 then
      FillsBefore(g, area, cellSize, border, alive, dead, g.width, y - 1)
    else
      []
  }

  /** The fills before (x, y) are the fills of indices 0 .. y * width + x - 1. */
  lemma {:induction false} FillsBeforeIndexed(g: Grid, area: Rect, cellSize: int, border: int, alive: int, dead: int, x: int, y: int)
    requires WellFormed(g) && 0 <= x <= g.width && 0 <= y <= g.height && (y == g.height ==> x == 0)
    ensures y * g.width + x <= g.width * g.height
    ensures |FillsBefore(g, area, cellSize, border, alive, dead, x, y)| == y * g.width + x
    ensures forall i :: 0 <= i < y * g.width + x ==>
      FillsBefore(g, area, cellSize, border, alive, dead, x, y)[i] == CellCommand(g, area, cellSize, border, alive, dead, i)
    decreases y, x
  {
    if x > 0 {
      FillsBeforeIndexed(g, area, cellSize, border, alive, dead, x - 1, y);
      CellCommandAt(g, area, cellSize, border, alive, dead, x - 1, y);
    } else if y > 0 {
      FillsBeforeIndexed(g, area, cellSize, border, alive, dead, g.width, y - 1);
      assert (y - 1) * g.width + g.width == y * g.width;
    } else {
      MulNonNegative(g.width, g.height);
    }
  }

  /** The screen of the program: a buffered screen holding the pixels, and a
      wrapped grid whose cells fill the client area. */
  class GameOfLifeScreen {
    /** The inset of each cell's rectangle in its slot; always 1. */
    const Border: int
    const CellSize: int
    const ScreenWidth: int
    const ScreenHeight: int
    const clientArea: Rect
    /** The committed and pending pixels this screen draws into. */
    const buffers: BufferedScreen
    var grid: GameOfLife
    /** `_frames`: the grids seen since the last randomisation, by value (the
        set hashes and compares grids by dimensions and bytes). */
    var frames: set<Grid>

    ghost predicate Valid()
      reads this, grid
    {
      Border == 1 && CellSize > 0 && ScreenWidth >= 0 && ScreenHeight >= 0
      && clientArea == ClientArea(ScreenWidth, ScreenHeight, CellSize)
      && grid.Valid() && grid.Warped
      && grid.Width == ScreenWidth / CellSize && grid.Height == ScreenHeight / CellSize
      && buffers.Valid() && buffers.Width == ScreenWidth && buffers.Height == ScreenHeight
    }

    /** Lays out the client area and creates a blank wrapped grid with one
        cell per slot; the border argument is not used. */
    constructor(screenWidth: int, screenHeight: int, cellSize: int, border: int)
      requires screenWidth >= 0 && screenHeight >= 0 && cellSize > 0
      ensures Valid() && fresh(grid) && fresh(grid.data) && frames == {}
      ensures CellSize == cellSize && Border == 1 && ScreenWidth == screenWidth && ScreenHeight == screenHeight
      ensures forall x, y :: InRange(grid.Value(), x, y) ==> !CellAt(grid.Value(), x, y)
      ensures forall i :: 0 <= i < screenWidth * screenHeight ==>
        buffers.screenBuffer[i] == GREEN && buffers.tmpBuffer[i] == GREEN
    {
      Border := 1;
      CellSize := cellSize;
      ScreenWidth := screenWidth;
      ScreenHeight := screenHeight;
      buffers := new BufferedScreen(screenWidth, screenHeight, GREEN);
      var area := ClientArea(screenWidth, screenHeight, cellSize);
      ClientAreaSlots(screenWidth, screenHeight, cellSize);
      clientArea := area;
      grid := new GameOfLife(area.width / cellSize, area.height / cellSize, true);
      frames := {};
    }

    /** Forgets the frames seen and refills the grid from the draws. */
    method Randomize(draws: seq<bool>)
      requires Valid() && |draws| >= 8 * grid.data.Length
      modifies this, grid.data
      ensures Valid() && grid == old(grid) && frames == {}
      ensures grid.data[..] == RandomBytes(draws, grid.data.Length)
    {
      frames := {};
      grid.Randomize(draws);
    }

    /** Records the current grid, steps to the next generation and reports
        whether that generation is new since the last randomisation.  A width
        or height of exactly 1 is excluded: on a torus the neighbour reads of
        such a grid leave it. */
    method Next() returns (unseen: bool)
      requires Valid()
      requires grid.Width == 0 || grid.Height == 0 || (grid.Width >= 2 && grid.Height >= 2)
      modifies this
      ensures Valid() && fresh(grid)
      ensures frames == old(frames) + {old(grid.Value())}
      ensures IsNextGeneration(old(grid.Value()), true, grid.Value())
      ensures unseen <==> grid.Value() !in frames
      ensures IsNextGeneration(old(grid.Value()), true, old(grid.Value())) ==> !unseen
    {
      ghost var current := grid.Value();
      frames := frames + {grid.Value()};
      grid := grid.ComputeNextGeneration();
      unseen := grid.Value() !in frames;
      if IsNextGeneration(current, true, current) {
        StillLifeEndsAnimation(old(frames), current, grid.Value());
      }
    }

    /** The canvas commands DrawGrid issues on the pending buffer, in order:
        clear to the background, then one fill per cell, row by row. */
    method DrawGrid(background: int := DEEP_PINK, alive: int := PINK, dead: int := BLACK) returns (cmds: seq<Command>)
      requires grid.Valid()
      ensures |cmds| == 1 + grid.Width * grid.Height && cmds[0] == Clear(background)
      ensures forall i :: 0 <= i < grid.Width * grid.Height ==>
        cmds[i + 1] == CellCommand(grid.Value(), clientArea, CellSize, Border, alive, dead, i)
    {
      cmds := [Clear(background)];
      var W, H := grid.Width, grid.Height;
      ghost var g := grid.Value();
      for y := 0 to H
        invariant cmds == [Clear(background)] + FillsBefore(g, clientArea, CellSize, Border, alive, dead, 0, y)
      {
        for x := 0 to W
          invariant cmds == [Clear(background)] + FillsBefore(g, clientArea, CellSize, Border, alive, dead, x, y)
        {
          var isAlive := grid.Get(x, y);
          cmds := cmds + [FillRect(CellRect(clientArea, CellSize, Border, x, y), if isAlive then alive else dead)];
        }
      }
      FillsBeforeIndexed(g, clientArea, CellSize, Border, alive, dead, 0, H);
    }
  }

  /** Once a still life is reached the next step reports no new generation. */
  lemma StillLifeEndsAnimation(frames: set<Grid>, g: Grid, next: Grid)
    requires WellFormed(g) && IsNextGeneration(g, true, g) && IsNextGeneration(g, true, next)
    ensures next in frames + {g}
  {
    StillLifeRepeats(g, true, next);
  }
}
