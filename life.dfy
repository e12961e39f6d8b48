/** The bit-packed Game of Life grid of GameOfLife.cs.

    The cells live in a byte array in column-major order: cell (x, y) is bit
    `y % 8` of byte `x * bytesPerRow + y / 8`, with `bytesPerRow` bytes per
    column.  The value a grid has (its dimensions and its bytes, but not its
    topology flag) is the datatype `Grid`; the class `GameOfLife` owns the
    array and changes it in place. */
module Life {
  import opened Arith

  // ---------------------------------------------------------------------
  // Bits of a byte
  // ---------------------------------------------------------------------

  /** Bit `k` of `b`, as `(b & (1 << k)) != 0` tests it. */
  function Bit(b: bv8, k: nat): bool
    requires k < 8
  {
    (b & (1 << k)) != 0
  }

  /** `b` with bit `k` set (`b | (1 << k)`) or cleared (`b & ~(1 << k)`). */
  function WithBit(b: bv8, k: nat, v: bool): (r: bv8)
    requires k < 8
  {
    if v then b | (1 << k) else b & !(1 << k)
  }

  /** Setting or clearing bit `k` gives it the new value and keeps the
      other seven bits. */
  lemma WithBitBit(b: bv8, k: nat, v: bool, j: nat)
    requires k < 8 && j < 8
    ensures Bit(WithBit(b, k, v), j) == if j == k then v else Bit(b, j)
  {
    ShiftBit(k, j);
    if v {
      OrBit(b, 1 << k, j);
    } else {
      AndNotBit(b, 1 << k, j);
    }
  }

  /** A byte is determined by its eight bits. */
  lemma BitsDetermineByte(a: bv8, c: bv8)
    requires forall j :: 0 <= j < 8 ==> Bit(a, j) == Bit(c, j)
    ensures a == c
  {
    assert Bit(a, 0) == Bit(c, 0) && Bit(a, 1) == Bit(c, 1);
    assert Bit(a, 2) == Bit(c, 2) && Bit(a, 3) == Bit(c, 3);
    assert Bit(a, 4) == Bit(c, 4) && Bit(a, 5) == Bit(c, 5);
    assert Bit(a, 6) == Bit(c, 6) && Bit(a, 7) == Bit(c, 7);
  }

  /** The byte whose bit `k` is `draws[k]`, built as Randomize builds it:
      starting from 0 and or-ing in `1 << k` for every true draw. */
  function PackBits(draws: seq<bool>): (r: bv8)
    requires |draws| <= 8
    decreases |draws|
  {
    if draws == [] then 0
    else
      var k := |draws| - 1;
      PackBits(draws[..k]) | (if draws[k] then 1 << k else 0)
  }

  lemma {:induction false} PackBitsBit(draws: seq<bool>, j: nat)
    requires |draws| <= 8 && j < 8
    ensures Bit(PackBits(draws), j) == (j < |draws| && draws[j])
    decreases |draws|
  {
    if draws != [] {
      var k := |draws| - 1;
      PackBitsBit(draws[..k], j);
      PackBitsLast(draws, j);
      assert j < k ==> draws[..k][j] == draws[j];
    }
  }

  /** Bit `j` of `PackBits(draws)` is bit `j` of the packed prefix, or the
      last draw when `j` is its position. */
  lemma PackBitsLast(draws: seq<bool>, j: nat)
    requires 0 < |draws| <= 8 && j < 8
    ensures Bit(PackBits(draws), j)
         == (Bit(PackBits(draws[..|draws| - 1]), j) || (j == |draws| - 1 && draws[j]))
  {
    var k := |draws| - 1;
    var top: bv8 := if draws[k] then 1 << k else 0;
    OrBit(PackBits(draws[..k]), top, j);
    if draws[k] { ShiftBit(k, j); } else { ZeroBit(j); }
  }

  /** Packing one more draw or-s in its bit (or nothing) at the next position. */
  lemma PackBitsStep(draws: seq<bool>, lo: int, bit: int)
    requires 0 <= lo && 0 <= bit < 8 && lo + bit < |draws|
    ensures draws[lo + bit] ==> PackBits(draws[lo .. lo + bit + 1]) == PackBits(draws[lo .. lo + bit]) | (1 << bit)
    ensures !draws[lo + bit] ==> PackBits(draws[lo .. lo + bit + 1]) == PackBits(draws[lo .. lo + bit])
  {
    assert draws[lo .. lo + bit + 1][..bit] == draws[lo .. lo + bit];
    assert PackBits(draws[lo .. lo + bit]) | 0 == PackBits(draws[lo .. lo + bit]);
  }

  lemma OrBit(a: bv8, c: bv8, j: nat)
    requires j < 8
    ensures Bit(a | c, j) == (Bit(a, j) || Bit(c, j))
  {
  }

  lemma AndNotBit(a: bv8, c: bv8, j: nat)
    requires j < 8
    ensures Bit(a & !c, j) == (Bit(a, j) && !Bit(c, j))
  {
  }

  lemma ShiftBit(k: nat, j: nat)
    requires k < 8 && j < 8
    ensures Bit(1 << k, j) == (j == k)
  {
  }

  lemma ZeroBit(j: nat)
    requires j < 8
    ensures !Bit(0, j)
  {
  }

  // ---------------------------------------------------------------------
  // Grid values: dimensions plus packed bytes
  // ---------------------------------------------------------------------

  /** Bytes per column, `(height + 7) / 8` (GameOfLife.cs names it `_bytesPerRow`). */
  function BytesPerRow(height: int): int
  {
    (height + 7) / 8
  }

  /** What a grid is worth to `Equals` and `GetHashCode`: its dimensions and
      its raw bytes, padding bits included; the topology flag is not part of it. */
  datatype Grid = Grid(width: int, height: int, bytes: seq<bv8>)

  predicate WellFormed(g: Grid)
  {
    g.width >= 0 && g.height >= 0 && |g.bytes| == g.width * BytesPerRow(g.height)
  }

  predicate InRange(g: Grid, x: int, y: int)
  {
    0 <= x < g.width && 0 <= y < g.height
  }

  lemma RowByteInColumn(y: int, height: int)
    requires 0 <= y < height
    ensures 0 <= y / 8 < BytesPerRow(height)
  {
  }

  /** The byte holding cell (x, y): `x * bytesPerRow + y / 8`; it is always
      inside the store. */
  function ByteIndex(g: Grid, x: int, y: int): (i: int)
    requires WellFormed(g) && InRange(g, x, y)
    ensures 0 <= i < |g.bytes|
  {
    RowByteInColumn(y, g.height);
    OffsetInBlock(x, y / 8, g.width, BytesPerRow(g.height));
    x * BytesPerRow(g.height) + y / 8
  }

  /** The stored value of an in-range cell: bit `y % 8` of its byte. */
  function CellAt(g: Grid, x: int, y: int): bool
    requires WellFormed(g) && InRange(g, x, y)
  {
    Bit(g.bytes[ByteIndex(g, x, y)], y % 8)
  }

  /** Distinct in-range cells occupy distinct (byte, bit) positions. */
  lemma CellPositionsDistinct(g: Grid, x1: int, y1: int, x2: int, y2: int)
    requires WellFormed(g) && InRange(g, x1, y1) && InRange(g, x2, y2)
    requires x1 != x2 || y1 != y2
    ensures ByteIndex(g, x1, y1) != ByteIndex(g, x2, y2) || y1 % 8 != y2 % 8
  {
    if ByteIndex(g, x1, y1) == ByteIndex(g, x2, y2) {
      RowByteInColumn(y1, g.height);
      RowByteInColumn(y2, g.height);
      OffsetInjective(x1, y1 / 8, x2, y2 / 8, BytesPerRow(g.height));
    }
  }

  /** Bit `b` of byte `i` stores no cell: it lies below the last row of its column. */
  predicate IsPaddingBit(g: Grid, i: int, b: int)
    requires WellFormed(g)
  {
    0 <= i < |g.bytes| && 0 <= b < 8 && BytesPerRow(g.height) > 0
    && (i % BytesPerRow(g.height)) * 8 + b >= g.height
  }

  ghost predicate PaddingClear(g: Grid)
    requires WellFormed(g)
  {
    forall i, b :: IsPaddingBit(g, i, b) ==> !Bit(g.bytes[i], b)
  }

  /** The bit of an in-range cell is never a padding bit. */
  lemma CellIsNotPadding(g: Grid, x: int, y: int)
    requires WellFormed(g) && InRange(g, x, y)
    ensures !IsPaddingBit(g, ByteIndex(g, x, y), y % 8)
  {
    RowByteInColumn(y, g.height);
    DivModUnique(ByteIndex(g, x, y), BytesPerRow(g.height), x, y / 8);
  }

  /** Every bit of the store that is not padding is the bit of the cell
      (i / bytesPerRow, (i % bytesPerRow) * 8 + b). */
  lemma BitIsCellOrPadding(g: Grid, i: int, b: int)
    requires WellFormed(g) && 0 <= i < |g.bytes| && 0 <= b < 8 && !IsPaddingBit(g, i, b)
    ensures var x, y := i / BytesPerRow(g.height), (i % BytesPerRow(g.height)) * 8 + b;
      InRange(g, x, y) && ByteIndex(g, x, y) == i && y % 8 == b
  {
    var bpr := BytesPerRow(g.height);
    OffsetSplit(i, g.width, bpr);
    var y := (i % bpr) * 8 + b;
    DivModUnique(y, 8, i % bpr, b);
  }

  /** Two well-formed grids of the same size whose padding is clear are equal
      as soon as every cell agrees. */
  lemma {:induction false} SameCellsSameGrid(g: Grid, h: Grid)
    requires WellFormed(g) && WellFormed(h) && g.width == h.width && g.height == h.height
    requires PaddingClear(g) && PaddingClear(h)
    requires forall x, y :: InRange(g, x, y) ==> CellAt(g, x, y) == CellAt(h, x, y)
    ensures g == h
  {
    forall i | 0 <= i < |g.bytes|
      ensures g.bytes[i] == h.bytes[i]
    {
      forall b | 0 <= b < 8
        ensures Bit(g.bytes[i], b) == Bit(h.bytes[i], b)
      {
        if !IsPaddingBit(g, i, b) {
          BitIsCellOrPadding(g, i, b);
          var bpr := BytesPerRow(g.height);
          var x, y := i / bpr, (i % bpr) * 8 + b;
          assert CellAt(g, x, y) == CellAt(h, x, y);
        } else {
          assert IsPaddingBit(h, i, b);
        }
      }
      BitsDetermineByte(g.bytes[i], h.bytes[i]);
    }
  }

  // ---------------------------------------------------------------------
  // Coordinate normalisation
  // ---------------------------------------------------------------------

  /** C#'s `%`: the quotient is truncated toward zero, so the remainder has
      the sign of `a`; it is the Euclidean remainder, or that minus `n`. */
  function CsRem(a: int, n: int): (r: int)
    requires n > 0
    ensures r == a % n || r == a % n - n
    ensures r == 0 <==> a % n == 0
    ensures a >= 0 ==> r == a % n
    ensures a < 0 ==> -n < r <= 0
  {
    if a >= 0 then a % n
    else
      var e := (-a) % n;
      assert a == (-((-a) / n) - 1) * n + (n - e) by { assert -a == ((-a) / n) * n + e; }
      if e == 0 then DivModUnique(a, n, -((-a) / n), 0); 0
      else DivModUnique(a, n, -((-a) / n) - 1, n - e); -e
  }

  /** The intended normalisation of a coordinate on a torus of size `n`:
      the Euclidean remainder, which is always a valid index. */
  function Wrap(a: int, n: int): (r: int)
    requires n > 0
    ensures 0 <= r < n
    ensures 0 <= a < n ==> r == a
  {
    a % n
  }

  /** Wrapping is periodic: shifting by any multiple of the size changes nothing. */
  lemma WrapPeriodic(a: int, n: int, k: int)
    requires n > 0
    ensures Wrap(a + k * n, n) == Wrap(a, n)
  {
    DivModUnique(a, n, a / n, a % n);
    assert a + k * n == (a / n + k) * n + a % n;
    DivModUnique(a + k * n, n, a / n + k, a % n);
  }

  predicate NotNegMultiple(a: int, n: int)
    requires n > 0
  {
    !(a < 0 && a % n == 0)
  }

  /** The normalisation GameOfLife.cs (lines 22-25) applies to each coordinate
      of a wrapped read: `n + (a % n)` with C#'s `%` below 0, `a % n` from `n`
      up.  It agrees with `Wrap` except on the exact negative multiples of `n`. */
  function WrapAsWritten(a: int, n: int): (r: int)
    requires n > 0
    ensures NotNegMultiple(a, n) ==> r == Wrap(a, n)
  {
    if a < 0 then n + CsRem(a, n)
    else if a >= n then a % n
    else a
  }

  /** On an exact negative multiple of `n` the written normalisation yields
      `n` itself, one past the last column or row. */
  lemma WrapAsWrittenEscapes(a: int, n: int)
    requires n > 0 && a < 0 && a % n == 0
    ensures WrapAsWritten(a, n) == n
  {
  }

  /** The coordinates the indexer setter writes when `Warped`, as lines 35-38
      compute them: line 37 stores the wrapped row into `x` and leaves a
      negative `y` untouched. */
  function SetterCoordsAsWritten(x: int, y: int, width: int, height: int): (r: (int, int))
    requires width > 0 && height > 0
    ensures y < 0 ==> r.1 == y && (NotNegMultiple(y, height) ==> r.0 == Wrap(y, height))
    ensures y >= 0 ==> r.1 == Wrap(y, height) && (NotNegMultiple(x, width) ==> r.0 == Wrap(x, width))
  {
    var x' := WrapAsWritten(x, width);
    if y < 0 then (height + CsRem(y, height), y)
    else if y >= height then (x', y % height)
    else (x', y)
  }

  /** The setter's coordinates as intended: the same normalisation as a read,
      applied to x and to y, which lands on the wrapped cell. */
  function SetterCoords(x: int, y: int, width: int, height: int): (r: (int, int))
    requires width > 0 && height > 0 && NotNegMultiple(x, width) && NotNegMultiple(y, height)
    ensures r == (Wrap(x, width), Wrap(y, height))
  {
    (WrapAsWritten(x, width), WrapAsWritten(y, height))
  }

  /** For rows from 0 up the written setter and the intended one agree. */
  lemma SetterAsWrittenAgrees(x: int, y: int, width: int, height: int)
    requires width > 0 && height > 0 && NotNegMultiple(x, width) && y >= 0
    ensures SetterCoordsAsWritten(x, y, width, height) == SetterCoords(x, y, width, height)
  {
  }

  /** On a 2 x 2 torus, writing (0, -1) should reach cell (0, 1); the written
      setter aims at column 1 with the row still -1. */
  lemma SetterWrongAxis()
    ensures SetterCoordsAsWritten(0, -1, 2, 2) == (1, -1)
    ensures SetterCoords(0, -1, 2, 2) == (0, 1)
  {
    assert CsRem(-1, 2) == -1;
  }

  // ---------------------------------------------------------------------
  // Reading cells through the topology
  // ---------------------------------------------------------------------

  /** Where the indexer getter reads the cell it means to: any coordinate
      when bounded; when wrapped, non-empty dimensions and no coordinate on an
      exact negative multiple of its dimension (there the written
      normalisation lands one past the grid). */
  predicate Readable(g: Grid, warped: bool, x: int, y: int)
  {
    !warped || (g.width > 0 && g.height > 0 && NotNegMultiple(x, g.width) && NotNegMultiple(y, g.height))
  }

  /** The intended topology-aware value of (x, y): on a torus the cell at the
      Euclidean remainders, on a bounded grid the cell if in range and dead
      outside. */
  function Alive(g: Grid, warped: bool, x: int, y: int): bool
    requires WellFormed(g)
  {
    if warped then g.width > 0 && g.height > 0 && CellAt(g, Wrap(x, g.width), Wrap(y, g.height))
    else InRange(g, x, y) && CellAt(g, x, y)
  }

  /** The indexer getter of GameOfLife.cs (lines 20-31), as written. */
  function Read(g: Grid, warped: bool, x: int, y: int): (r: bool)
    requires WellFormed(g) && Readable(g, warped, x, y)
    ensures r == Alive(g, warped, x, y)
    ensures !warped && !InRange(g, x, y) ==> !r
    ensures InRange(g, x, y) ==> r == CellAt(g, x, y)
  {
    if warped then
      CellAt(g, WrapAsWritten(x, g.width), WrapAsWritten(y, g.height))
    else if x < 0 || x >= g.width || y < 0 || y >= g.height then
      false
    else
      CellAt(g, x, y)
  }

  /** On a torus a read is periodic in both coordinates. */
  lemma ReadPeriodic(g: Grid, x: int, y: int)
    requires WellFormed(g) && Readable(g, true, x, y)
    ensures Readable(g, true, x + g.width, y) && Read(g, true, x + g.width, y) == Read(g, true, x, y)
    ensures Readable(g, true, x, y + g.height) && Read(g, true, x, y + g.height) == Read(g, true, x, y)
  {
    WrapPeriodic(x, g.width, 1);
    WrapPeriodic(y, g.height, 1);
  }

  function AliveCount(g: Grid, warped: bool, x: int, y: int): nat
    requires WellFormed(g)
  {
    if Alive(g, warped, x, y) then 1 else 0
  }

  /** The number of live cells among the eight Moore neighbours of (x, y). */
  function MooreCount(g: Grid, warped: bool, x: int, y: int): (n: nat)
    requires WellFormed(g)
    ensures n <= 8
  {
    AliveCount(g, warped, x - 1, y - 1) + AliveCount(g, warped, x - 1, y) + AliveCount(g, warped, x - 1, y + 1)
    + AliveCount(g, warped, x, y - 1) + AliveCount(g, warped, x, y + 1)
    + AliveCount(g, warped, x + 1, y - 1) + AliveCount(g, warped, x + 1, y) + AliveCount(g, warped, x + 1, y + 1)
  }

  /** Every neighbour of (x, y) can be read through the getter. */
  predicate NeighboursReadable(g: Grid, warped: bool, x: int, y: int)
  {
    !warped ||
    (g.width > 0 && g.height > 0
     && NotNegMultiple(x - 1, g.width) && NotNegMultiple(x, g.width) && NotNegMultiple(x + 1, g.width)
     && NotNegMultiple(y - 1, g.height) && NotNegMultiple(y, g.height) && NotNegMultiple(y + 1, g.height))
  }

  lemma NeighbourReadable(g: Grid, warped: bool, x: int, y: int, dx: int, dy: int)
    requires NeighboursReadable(g, warped, x, y) && -1 <= dx <= 1 && -1 <= dy <= 1
    ensures Readable(g, warped, x + dx, y + dy)
  {
  }

  /** Inside a torus of at least 2 x 2 cells every neighbour read is safe. */
  lemma InsideNeighboursReadable(g: Grid, warped: bool, x: int, y: int)
    requires InRange(g, x, y) && (warped ==> g.width >= 2 && g.height >= 2)
    ensures NeighboursReadable(g, warped, x, y)
  {
    if warped {
      DivModUnique(-1, g.width, -1, g.width - 1);
      DivModUnique(-1, g.height, -1, g.height - 1);
    }
  }

  /** Live cells among offsets (dx, dy) with dy in [-1, dyEnd), skipping (0, 0):
      what the inner loop of CountLiveNeighbors has counted so far. */
  function ColumnCount(g: Grid, warped: bool, x: int, y: int, dx: int, dyEnd: int): nat
    requires WellFormed(g) && -1 <= dyEnd <= 2
    decreases dyEnd + 1
  {
    if dyEnd == -1 then 0
    else
      ColumnCount(g, warped, x, y, dx, dyEnd - 1)
      + (if dx == 0 && dyEnd - 1 == 0 then 0 else AliveCount(g, warped, x + dx, y + dyEnd - 1))
  }

  /** One step of the inner loop: the offset (dx, dy) adds 1 exactly when it
      is not (0, 0) and the neighbour there is alive. */
  lemma ColumnCountStep(g: Grid, warped: bool, x: int, y: int, dx: int, dy: int, alive: bool)
    requires WellFormed(g) && -1 <= dy <= 1
    requires (dx == 0 && dy == 0) || alive == Alive(g, warped, x + dx, y + dy)
    ensures ColumnCount(g, warped, x, y, dx, dy + 1)
         == ColumnCount(g, warped, x, y, dx, dy) + (if (dx == 0 && dy == 0) || !alive then 0 else 1)
  {
  }

  /** Live neighbours in the columns dx in [-1, dxEnd). */
  function BlockCount(g: Grid, warped: bool, x: int, y: int, dxEnd: int): nat
    requires WellFormed(g) && -1 <= dxEnd <= 2
    decreases dxEnd + 1
  {
    if dxEnd == -1 then 0
    else BlockCount(g, warped, x, y, dxEnd - 1) + ColumnCount(g, warped, x, y, dxEnd - 1, 2)
  }

  lemma BlockCountIsMoore(g: Grid, warped: bool, x: int, y: int)
    requires WellFormed(g)
    ensures BlockCount(g, warped, x, y, 2) == MooreCount(g, warped, x, y)
  {
    assert BlockCount(g, warped, x, y, 0) == ColumnCount(g, warped, x, y, -1, 2);
    assert BlockCount(g, warped, x, y, 1) == BlockCount(g, warped, x, y, 0) + ColumnCount(g, warped, x, y, 0, 2);
  }

  // ---------------------------------------------------------------------
  // The generation step
  // ---------------------------------------------------------------------

  /** B3/S23: a live cell survives with 2 or 3 live neighbours, a dead cell
      becomes alive with exactly 3; every other cell is dead next. */
  function Rule(alive: bool, neighbours: int): bool
  {
    if alive then neighbours == 2 || neighbours == 3 else neighbours == 3
  }

  /** `next` is the next generation of `g` under the topology `warped`: same
      size, every cell given by the rule, padding bits clear. */
  ghost predicate IsNextGeneration(g: Grid, warped: bool, next: Grid)
    requires WellFormed(g)
  {
    WellFormed(next) && next.width == g.width && next.height == g.height && PaddingClear(next)
    && forall x, y :: InRange(g, x, y) ==> CellAt(next, x, y) == Rule(CellAt(g, x, y), MooreCount(g, warped, x, y))
  }

  /** The cells before (x, y) in row-major order hold their next state and
      every later cell is still dead: the progress of ComputeNextGeneration. */
  ghost predicate ComputedUpTo(g: Grid, warped: bool, n: Grid, x: int, y: int)
    requires WellFormed(g) && WellFormed(n) && n.width == g.width && n.height == g.height
  {
    forall x', y' :: InRange(g, x', y') ==>
      CellAt(n, x', y') == ((y' < y || (y' == y && x' < x)) && Rule(CellAt(g, x', y'), MooreCount(g, warped, x', y')))
  }

  lemma ComputedStep(g: Grid, warped: bool, n: Grid, x: int, y: int, v: bool)
    requires WellFormed(g) && WellFormed(n) && n.width == g.width && n.height == g.height
    requires InRange(g, x, y) && ComputedUpTo(g, warped, n, x, y)
    requires v == Rule(CellAt(g, x, y), MooreCount(g, warped, x, y))
    ensures ComputedUpTo(g, warped, Write(n, x, y, v), x + 1, y)
  {
    forall x', y' | InRange(g, x', y')
      ensures CellAt(Write(n, x, y, v), x', y')
           == ((y' < y || (y' == y && x' < x + 1)) && Rule(CellAt(g, x', y'), MooreCount(g, warped, x', y')))
    {
      WriteThenRead(n, x, y, v, x', y');
    }
  }

  lemma ComputedRowEnd(g: Grid, warped: bool, n: Grid, y: int)
    requires WellFormed(g) && WellFormed(n) && n.width == g.width && n.height == g.height
    requires ComputedUpTo(g, warped, n, g.width, y)
    ensures ComputedUpTo(g, warped, n, 0, y + 1)
  {
  }

  lemma ComputedAll(g: Grid, warped: bool, n: Grid)
    requires WellFormed(g) && WellFormed(n) && n.width == g.width && n.height == g.height
    requires ComputedUpTo(g, warped, n, 0, g.height) && PaddingClear(n)
    ensures IsNextGeneration(g, warped, n)
  {
  }

  /** A grid has at most one next generation. */
  lemma NextGenerationUnique(g: Grid, warped: bool, n1: Grid, n2: Grid)
    requires WellFormed(g) && IsNextGeneration(g, warped, n1) && IsNextGeneration(g, warped, n2)
    ensures n1 == n2
  {
    SameCellsSameGrid(n1, n2);
  }

  /** A still life (a grid that is its own next generation) steps to itself. */
  lemma StillLifeRepeats(g: Grid, warped: bool, next: Grid)
    requires WellFormed(g) && IsNextGeneration(g, warped, g) && IsNextGeneration(g, warped, next)
    ensures next == g
  {
    NextGenerationUnique(g, warped, g, next);
  }

  /** A grid with a set padding bit (as Randomize can leave it) never equals
      its next generation, whatever its cells. */
  lemma DirtyPaddingNeverRepeats(g: Grid, warped: bool, next: Grid)
    requires WellFormed(g) && !PaddingClear(g) && IsNextGeneration(g, warped, next)
    ensures next != g
  {
  }

  // ---------------------------------------------------------------------
  // Writing a cell
  // ---------------------------------------------------------------------

  /** The grid with in-range cell (x, y) set to `v`: its byte gets bit `y % 8`
      set or cleared. */
  function Write(g: Grid, x: int, y: int, v: bool): (r: Grid)
    requires WellFormed(g) && InRange(g, x, y)
    ensures WellFormed(r) && r.width == g.width && r.height == g.height
  {
    var i := ByteIndex(g, x, y);
    g.(bytes := g.bytes[i := WithBit(g.bytes[i], y % 8, v)])
  }

  /** After a write, the written cell reads `v` and every other cell keeps its value. */
  lemma WriteThenRead(g: Grid, x: int, y: int, v: bool, x': int, y': int)
    requires WellFormed(g) && InRange(g, x, y) && InRange(g, x', y')
    ensures CellAt(Write(g, x, y, v), x', y') == if x' == x && y' == y then v else CellAt(g, x', y')
  {
    var i := ByteIndex(g, x, y);
    WithBitBit(g.bytes[i], y % 8, v, y' % 8);
    if x' != x || y' != y {
      CellPositionsDistinct(g, x, y, x', y');
    }
  }

  /** A write changes no padding bit. */
  lemma WriteKeepsPadding(g: Grid, x: int, y: int, v: bool, i: int, b: int)
    requires WellFormed(g) && InRange(g, x, y) && IsPaddingBit(g, i, b)
    ensures Bit(Write(g, x, y, v).bytes[i], b) == Bit(g.bytes[i], b)
  {
    CellIsNotPadding(g, x, y);
    var k := ByteIndex(g, x, y);
    if i == k {
      WithBitBit(g.bytes[k], y % 8, v, b);
    }
  }

  lemma WriteKeepsPaddingClear(g: Grid, x: int, y: int, v: bool)
    requires WellFormed(g) && InRange(g, x, y) && PaddingClear(g)
    ensures PaddingClear(Write(g, x, y, v))
  {
    forall i, b | IsPaddingBit(Write(g, x, y, v), i, b)
      ensures !Bit(Write(g, x, y, v).bytes[i], b)
    {
      WriteKeepsPadding(g, x, y, v, i, b);
    }
  }

  // ---------------------------------------------------------------------
  // Randomising, hashing
  // ---------------------------------------------------------------------

  /** The bytes Randomize stores from a stream of draws, where each draw is
      the outcome of "random value below the alive probability": byte i packs
      draws 8 * i .. 8 * i + 7. */
  function RandomBytes(draws: seq<bool>, n: nat): (r: seq<bv8>)
    requires |draws| >= 8 * n
    ensures |r| == n
  {
    seq(n, i requires 0 <= i < n => PackBits(draws[8 * i .. 8 * i + 8]))
  }

  /** Bit b of byte i is set exactly when draw 8 * i + b came out true. */
  lemma RandomBit(draws: seq<bool>, n: nat, i: int, b: int)
    requires |draws| >= 8 * n && 0 <= i < n && 0 <= b < 8
    ensures Bit(RandomBytes(draws, n)[i], b) == draws[8 * i + b]
  {
    PackBitsBit(draws[8 * i .. 8 * i + 8], b);
  }

  /** When the height is not a multiple of 8 the last bit of the first
      column is padding, and a true draw for it leaves the padding dirty. */
  lemma RandomizeCanDirtyPadding(width: int, height: int, draws: seq<bool>)
    requires width > 0 && height > 0 && height % 8 != 0
    requires |draws| >= 8 * (width * BytesPerRow(height))
    requires draws[8 * (BytesPerRow(height) - 1) + 7]
    ensures var g := Grid(width, height, RandomBytes(draws, width * BytesPerRow(height)));
      WellFormed(g) && !PaddingClear(g)
  {
    var bpr := BytesPerRow(height);
    var g := Grid(width, height, RandomBytes(draws, width * bpr));
    OffsetInBlock(0, bpr - 1, width, bpr);
    DivModUnique(bpr - 1, bpr, 0, bpr - 1);
    assert IsPaddingBit(g, bpr - 1, 7);
    RandomBit(draws, width * bpr, bpr - 1, 7);
  }

  /** When the height is a multiple of 8 no bit is padding. */
  lemma AlignedHeightHasNoPadding(g: Grid, i: int, b: int)
    requires WellFormed(g) && g.height % 8 == 0
    ensures !IsPaddingBit(g, i, b)
  {
    if 0 <= i < |g.bytes| && 0 <= b < 8 && BytesPerRow(g.height) > 0 {
      OffsetSplit(i, g.width, BytesPerRow(g.height));
    }
  }

  function HashBytes(acc: int, bytes: seq<bv8>): int
    decreases |bytes|
  {
    if bytes == [] then acc else HashBytes(acc * 31 + bytes[0] as int, bytes[1..])
  }

  /** A stand-in for `HashCode`: the real combiner is seeded per process, so
      the seed is a parameter; width, height and every byte go in. */
  function HashOf(seed: int, g: Grid): int
  {
    HashBytes((seed * 31 + g.width) * 31 + g.height, g.bytes)
  }

  // ---------------------------------------------------------------------
  // The grid object
  // ---------------------------------------------------------------------

  /** A Game of Life grid whose packed byte store is updated in place. */
  class GameOfLife {
    const Width: int
    const Height: int
    /** Toroidal topology when true, dead border otherwise; settable. */
    var Warped: bool
    const bytesPerRow: int
    const data: array<bv8>

    ghost predicate Valid()
    {
      Width >= 0 && Height >= 0 && bytesPerRow == BytesPerRow(Height) && data.Length == Width * bytesPerRow
    }

    /** The grid's value as `Equals` sees it. */
    function Value(): (g: Grid)
      reads data
      ensures Valid() ==> WellFormed(g)
    {
      Grid(Width, Height, data[..])
    }

    /** A blank grid: every byte zero, so every cell dead and no padding set. */
    constructor(width: int, height: int, warped: bool)
      requires width >= 0 && height >= 0
      ensures Valid() && fresh(data)
      ensures Width == width && Height == height && Warped == warped
      ensures forall i :: 0 <= i < data.Length ==> data[i] == 0
      ensures PaddingClear(Value())
      ensures forall x, y :: InRange(Value(), x, y) ==> !CellAt(Value(), x, y)
    {
      Width := width;
      Height := height;
      Warped := warped;
      bytesPerRow := (height + 7) / 8;
      MulNonNegative(width, (height + 7) / 8);
      data := new bv8[width * ((height + 7) / 8)](_ => 0);
      new;
      forall x, y | InRange(Value(), x, y)
        ensures !CellAt(Value(), x, y)
      {
        ZeroBit(y % 8);
      }
    }

    /** The indexer getter `this[x, y]`. */
    function Get(x: int, y: int): (r: bool)
      reads this, data
      requires Valid() && Readable(Value(), Warped, x, y)
      ensures r == Alive(Value(), Warped, x, y)
      ensures InRange(Value(), x, y) ==> r == CellAt(Value(), x, y)
    {
      Read(Value(), Warped, x, y)
    }

    /** The indexer setter `this[x, y] = value`.  When wrapped it is used only
        for rows from 0 up and for columns off the exact negative multiples of
        the width, where the normalisation as written is the intended one. */
    method Set(x: int, y: int, value: bool)
      requires Valid()
      requires Warped ==> Width > 0 && Height > 0 && y >= 0 && NotNegMultiple(x, Width)
      modifies data
      ensures !Warped && !InRange(Value(), x, y) ==> data[..] == old(data[..])
      ensures !Warped && InRange(Value(), x, y) ==> Value() == Write(old(Value()), x, y, value)
      ensures Warped ==> Value() == Write(old(Value()), Wrap(x, Width), Wrap(y, Height), value)
    {
      var tx, ty := x, y;
      if Warped {
        SetterAsWrittenAgrees(x, y, Width, Height);
        tx, ty := SetterCoordsAsWritten(x, y, Width, Height).0, SetterCoordsAsWritten(x, y, Width, Height).1;
      } else if x < 0 || x >= Width || y < 0 || y >= Height {
        return;
      }
      assert InRange(Value(), tx, ty);
      WriteCell(tx, ty, value);
    }

    /** The store update at the end of the setter: bit `y % 8` of byte
        `x * bytesPerRow + y / 8` is set or cleared. */
    method WriteCell(x: int, y: int, value: bool)
      requires Valid() && InRange(Value(), x, y)
      modifies data
      ensures Value() == Write(old(Value()), x, y, value)
    {
      ghost var before := Value();
      var byteIndex := x * bytesPerRow + y / 8;
      assert byteIndex == ByteIndex(before, x, y);
      var bit := y % 8;
      if value {
        data[byteIndex] := data[byteIndex] | (1 << bit);
      } else {
        data[byteIndex] := data[byteIndex] & !(1 << bit);
      }
      assert data[..] == before.bytes[byteIndex := WithBit(before.bytes[byteIndex], bit, value)];
    }

    /** Counts the live Moore neighbours of (x, y) through the getter, with the
        grid's own topology; the `warped` argument is not used. */
    method CountLiveNeighbors(x: int, y: int, warped: bool := false) returns (count: int)
      requires Valid() && NeighboursReadable(Value(), Warped, x, y)
      ensures count == MooreCount(Value(), Warped, x, y)
      ensures 0 <= count <= 8
    {
      ghost var g := Value();
      count := 0;
      for dx := -1 to 2
        invariant count == BlockCount(g, Warped, x, y, dx)
      {
        var column := CountColumn(x, y, dx);
        count := count + column;
      }
      BlockCountIsMoore(g, Warped, x, y);
    }

    /** The inner loop of CountLiveNeighbors: the live cells at offsets
        (dx, -1), (dx, 0) and (dx, 1), skipping the cell itself. */
    method CountColumn(x: int, y: int, dx: int) returns (count: int)
      requires Valid() && NeighboursReadable(Value(), Warped, x, y) && -1 <= dx <= 1
      ensures count == ColumnCount(Value(), Warped, x, y, dx, 2)
    {
      ghost var g := Value();
      count := 0;
      for dy := -1 to 2
        invariant count == ColumnCount(g, Warped, x, y, dx, dy)
      {
        if dx == 0 && dy == 0 {
          ColumnCountStep(g, Warped, x, y, dx, dy, false);
          continue;
        }
        var nx := x + dx;
        var ny := y + dy;
        NeighbourReadable(g, Warped, x, y, dx, dy);
        var alive := Get(nx, ny);
        ColumnCountStep(g, Warped, x, y, dx, dy, alive);
        if alive {
          count := count + 1;
        }
      }
    }

    /** Overwrites every byte from the draws, bit by bit from bit 0 up; draw
        8 * i + b decides bit b of byte i, padding bits included. */
    method Randomize(draws: seq<bool>)
      requires Valid() && |draws| >= 8 * data.Length
      modifies data
      ensures data[..] == RandomBytes(draws, data.Length)
    {
      for i := 0 to data.Length
        invariant forall k :: 0 <= k < i ==> data[k] == PackBits(draws[8 * k .. 8 * k + 8])
      {
        var value := PackByte(draws, 8 * i);
        data[i] := value;
      }
    }

    /** The inner loop of Randomize: bit b of the byte comes from draw
        `base + b`, or-ed in from bit 0 up. */
    static method PackByte(draws: seq<bool>, base: int) returns (value: bv8)
      requires 0 <= base && base + 8 <= |draws|
      ensures value == PackBits(draws[base .. base + 8])
    {
      value := 0;
      for bit := 0 to 8
        invariant value == PackBits(draws[base .. base + bit])
      {
        PackBitsStep(draws, base, bit);
        if draws[base + bit] {
          value := value | (1 << bit);
        }
      }
    }

    /** Structural equality: same width, same height, same bytes (padding bits
        included); the topology flag is not compared. */
    function Equals(other: GameOfLife?): (r: bool)
      reads data, if other != null then {other.data} else {}
      ensures r <==> other != null && other.Value() == Value()
    {
      if other == null then false
      else if this == other then true
      else Width == other.Width && Height == other.Height && data[..] == other.data[..]
    }

    /** `GetHashCode` for a given per-process seed. */
    function GetHashCode(seed: int): int
      reads data
    {
      HashOf(seed, Value())
    }

    /** A fresh grid with the same dimensions, topology and bytes. */
    method DeepCopy() returns (copy: GameOfLife)
      requires Valid()
      ensures fresh(copy) && fresh(copy.data) && copy.Valid()
      ensures copy.Value() == Value() && copy.Warped == Warped && Equals(copy)
    {
      copy := new GameOfLife(Width, Height, Warped);
      forall i | 0 <= i < data.Length {
        copy.data[i] := data[i];
      }
      assert copy.data[..] == data[..];
    }

    /** A fresh grid holding the next generation; this grid is not changed. */
    method ComputeNextGeneration() returns (next: GameOfLife)
      requires Valid()
      requires Warped ==> Width == 0 || Height == 0 || (Width >= 2 && Height >= 2)
      ensures fresh(next) && fresh(next.data) && next.Valid()
      ensures next.Width == Width && next.Height == Height && next.Warped == Warped
      ensures IsNextGeneration(Value(), Warped, next.Value())
    {
      next := new GameOfLife(Width, Height, Warped);
      ghost var g := Value();
      for y := 0 to Height
        invariant fresh(next.data) && next.Valid() && next.Warped == Warped
        invariant next.Width == Width && next.Height == Height
        invariant PaddingClear(next.Value())
        invariant ComputedUpTo(g, Warped, next.Value(), 0, y)
      {
        for x := 0 to Width
          invariant fresh(next.data) && next.Valid() && next.Warped == Warped
          invariant next.Width == Width && next.Height == Height
          invariant PaddingClear(next.Value())
          invariant ComputedUpTo(g, Warped, next.Value(), x, y)
        {
          InsideNeighboursReadable(g, Warped, x, y);
          var liveNeighbors := CountLiveNeighbors(x, y);
          var isAlive := Get(x, y);
          var nextState := if isAlive then liveNeighbors == 2 || liveNeighbors == 3 else liveNeighbors == 3;
          assert nextState == Rule(CellAt(g, x, y), MooreCount(g, Warped, x, y));
          ghost var before := next.Value();
          next.Set(x, y, nextState);
          WriteKeepsPaddingClear(before, x, y, nextState);
          ComputedStep(g, Warped, before, x, y, nextState);
        }
        ComputedRowEnd(g, Warped, next.Value(), y);
      }
      ComputedAll(g, Warped, next.Value());
    }
  }

  /** Grids that are `Equals` have the same hash code. */
  lemma HashAgreesWithEquals(a: GameOfLife, b: GameOfLife, seed: int)
    requires a.Equals(b)
    ensures a.GetHashCode(seed) == b.GetHashCode(seed)
  {
  }
}
