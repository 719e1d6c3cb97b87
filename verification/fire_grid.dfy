/** Shared vocabulary of the fire simulation: the screen and grid dimensions,
    the byte-valued intensity grid, the cooling curve and the four-cell average
    that the per-frame pass applies. */
module FireGrid {

  /** Screen size in pixels. */
  const LcdWidth: nat := 320
  const LcdHeight: nat := 170

  /** The grid is the screen at quarter resolution, plus six extra rows below it:
      80 columns by 48 rows. */
  const FireWidth: nat := LcdWidth / 4
  const FireHeight: nat := LcdHeight / 4 + 6

  /** The seed band is the last two rows; the row just above it is the lowest
      row the pass overwrites. */
  const SeedTop: nat := FireHeight - 2
  const SeedBottom: nat := FireHeight - 1
  const AboveSeed: nat := FireHeight - 3

  /** A grid is a sequence of rows; cell (r, c) is g[r][c]. */
  type Grid = seq<seq<int>>

  /** A grid position, row first as in the source's indexing. */
  datatype Cell = Cell(row: int, col: int)

  predicate IsByte(v: int) {
    0 <= v < 256
  }

  /** Rows of FireWidth unsigned bytes. The number of rows is left open so that
      the memory read just past the array can be modelled as one more row. */
  predicate Shaped(g: Grid) {
    forall r :: 0 <= r < |g| ==>
      |g[r]| == FireWidth && forall c :: 0 <= c < FireWidth ==> IsByte(g[r][c])
  }

  predicate InGrid(g: Grid, p: Cell) {
    0 <= p.row < |g| && 0 <= p.col < FireWidth
  }

  function At(g: Grid, p: Cell): (v: int)
    requires Shaped(g) && InGrid(g, p)
    ensures IsByte(v)
  {
    g[p.row][p.col]
  }

  /** A grid of the given height whose every cell is 0. */
  function Zeros(h: nat): (g: Grid)
    ensures |g| == h && Shaped(g)
    ensures forall r, c :: 0 <= r < h && 0 <= c < FireWidth ==> g[r][c] == 0
  {
    seq(h, r => seq(FireWidth, c => 0))
  }

  // ---------------------------------------------------------------------------
  // Cooling

  /** One guarded decrement: `if (v > 0) v--;`. */
  function DecToZero(v: int): int {
    if v > 0 then v - 1 else v
  }

  /** The cooling step applied to a source cell right after it is read: hot
      cells lose 12, warm cells lose 4, and the coldest are decremented at most
      three times without going below zero. */
  function Cool(v: int): (r: int)
    requires IsByte(v)
    ensures IsByte(r) && r <= v
    ensures v > 11 ==> r == v - 12
    ensures 4 <= v <= 11 ==> r == v - 4
    ensures v <= 3 ==> r == 0
    ensures v > 0 ==> r < v
  {
    if v > 11 then v - 12
    else if v > 3 then v - 4
    else DecToZero(DecToZero(DecToZero(v)))
  }

  /** n applications of the cooling step. */
  function CoolTimes(v: int, n: nat): (r: int)
    requires IsByte(v)
    ensures IsByte(r) && r <= v
  {
    if n == 0 then v else CoolTimes(Cool(v), n - 1)
  }

  /** Repeated cooling alone takes any value to zero within v / 12 + 3
      applications of the cooling step (a bound of 24 for the hottest value
      255, which actually needs 22), and zero stays put. */
  lemma {:induction false} CoolingReachesZero(v: int, n: nat)
    requires IsByte(v) && n >= v / 12 + 3
    ensures CoolTimes(v, n) == 0
    decreases n
  {
    if v <= 11 {
      // at most three steps: v to at most 7, then to at most 3, then to 0
      var w1 := Cool(v);
      var w2 := Cool(w1);
      var w3 := Cool(w2);
      assert w1 <= 7 && w2 <= 3 && w3 == 0;
      assert CoolTimes(v, n) == CoolTimes(w1, n - 1);
      assert CoolTimes(w1, n - 1) == CoolTimes(w2, n - 2);
      assert CoolTimes(w2, n - 2) == CoolTimes(w3, n - 3);
      ZeroIsFixedPoint(n - 3);
    } else {
      CoolingReachesZero(v - 12, n - 1);
    }
  }

  /** Zero is a fixed point of cooling, however often it is applied. */
  lemma {:induction false} ZeroIsFixedPoint(n: nat)
    ensures CoolTimes(0, n) == 0
  {
    if n > 0 {
      ZeroIsFixedPoint(n - 1);
    }
  }

  // ---------------------------------------------------------------------------
  // Diffusion

  /** `(a + b + c + d) >> 2` on unsigned bytes promoted to int. */
  function Avg4(a: int, b: int, c: int, d: int): (r: int)
    requires IsByte(a) && IsByte(b) && IsByte(c) && IsByte(d)
    ensures IsByte(r)
    // at most the largest input and at least the smallest
    ensures r <= a || r <= b || r <= c || r <= d
    ensures r >= a || r >= b || r >= c || r >= d
    ensures 4 * r <= a + b + c + d < 4 * r + 4
  {
    (a + b + c + d) / 4
  }

  /** The four cells that the pass at source row i, column j adds up to obtain
      the new value of cell (i - 1, j), in the order the source adds them: the
      cell itself, its left neighbour, its right neighbour and the cell below.
      Column 0 has no left neighbour and reads the last cell of the row ABOVE
      instead; the last column (written `LCD_WIDTH/4-1` in the source, equal to
      FireWidth - 1) has no right neighbour and reads the first cell of the row
      BELOW instead. */
  function Sources(i: int, j: int): (s: seq<Cell>)
    requires 0 <= j < FireWidth
    ensures |s| == 4
    // wrapping keeps every column in range; rows stay within one of row i
    ensures forall k :: 0 <= k < 4 ==> 0 <= s[k].col < FireWidth && i - 1 <= s[k].row <= i + 1
    // every cell of the pass reads the row below its source row
    ensures s[3] == Cell(i + 1, j)
  {
    if j == 0 then
      [Cell(i, j), Cell(i - 1, FireWidth - 1), Cell(i, j + 1), Cell(i + 1, j)]
    else if j == LcdWidth / 4 - 1 then
      [Cell(i, j), Cell(i, j - 1), Cell(i + 1, 0), Cell(i + 1, j)]
    else
      [Cell(i, j), Cell(i, j - 1), Cell(i, j + 1), Cell(i + 1, j)]
  }

  /** The value the pass writes into cell (i - 1, j), read from grid g as it
      stands at that moment. Reading the row below makes `i + 1 < |g|` a
      genuine requirement. */
  function NewValue(g: Grid, i: int, j: int): (v: int)
    requires Shaped(g) && 1 <= i && i + 1 < |g| && 0 <= j < FireWidth
    ensures IsByte(v)
    ensures exists k :: 0 <= k < 4 && v <= At(g, Sources(i, j)[k])
    ensures exists k :: 0 <= k < 4 && v >= At(g, Sources(i, j)[k])
  {
    var s := Sources(i, j);
    var v := Avg4(At(g, s[0]), At(g, s[1]), At(g, s[2]), At(g, s[3]));
    assert v <= At(g, s[0]) || v <= At(g, s[1]) || v <= At(g, s[2]) || v <= At(g, s[3]);
    assert v >= At(g, s[0]) || v >= At(g, s[1]) || v >= At(g, s[2]) || v >= At(g, s[3]);
    v
  }

  /** The edge wrap is not a torus: the left edge borrows from the row above,
      the right edge from the row below, and interior cells use their own row. */
  lemma EdgeWrapsAreAsymmetric(i: int, j: int)
    requires 0 <= j < FireWidth
    ensures j == 0 ==> Sources(i, j)[1] == Cell(i - 1, FireWidth - 1)
    ensures j == FireWidth - 1 ==> Sources(i, j)[2] == Cell(i + 1, 0)
    ensures 0 < j ==> Sources(i, j)[1] == Cell(i, j - 1)
    ensures j < FireWidth - 1 ==> Sources(i, j)[2] == Cell(i, j + 1)
  {
  }

  /** On the last iteration of a loop running i up to FireHeight - 1, every cell
      reads row FireHeight, one past the end of a FireHeight-row array. */
  lemma LastIterationReadsPastTheArray(j: int)
    requires 0 <= j < FireWidth
    ensures Cell(FireHeight, j) in Sources(FireHeight - 1, j)
  {
  }
}
