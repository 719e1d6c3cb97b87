/** The per-frame update of the fire grid: an in-place diffusion and cooling
    pass over the rows, followed by re-seeding the two bottom rows from random
    draws. The pass is modelled in its loop order (Visit, Sweep) and proved
    equal to a closed form (PassCell) that names, for every cell, which values
    of the grid before the pass it ends up depending on. */
module FireStep {
  import opened FireGrid

  // ---------------------------------------------------------------------------
  // The pass in loop order

  /** One execution of the inner loop body at source row i, column j: cell
      (i - 1, j) receives the average of its four sources, then cell (i, j) is
      cooled. */
  function Visit(g: Grid, i: int, j: int): (g': Grid)
    requires Shaped(g) && 1 <= i && i + 1 < |g| && 0 <= j < FireWidth
    ensures Shaped(g') && |g'| == |g|
    ensures g'[i - 1][j] == NewValue(g, i, j)
    ensures g'[i][j] == Cool(g[i][j])
    ensures forall r, c :: 0 <= r < |g| && 0 <= c < FireWidth && !(r == i - 1 && c == j) && !(r == i && c == j) ==>
      g'[r][c] == g[r][c]
  {
    var g1 := g[i - 1 := g[i - 1][j := NewValue(g, i, j)]];
    g1[i := g1[i][j := Cool(g1[i][j])]]
  }

  /** The rest of the nested loop from position (i, j): rows i..last, columns
      left to right, each row finished before the next begins. */
  function Sweep(g: Grid, i: int, j: int, last: int): (g': Grid)
    requires Shaped(g) && 1 <= i <= last + 1 && last + 1 < |g| && 0 <= j <= FireWidth
    ensures Shaped(g') && |g'| == |g|
    decreases last + 1 - i, FireWidth - j
  {
    if i > last then g
    else if j == FireWidth then Sweep(g, i + 1, 0, last)
    else Sweep(Visit(g, i, j), i, j + 1, last)
  }

  // ---------------------------------------------------------------------------
  // The closed form of the pass

  /** Cell (r, c) after its own row's iteration has cooled it. Row 0 is never a
      source row, so it is never cooled. */
  function Cooled(g: Grid, r: int, c: int): (v: int)
    requires Shaped(g) && 0 <= r < |g| && 0 <= c < FireWidth
    ensures IsByte(v)
  {
    if r >= 1 then Cool(g[r][c]) else g[r][c]
  }

  /** The final value of cell (r, c) for a row the pass overwrites, in terms of
      the grid before the pass. The cell itself and the cell below are read
      unchanged; the left neighbour has already been cooled earlier in the same
      row (and at column 0 the borrowed cell of row r was cooled one iteration
      earlier); the right neighbour is still unchanged. */
  function Diffused(g: Grid, r: int, c: int): (v: int)
    requires Shaped(g) && 0 <= r && r + 2 < |g| && 0 <= c < FireWidth
    ensures IsByte(v)
  {
    var left := if c == 0 then Cooled(g, r, FireWidth - 1) else Cool(g[r + 1][c - 1]);
    var right := if c == FireWidth - 1 then g[r + 2][0] else g[r + 1][c + 1];
    Avg4(g[r + 1][c], left, right, g[r + 2][c])
  }

  /** Cell (r, c) after a pass whose source rows are 1..last. */
  function PassCell(g: Grid, last: int, r: int, c: int): (v: int)
    requires Shaped(g) && 0 <= last && last + 1 < |g| && 0 <= r < |g| && 0 <= c < FireWidth
    ensures IsByte(v)
  {
    if r < last then Diffused(g, r, c)
    else if r == last then Cooled(g, r, c)
    else g[r][c]
  }

  /** The grid in the middle of the pass, just before the body runs at (i, j):
      rows above i - 1 are final, row i - 1 is final left of column j and merely
      cooled from there on, row i is cooled left of column j, the rest is as
      before the pass. */
  function MidCell(g: Grid, i: int, j: int, r: int, c: int): (v: int)
    requires Shaped(g) && 1 <= i < |g| && 0 <= j <= FireWidth && (i + 1 < |g| || j == 0)
    requires 0 <= r < |g| && 0 <= c < FireWidth
    ensures IsByte(v)
  {
    if r < i - 1 || (r == i - 1 && c < j) then Diffused(g, r, c)
    else if r == i - 1 then Cooled(g, r, c)
    else if r == i && c < j then Cool(g[r][c])
    else g[r][c]
  }

  function Mid(g: Grid, i: int, j: int): (m: Grid)
    requires Shaped(g) && 1 <= i < |g| && 0 <= j <= FireWidth && (i + 1 < |g| || j == 0)
    ensures Shaped(m) && |m| == |g|
    ensures forall r, c :: 0 <= r < |g| && 0 <= c < FireWidth ==> m[r][c] == MidCell(g, i, j, r, c)
  {
    seq(|g|, r requires 0 <= r < |g| =>
      seq(FireWidth, c requires 0 <= c < FireWidth => MidCell(g, i, j, r, c)))
  }

  /** Two grids of the same shape with the same cells are equal. */
  lemma SameCells(a: Grid, b: Grid)
    requires Shaped(a) && Shaped(b) && |a| == |b|
    requires forall r, c :: 0 <= r < |a| && 0 <= c < FireWidth ==> a[r][c] == b[r][c]
    ensures a == b
  {
    forall r | 0 <= r < |a|
      ensures a[r] == b[r]
    {
      assert forall c :: 0 <= c < FireWidth ==> a[r][c] == b[r][c];
    }
  }

  /** Before the first iteration the grid is untouched. */
  lemma MidAtStart(g: Grid)
    requires Shaped(g) && 2 <= |g|
    ensures Mid(g, 1, 0) == g
  {
    SameCells(Mid(g, 1, 0), g);
  }

  /** Finishing a row is the same state as starting the next one. */
  lemma MidRowDone(g: Grid, i: int)
    requires Shaped(g) && 1 <= i && i + 1 < |g|
    ensures Mid(g, i, FireWidth) == Mid(g, i + 1, 0)
  {
    SameCells(Mid(g, i, FireWidth), Mid(g, i + 1, 0));
  }

  /** In the middle state the body at (i, j) computes the closed-form value of
      cell (i - 1, j). */
  lemma NewValueInMid(g: Grid, i: int, j: int)
    requires Shaped(g) && 1 <= i && i + 1 < |g| && 0 <= j < FireWidth
    ensures NewValue(Mid(g, i, j), i, j) == Diffused(g, i - 1, j)
  {
    var m := Mid(g, i, j);
    var s := Sources(i, j);
    assert At(m, s[0]) == g[i][j];
    assert At(m, s[3]) == g[i + 1][j];
    if j == 0 {
      assert At(m, s[1]) == Cooled(g, i - 1, FireWidth - 1);
      assert At(m, s[2]) == g[i][j + 1];
    } else if j == FireWidth - 1 {
      assert At(m, s[1]) == Cool(g[i][j - 1]);
      assert At(m, s[2]) == g[i + 1][0];
    } else {
      assert At(m, s[1]) == Cool(g[i][j - 1]);
      assert At(m, s[2]) == g[i][j + 1];
    }
  }

  /** One execution of the body advances the middle state by one column. */
  lemma VisitMid(g: Grid, i: int, j: int)
    requires Shaped(g) && 1 <= i && i + 1 < |g| && 0 <= j < FireWidth
    ensures Visit(Mid(g, i, j), i, j) == Mid(g, i, j + 1)
  {
    var m := Mid(g, i, j);
    var v := Visit(m, i, j);
    var m' := Mid(g, i, j + 1);
    NewValueInMid(g, i, j);
    forall r, c | 0 <= r < |g| && 0 <= c < FireWidth
      ensures v[r][c] == m'[r][c]
    {
    }
    SameCells(v, m');
  }

  /** Finishing a row moves the rest of the loop on to the next row. */
  lemma SweepRowDone(g: Grid, i: int, last: int)
    requires Shaped(g) && 1 <= i <= last && last + 1 < |g|
    ensures Sweep(Mid(g, i, FireWidth), i, FireWidth, last) == Sweep(Mid(g, i + 1, 0), i + 1, 0, last)
  {
    MidRowDone(g, i);
  }

  /** One body execution moves the rest of the loop on by one column. */
  lemma SweepVisit(g: Grid, i: int, j: int, last: int)
    requires Shaped(g) && 1 <= i <= last && last + 1 < |g| && 0 <= j < FireWidth
    ensures Sweep(Mid(g, i, j), i, j, last) == Sweep(Mid(g, i, j + 1), i, j + 1, last)
  {
    VisitMid(g, i, j);
  }

  /** Running the rest of the loop from a middle state ends in the closed form. */
  lemma {:induction false} SweepFromMid(g: Grid, i: int, j: int, last: int)
    requires Shaped(g) && 1 <= i <= last + 1 && last + 1 < |g| && 0 <= j <= FireWidth
    requires i <= last || j == 0
    ensures Sweep(Mid(g, i, j), i, j, last) == Mid(g, last + 1, 0)
    decreases last + 1 - i, FireWidth - j
  {
    if i > last {
    } else if j == FireWidth {
      SweepRowDone(g, i, last);
      SweepFromMid(g, i + 1, 0, last);
    } else {
      SweepVisit(g, i, j, last);
      SweepFromMid(g, i, j + 1, last);
    }
  }

  /** The in-place pass with source rows 1..last, as the nested loop performs
      it. Its result is described cell by cell in terms of the grid before the
      pass: rows above `last` hold the stencil average of Diffused, row `last`
      is only cooled, and the rows below it are untouched. */
  function Pass(g: Grid, last: int): (p: Grid)
    requires Shaped(g) && 0 <= last && last + 1 < |g|
    ensures Shaped(p) && |p| == |g|
    ensures forall r, c :: 0 <= r < |g| && 0 <= c < FireWidth ==> p[r][c] == PassCell(g, last, r, c)
  {
    MidAtStart(g);
    SweepFromMid(g, 1, 0, last);
    Sweep(g, 1, 0, last)
  }

  /** The pass is not a simultaneous update: a cell's left source has already
      been cooled when it is read. Whenever cell (1, 0) holds 12 and the other
      sources of cell (0, 1) hold 0, the pass writes 0 into cell (0, 1), where
      averaging the grid as it stood before the pass would give 3. */
  lemma PassIsOrderDependent(g: Grid, last: int)
    requires Shaped(g) && 1 <= last && last + 1 < |g|
    requires g[1][0] == 12 && g[1][1] == 0 && g[1][2] == 0 && g[2][1] == 0
    ensures Pass(g, last)[0][1] == 0
    ensures NewValue(g, 1, 1) == 3
  {
    assert Pass(g, last)[0][1] == PassCell(g, last, 0, 1) == Diffused(g, 0, 1);
    assert Diffused(g, 0, 1) == Avg4(0, Cool(12), 0, 0) == 0;
    assert Sources(1, 1) == [Cell(1, 1), Cell(1, 0), Cell(1, 2), Cell(2, 1)];
  }

  // ---------------------------------------------------------------------------
  // Re-seeding the bottom rows

  /** The two raw `rand()` results a column of the seed band may consume: the
      coin, and the spark that is only drawn when the coin succeeds. */
  datatype Draw = Draw(coin: nat, spark: nat)

  /** `rand() % 10 < 5` */
  predicate Fires(d: Draw) {
    d.coin % 10 < 5
  }

  /** `(rand() & 1) * 255`; on a non-negative int, `& 1` is `% 2`. */
  function Spark(d: Draw): int {
    (d.spark % 2) * 255
  }

  /** The seed values for the remaining columns, given the value `delta`
      carried over from the previous column. */
  function SeedFrom(draws: seq<Draw>, delta: int): (row: seq<int>)
    requires delta == 0 || delta == 255
    ensures |row| == |draws|
    ensures forall j :: 0 <= j < |row| ==> row[j] == 0 || row[j] == 255
    ensures forall j :: 0 <= j < |row| && Fires(draws[j]) ==> row[j] == Spark(draws[j])
    ensures |row| > 0 && !Fires(draws[0]) ==> row[0] == delta
    ensures forall j :: 0 < j < |row| && !Fires(draws[j]) ==> row[j] == row[j - 1]
  {
    if |draws| == 0 then []
    else
      var d := if Fires(draws[0]) then Spark(draws[0]) else delta;
      [d] + SeedFrom(draws[1..], d)
  }

  /** One seed row for the whole band; `delta` starts at 0. */
  function SeedRow(draws: seq<Draw>): (row: seq<int>)
    ensures |row| == |draws|
    ensures forall j :: 0 <= j < |row| ==> row[j] == 0 || row[j] == 255
  {
    SeedFrom(draws, 0)
  }

  /** Overwrite the two bottom rows with the same seed row. */
  function Reseed(g: Grid, draws: seq<Draw>): (g': Grid)
    requires Shaped(g) && |g| == FireHeight && |draws| == FireWidth
    ensures Shaped(g') && |g'| == FireHeight
    ensures g'[SeedTop] == g'[SeedBottom] == SeedRow(draws)
    ensures forall r :: 0 <= r < SeedTop ==> g'[r] == g[r]
  {
    g[SeedTop := SeedRow(draws)][SeedBottom := SeedRow(draws)]
  }

  // ---------------------------------------------------------------------------
  // The whole frame update

  /** One frame with the loop bound corrected to the last row the stencil can
      read, `i < fire_height - 1`. Every row above the seed band holds the
      closed-form average; the two seed rows are equal, made of 0 and 255 only,
      and a column whose coin fails repeats the column to its left (0 for the
      first column). */
  function Step(g: Grid, draws: seq<Draw>): (s: Grid)
    requires Shaped(g) && |g| == FireHeight && |draws| == FireWidth
    ensures Shaped(s) && |s| == FireHeight
    ensures forall r, c :: 0 <= r < SeedTop && 0 <= c < FireWidth ==> s[r][c] == Diffused(g, r, c)
    ensures s[SeedTop] == s[SeedBottom]
    ensures forall c :: 0 <= c < FireWidth ==> s[SeedBottom][c] == 0 || s[SeedBottom][c] == 255
    ensures forall c :: 0 <= c < FireWidth && Fires(draws[c]) ==> s[SeedBottom][c] == Spark(draws[c])
    ensures !Fires(draws[0]) ==> s[SeedBottom][0] == 0
    ensures forall c :: 0 < c < FireWidth && !Fires(draws[c]) ==> s[SeedBottom][c] == s[SeedBottom][c - 1]
  {
    Reseed(Pass(g, SeedTop), draws)
  }

  /** One frame as the source writes it: the outer loop runs `i < fire_height`,
      so its last iteration reads row fire_height, which is not part of the
      array. `ext` is the array followed by the FireWidth bytes stored after it. */
  function StepAsWritten(ext: Grid, draws: seq<Draw>): (s: Grid)
    requires Shaped(ext) && |ext| == FireHeight + 1 && |draws| == FireWidth
    ensures Shaped(s) && |s| == FireHeight
  {
    Reseed(Pass(ext, SeedBottom)[..FireHeight], draws)
  }

  /** Whatever lies past the array, the extra iteration only writes rows that
      re-seeding overwrites, so the frame as written equals the corrected one. */
  lemma AsWrittenMatchesCorrected(ext: Grid, draws: seq<Draw>)
    requires Shaped(ext) && |ext| == FireHeight + 1 && |draws| == FireWidth
    ensures StepAsWritten(ext, draws) == Step(ext[..FireHeight], draws)
  {
    var g := ext[..FireHeight];
    var a := StepAsWritten(ext, draws);
    var b := Step(g, draws);
    forall r, c | 0 <= r < FireHeight && 0 <= c < FireWidth
      ensures a[r][c] == b[r][c]
    {
      if r < SeedTop {
        assert a[r][c] == Pass(ext, SeedBottom)[r][c] == Diffused(ext, r, c);
        assert Diffused(ext, r, c) == Diffused(g, r, c);
      }
    }
    SameCells(a, b);
  }

  /** Intensities stay bytes over any number of frames. */
  function Run(g: Grid, frames: seq<seq<Draw>>): (s: Grid)
    requires Shaped(g) && |g| == FireHeight
    requires forall k :: 0 <= k < |frames| ==> |frames[k]| == FireWidth
    ensures Shaped(s) && |s| == FireHeight
    decreases |frames|
  {
    if |frames| == 0 then g else Run(Step(g, frames[0]), frames[1..])
  }

  /** Heat rises: when the seed band is full (255 in both bottom rows), the row
      just above it is at least 191 in every column after one frame, whatever
      the rest of the grid holds. Three of its four sources are seed cells; only
      the borrowed left source of column 0 comes from elsewhere. */
  lemma HeatRisesFromSeedBand(g: Grid, draws: seq<Draw>)
    requires Shaped(g) && |g| == FireHeight && |draws| == FireWidth
    requires forall c :: 0 <= c < FireWidth ==> g[SeedTop][c] == 255 && g[SeedBottom][c] == 255
    ensures forall c :: 0 <= c < FireWidth ==> Step(g, draws)[AboveSeed][c] >= 191
  {
    forall c | 0 <= c < FireWidth
      ensures Step(g, draws)[AboveSeed][c] >= 191
    {
      assert Step(g, draws)[AboveSeed][c] == Diffused(g, AboveSeed, c);
    }
  }

  // ---------------------------------------------------------------------------
  // The fire dies out without sparks

  /** Every cell of the grid is at most m. */
  predicate AtMost(g: Grid, m: int)
    requires Shaped(g)
  {
    forall r, c :: 0 <= r < |g| && 0 <= c < FireWidth ==> g[r][c] <= m
  }

  /** No coin of the seed band succeeds. */
  predicate Quiet(draws: seq<Draw>) {
    forall c :: 0 <= c < |draws| ==> !Fires(draws[c])
  }

  /** Without a successful coin, `delta` stays 0 and so does the whole seed row. */
  lemma {:induction false} QuietSeedIsCold(draws: seq<Draw>)
    requires Quiet(draws)
    ensures forall j :: 0 <= j < |draws| ==> SeedFrom(draws, 0)[j] == 0
    decreases |draws|
  {
    if |draws| > 0 {
      var rest := draws[1..];
      assert forall c :: 0 <= c < |rest| ==> rest[c] == draws[c + 1];
      QuietSeedIsCold(rest);
      assert SeedFrom(draws, 0) == [0] + SeedFrom(rest, 0);
    }
  }

  /** A cooled left source is at most m - 1 when every cell is at most m > 0:
      either it was positive and cooling lowered it, or it is 0. Only the
      borrowed source of cell (0, 0), taken from row 0, is never cooled. */
  lemma CooledLeftSource(g: Grid, r: int, c: int, m: int)
    requires Shaped(g) && 0 <= r && r + 2 < |g| && 0 <= c < FireWidth
    requires AtMost(g, m) && 0 < m && (r > 0 || c > 0)
    ensures Diffused(g, r, c) <= m - 1
  {
    var left := if c == 0 then Cooled(g, r, FireWidth - 1) else Cool(g[r + 1][c - 1]);
    if c == 0 {
      assert left == Cool(g[r][FireWidth - 1]) && g[r][FireWidth - 1] <= m;
    } else {
      assert g[r + 1][c - 1] <= m;
    }
    assert left <= m - 1;
    var right := if c == FireWidth - 1 then g[r + 2][0] else g[r + 1][c + 1];
    assert right <= m && g[r + 1][c] <= m && g[r + 2][c] <= m;
  }

  /** A frame in which no coin succeeds never heats any cell above the hottest
      cell before it, and when that is positive every cell but (0, 0) cools by
      at least one. */
  lemma QuietStepCools(g: Grid, draws: seq<Draw>, m: int)
    requires Shaped(g) && |g| == FireHeight && |draws| == FireWidth
    requires Quiet(draws) && 0 <= m && AtMost(g, m)
    ensures AtMost(Step(g, draws), m)
    ensures forall r, c :: 0 <= r < FireHeight && 0 <= c < FireWidth && (r > 0 || c > 0) && 0 < m ==>
      Step(g, draws)[r][c] <= m - 1
    ensures forall c :: 0 <= c < FireWidth ==> Step(g, draws)[SeedTop][c] == 0 && Step(g, draws)[SeedBottom][c] == 0
  {
    var s := Step(g, draws);
    QuietSeedIsCold(draws);
    forall r, c | 0 <= r < FireHeight && 0 <= c < FireWidth
      ensures s[r][c] <= m
      ensures (r > 0 || c > 0) && 0 < m ==> s[r][c] <= m - 1
    {
      if r < SeedTop {
        assert s[r][c] == Diffused(g, r, c);
        if (r > 0 || c > 0) && 0 < m {
          CooledLeftSource(g, r, c, m);
        } else {
          var left := if c == 0 then Cooled(g, r, FireWidth - 1) else Cool(g[r + 1][c - 1]);
          var right := if c == FireWidth - 1 then g[r + 2][0] else g[r + 1][c + 1];
          assert left <= m && right <= m && g[r + 1][c] <= m && g[r + 2][c] <= m;
        }
      } else {
        assert s[r] == SeedRow(draws);
      }
    }
  }

  /** When every cell but (0, 0) is at most m - 1, so is the new value of
      cell (0, 0): none of its four sources is cell (0, 0) itself. */
  lemma CornerCools(g: Grid, m: int)
    requires Shaped(g) && |g| == FireHeight && 0 < m
    requires forall r, c :: 0 <= r < FireHeight && 0 <= c < FireWidth && (r > 0 || c > 0) ==> g[r][c] <= m - 1
    ensures Diffused(g, 0, 0) <= m - 1
  {
    assert g[1][0] <= m - 1 && g[0][FireWidth - 1] <= m - 1 && g[1][1] <= m - 1 && g[2][0] <= m - 1;
  }

  /** Two frames without a successful coin lower the hottest cell by at least
      one: after the first, only cell (0, 0) may still be at m, and in the
      second none of its four sources is cell (0, 0). */
  lemma TwoQuietFramesCool(g: Grid, d1: seq<Draw>, d2: seq<Draw>, m: int)
    requires Shaped(g) && |g| == FireHeight && |d1| == FireWidth && |d2| == FireWidth
    requires Quiet(d1) && Quiet(d2) && 0 < m && AtMost(g, m)
    ensures AtMost(Step(Step(g, d1), d2), m - 1)
  {
    var g1 := Step(g, d1);
    QuietStepCools(g, d1, m);
    QuietStepCools(g1, d2, m);
    var g2 := Step(g1, d2);
    CornerCools(g1, m);
    assert g2[0][0] == Diffused(g1, 0, 0);
  }

  /** Every frame has one draw per column and no successful coin. */
  predicate QuietFrames(frames: seq<seq<Draw>>) {
    forall k :: 0 <= k < |frames| ==> |frames[k]| == FireWidth && Quiet(frames[k])
  }

  lemma QuietFramesDrop(frames: seq<seq<Draw>>, n: nat)
    requires QuietFrames(frames) && n <= |frames|
    ensures QuietFrames(frames[n..])
  {
    var rest := frames[n..];
    assert forall k :: 0 <= k < |rest| ==> rest[k] == frames[k + n];
  }

  /** Running a sequence of frames runs its first two, then the rest. */
  lemma RunTwoFrames(g: Grid, frames: seq<seq<Draw>>)
    requires Shaped(g) && |g| == FireHeight && QuietFrames(frames) && |frames| >= 2
    ensures QuietFrames(frames[2..])
    ensures Run(g, frames) == Run(Step(Step(g, frames[0]), frames[1]), frames[2..])
  {
    var g1 := Step(g, frames[0]);
    QuietFramesDrop(frames, 1);
    QuietFramesDrop(frames, 2);
    assert frames[1..][0] == frames[1] && frames[1..][1..] == frames[2..];
    assert Run(g, frames) == Run(g1, frames[1..]);
  }

  /** Left without sparks, the fire dies out: a grid whose cells are at most m
      is entirely 0 after 2m frames in which no coin succeeds, so any grid of
      bytes is dark after 510 such frames. */
  lemma {:induction false} QuietFramesDieOut(g: Grid, frames: seq<seq<Draw>>, m: nat)
    requires Shaped(g) && |g| == FireHeight && AtMost(g, m)
    requires QuietFrames(frames) && |frames| >= 2 * m
    ensures forall r, c :: 0 <= r < FireHeight && 0 <= c < FireWidth ==> Run(g, frames)[r][c] == 0
    decreases |frames|
  {
    if |frames| == 0 {
    } else if m == 0 {
      var g1 := Step(g, frames[0]);
      QuietStepCools(g, frames[0], 0);
      QuietFramesDrop(frames, 1);
      QuietFramesDieOut(g1, frames[1..], 0);
      assert Run(g, frames) == Run(g1, frames[1..]);
    } else {
      var g2 := Step(Step(g, frames[0]), frames[1]);
      TwoQuietFramesCool(g, frames[0], frames[1], m);
      RunTwoFrames(g, frames);
      QuietFramesDieOut(g2, frames[2..], m - 1);
    }
  }
}
