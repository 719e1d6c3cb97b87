/** The per-frame update of the fire control written as the source writes it:
    nested loops that mutate the grid in place, statement by statement. Each
    method is proved to compute the corresponding function of FireStep. */
module FireBox {
  import opened FireGrid
  import opened FireStep

  /** The body of the inner loop at source row i, column j: the three-way
      branch on the column that picks the four cells to average into cell
      (i - 1, j), followed by the cooling of cell (i, j). */
  method DiffuseAndCool(buf: Grid, i: int, j: int) returns (out: Grid)
    requires Shaped(buf) && 1 <= i && i + 1 < |buf| && 0 <= j < FireWidth
    ensures out == Visit(buf, i, j)
  {
    var v: int;
    if j == 0 {
      v := (buf[i][j] + buf[i - 1][FireWidth - 1] + buf[i][j + 1] + buf[i + 1][j]) / 4;
    } else if j == LcdWidth / 4 - 1 {
      v := (buf[i][j] + buf[i][j - 1] + buf[i + 1][0] + buf[i + 1][j]) / 4;
    } else {
      v := (buf[i][j] + buf[i][j - 1] + buf[i][j + 1] + buf[i + 1][j]) / 4;
    }
    assert v == NewValue(buf, i, j);
    out := buf[i - 1 := buf[i - 1][j := v]];
    ghost var averaged := out;
    var x := out[i][j];
    if x > 11 {
      x := x - 12;
    } else if x > 3 {
      x := x - 4;
    } else {
      if x > 0 {
        x := x - 1;
      }
      if x > 0 {
        x := x - 1;
      }
      if x > 0 {
        x := x - 1;
      }
    }
    assert x == Cool(averaged[i][j]);
    out := out[i := out[i][j := x]];
  }

  /** The seed loop: `delta` starts at 0 and is replaced only when the column's
      coin succeeds; both bottom rows receive it. */
  method ReseedBand(p: Grid, draws: seq<Draw>) returns (g: Grid)
    requires Shaped(p) && |p| == FireHeight && |draws| == FireWidth
    ensures g == Reseed(p, draws)
  {
    g := p;
    ghost var seed := SeedRow(draws);
    var delta := 0;
    var j := 0;
    while j < FireWidth
      invariant 0 <= j <= FireWidth
      invariant |g| == FireHeight
      invariant forall r :: 0 <= r < SeedTop ==> g[r] == p[r]
      invariant |g[SeedTop]| == |g[SeedBottom]| == FireWidth
      invariant g[SeedTop][..j] == g[SeedBottom][..j] == seed[..j]
      invariant delta == if j == 0 then 0 else seed[j - 1]
    {
      if draws[j].coin % 10 < 5 {
        delta := (draws[j].spark % 2) * 255;
      }
      assert delta == seed[j];
      g := g[SeedTop := g[SeedTop][j := delta]];
      g := g[SeedBottom := g[SeedBottom][j := delta]];
      j := j + 1;
      assert g[SeedTop][..j] == g[SeedTop][..j - 1] + [delta];
      assert g[SeedBottom][..j] == g[SeedBottom][..j - 1] + [delta];
      assert seed[..j] == seed[..j - 1] + [seed[j - 1]];
    }
    assert g[SeedTop] == g[SeedTop][..FireWidth];
    assert g[SeedBottom] == g[SeedBottom][..FireWidth];
    var want := Reseed(p, draws);
    assert forall r :: 0 <= r < FireHeight ==> g[r] == want[r];
  }

  /** The nested diffusion-and-cooling loops of `fire_box::on_before_paint`,
      with source rows 1..last: row by row, left to right. Before the body
      runs at (i, j) the grid is the middle state Mid(grid, i, j). */
  method DiffusionLoops(grid: Grid, last: int) returns (buf: Grid)
    requires Shaped(grid) && 0 <= last && last + 1 < |grid|
    ensures buf == Pass(grid, last)
  {
    MidAtStart(grid);
    buf := grid;
    var i := 1;
    while i <= last
      invariant 1 <= i <= last + 1
      invariant buf == Mid(grid, i, 0)
    {
      var j := 0;
      while j < FireWidth
        invariant 0 <= j <= FireWidth
        invariant buf == Mid(grid, i, j)
      {
        VisitMid(grid, i, j);
        buf := DiffuseAndCool(buf, i, j);
        j := j + 1;
      }
      MidRowDone(grid, i);
      i := i + 1;
    }
    SweepFromMid(grid, 1, 0, last);
  }

  /** `fire_box::on_before_paint`. The outer loop runs `i < fire_height`, so its
      last iteration reads one row past the array; `pastEnd` stands for the
      FireWidth bytes found there. The result does not depend on them and is the
      corrected frame update Step. */
  method OnBeforePaint(grid: Grid, pastEnd: seq<int>, draws: seq<Draw>) returns (g: Grid)
    requires Shaped(grid) && |grid| == FireHeight && Shaped([pastEnd]) && |draws| == FireWidth
    ensures g == StepAsWritten(grid + [pastEnd], draws)
    ensures g == Step(grid, draws)
  {
    var ext := grid + [pastEnd];
    var buf := DiffusionLoops(ext, FireHeight - 1);
    g := ReseedBand(buf[..FireHeight], draws);
    assert ext[..FireHeight] == grid;
    AsWrittenMatchesCorrected(ext, draws);
  }
}
