# Fire effect: simulation, palettes and rasterisation

A Dafny model of the core of a "fire" animation for a 320x170 RGB565 display.
A quarter-resolution grid of intensity bytes (80 columns by 48 rows) is
advanced once per frame by `fire_box::on_before_paint`:

- every cell takes the average of four neighbours, with asymmetric wraps at the left and right edges;
- each source cell is cooled right after it is read;
- the two bottom rows are re-seeded from `rand()`.

`fire_box::on_paint` then paints the grid through a 256-entry palette. Each
grid cell becomes a 4x4 block of pixels. The palette is either the constant
`fire_palette` table or the one built by `gen_palette`. The paint has two
paths:

- a generic path that sets one pixel at a time;
- a span path that writes 2x2 blocks through pointers into the bitmap rows.

Modules:

- `FireGrid` (fire_grid.dfy) holds the constants, the grid type, cooling, the four-cell average and the choice of the four cells.
- `FireStep` (fire_step.dfy) holds the frame update as pure functions:
  - the in-place pass in loop order (`Visit`, `Sweep`);
  - its closed form (`PassCell`), proved equal to it;
  - re-seeding, and the frame as written versus the corrected frame.
  - bounds over frames: heat rising from a full seed band, and the fire dying out when no spark is drawn.
- `FireBox` (fire_box.dfy) holds the same update as statement-level loops over the grid. Each loop is proved to compute the matching `FireStep` function.
- `Palette` (palette.dfy) holds the constant table (transcribed), the generated ramp and the loop that builds it.
- `FirePaint` (fire_paint.dfy) holds the pixel-to-cell mapping, the generic path, and the span path as written and with per-pixel colours.

Conventions of the model:

- Colours are kept as (r, g, b) channel triples in 5/6/5-bit ranges.
- The random numbers are an input: one `Draw(coin, spark)` per column of the seed band.
- The bitmap is a `Surface` that covers part of the control. Its rows are sequences of colours.
- A span is (row, start, length).

## Model

| member | source | states |
|---|---|---|
| FireGrid.Cool | src/main.cpp:308-320 | Cooling takes 12 from values above 11 and 4 from values 4 to 11, and sends values up to 3 to 0. It never goes below zero and strictly lowers every positive value. |
| FireGrid.CoolingReachesZero | src/main.cpp:308-320 | A value that is only cooled reaches 0 within v/12 + 3 applications of the cooling step and stays there, because 0 is a fixed point. |
| FireGrid.Avg4 | src/main.cpp:289-306 | `(a+b+c+d) >> 2` of four bytes is a byte. It is no greater than the largest input and no less than the smallest. It is the floor of the mean. |
| FireGrid.Sources | src/main.cpp:289-306 | The four cells read for cell (i-1, j) all have columns inside the grid, and the fourth is always the cell below, (i+1, j). |
| FireGrid.EdgeWrapsAreAsymmetric | src/main.cpp:289-306 | Column 0 reads (i-1, last column) instead of a left neighbour. The last column (`LCD_WIDTH/4-1`) reads (i+1, 0) instead of a right neighbour. Interior columns read (i, j-1) and (i, j+1). |
| FireGrid.NewValue | src/main.cpp:289-306 | The new value needs row i+1 to exist. It is a byte bounded above by one of its four sources and below by one. |
| FireGrid.LastIterationReadsPastTheArray | src/main.cpp:285-306 | On the last iteration of `i < fire_height` every cell reads row fire_height, which is past the array. |
| FireStep.Visit | src/main.cpp:287-321 | One inner-loop body writes the average into (i-1, j), cools (i, j) and changes no other cell. |
| FireStep.Pass | src/main.cpp:285-322 | The in-place pass equals its closed form: every row above the last source row is averaged from a left neighbour that has already been cooled; the last source row is only cooled; lower rows are unchanged. |
| FireStep.PassIsOrderDependent | src/main.cpp:285-322 | A grid exists on which the in-place pass differs from a simultaneous update: cell (0, 1) becomes 0, not 3. |
| FireStep.SeedFrom | src/main.cpp:323-332 | Seed values are 0 or 255. A column whose coin succeeds takes its spark. A column whose coin fails repeats the value before it, or the initial delta for the first column. |
| FireStep.Reseed | src/main.cpp:323-332 | Both bottom rows receive the same seed row, and all other rows are kept. |
| FireStep.Step | src/main.cpp:283-333 | After a frame, rows above the seed band hold the closed-form average. The two seed rows are equal and hold only 0 and 255. A failed coin repeats the previous column, starting from 0. |
| FireStep.StepAsWritten | src/main.cpp:285-333 | The frame exactly as written runs on the array plus the row of memory after it. It still yields a 48-row grid of bytes. |
| FireStep.AsWrittenMatchesCorrected | src/main.cpp:285-333 | The frame as written, whose last iteration reads memory past the array, equals the corrected frame whatever that memory holds. |
| FireStep.Run | src/main.cpp:283-333 | Over any number of frames the grid keeps its shape and every cell stays a byte. |
| FireStep.HeatRisesFromSeedBand | src/main.cpp:285-333 | When both seed rows are 255, the row above them is at least 191 after one frame, whatever the rest of the grid holds. |
| FireStep.QuietStepCools | src/main.cpp:285-333 | In a frame where no coin succeeds, no cell becomes hotter than the hottest cell before it. When that maximum is positive, every cell except (0, 0) ends at least one below it. Both seed rows are all 0. |
| FireStep.TwoQuietFramesCool | src/main.cpp:285-333 | Two frames in which no coin succeeds lower the grid's maximum by at least one. |
| FireStep.QuietFramesDieOut | src/main.cpp:283-333 | Without sparks the fire dies out: a grid whose cells are at most m is entirely 0 after 2m frames in which no coin succeeds (510 frames for any grid of bytes). |
| FireBox.DiffuseAndCool | src/main.cpp:289-320 | The statement-level loop body (three-way branch on the column, then the cooling branches) performs exactly one Visit. |
| FireBox.DiffusionLoops | src/main.cpp:285-322 | The nested loops compute the pass and so its closed form. |
| FireBox.ReseedBand | src/main.cpp:323-332 | The seed loop, with `delta` starting at 0 and replaced only when the coin succeeds, produces Reseed. |
| FireBox.OnBeforePaint | src/main.cpp:283-333 | The whole update as written, including the read past the array, gives the corrected frame Step. |
| Palette.ConstantTableIsFirePalette | src/main.cpp:71-135 | The constant table has 256 entries, all in 5/6/5 range. It starts at black and ends at (31, 63, 31). Red, green and total brightness never decrease. |
| Palette.ConstantBlueIsNotMonotone | src/main.cpp:71-135 | Blue in the constant table falls (entry 8 to entry 9) and rises again later (entry 23 to entry 255). |
| Palette.GenRampIsFirePalette | src/main.cpp:138-156 | The generated ramp is a fire palette in which every channel, blue included, never decreases. Green is 0 through entry 63 and blue is 0 through entry 191. |
| Palette.GenPalette | src/main.cpp:138-156 | The loop with its `unsigned char` casts and its clamps builds exactly the generated ramp, so the clamps and casts never change a value. |
| FirePaint.CellOf | src/main.cpp:374-376 | Every screen pixel maps to a cell inside the grid: the 4x4 block containing it, in rows 0 to 42. The seed band is never shown. |
| FirePaint.VisibleRowsAreShown | src/main.cpp:50-51 | Every grid row up to 42, in every column, is shown by some pixel. |
| FirePaint.SetPixel | src/main.cpp:378 | `point` changes exactly the addressed pixel when it is inside the bitmap, and nothing else. |
| FirePaint.OnPaintGeneric | src/main.cpp:372-380 | The generic path gives each pixel of the inclusive clip the palette colour of its cell and changes no other pixel. |
| FirePaint.SpanAt | src/main.cpp:345-349 | A span is null exactly when its point lies outside the bitmap; otherwise it runs to the end of the bitmap row. |
| FirePaint.Poke | src/main.cpp:355-366 | A pointer write is allowed only at an offset below the span's length, and it changes exactly that pixel. |
| FirePaint.PaintPair | src/main.cpp:355-366 | One step through one row's span writes the first colour at the pointer. It writes the second colour at the next position only when the guard allows: as written, while the bitmap row continues; corrected, while the clip continues. The pointer advances by 1 or 2 accordingly, and no other pixel changes. |
| FirePaint.PaintBlock | src/main.cpp:350-368 | One iteration of the inner loop writes the block's pixels that the guards admit. The first row is always written; the second only when its span is not null. As written, every pixel gets the colour `px` of the block's top-left pixel. Both row pointers end two pixels further on while the clip continues. |
| FirePaint.PaintBand | src/main.cpp:345-369 | One band writes, in rows y and y+1, exactly the pixels the span rule selects, with the span rule's colours. Row y+1 is skipped when its span is null. |
| FirePaint.SpanLoop | src/main.cpp:340-370 | The span loops leave every bitmap pixel as the span rule says: written pixels get the block colour, all others are unchanged. |
| FirePaint.OnPaintSpans | src/main.cpp:340-370 | As written, each 2x2 block takes its top-left pixel's colour. With a clip that starts on even coordinates and ends on odd ones (or at the bitmap edge), the result equals the generic path's, pixel for pixel. |
| FirePaint.AlignedSpanPixel | src/main.cpp:340-370 | For an aligned clip, the span rule and the generic path agree at every pixel. |
| FirePaint.OddClipTakesBlockAbove | src/main.cpp:340-353 | With an odd clip.y1, a clip row that is a multiple of 4 is coloured from the grid row above its own. |
| FirePaint.OddClipTakesBlockLeft | src/main.cpp:350-353 | With an odd clip.x1, a clip column that is a multiple of 4 is coloured from the grid column left of its own. |
| FirePaint.OddClipCounterexample | src/main.cpp:340-353 | For a strip starting at row 85, pixel (0, 88) differs between the span path as written and the generic path. |
| FirePaint.PastClipEnd | src/main.cpp:355-366 | As written, when the clip is an odd number of columns wide and ends short of the bitmap's right edge, the pixel just right of the clip is painted with the last block's colour in every clip row. The generic path and the corrected span path keep that pixel, so the paths differ there exactly when the colours differ. |
| FirePaint.PastClipBottom | src/main.cpp:345-367 | As written, when the clip has an odd number of rows and the bitmap continues below it, the row just below the clip is painted with the last band's colours. The generic path and the corrected span path keep that row. |
| FirePaint.OnPaintSpansCorrected | src/main.cpp:340-370 | The span loops with per-pixel colours and guards at the clip equal the generic path for every clip. |

## Left out

- Display bring-up (SPI bus, panel, GPIO, backlight) and the allocation of the transfer buffers (src/main.cpp:188-274): hardware I/O.
- The flush state machine. It lives inside `uix::display`, which is not part of this model; this file only forwards the completion callback and polls `flush_pending` (src/main.cpp:176-186, 462). It is concurrency with invisible internals.
- Frame-rate statistics, timing, `snprintf` and the FreeRTOS task loop (src/main.cpp:419-487): scheduling and I/O.
- Fonts, the FPS label, `screen_init` and control registration (src/main.cpp:44-46, 386-411): UI plumbing.
- The RGB565 packing and byte swap of `rgb_pixel<16>(...).swapped()`, and the `BLUE_FLAME` channel swap (src/main.cpp:56-68). Palette entries stay (r, g, b) triples.
- `rand()` itself. Each seed column gets a `Draw(coin, spark)` of two raw results. The spark is consulted only when the coin succeeds, as the source draws it only then. How the draws are interleaved in the C library's single stream is not modelled.
- The gfx span type is not part of this model. Its semantics are assumed: `span(point)` is the rest of the bitmap row from that point, `length` counts pixels, and `data` is null when the point is outside the bitmap.
- The choice between the two paint paths and between the two palettes is a compile-time switch (`USE_SPANS`, `USE_GEN_PALETTE`). Both variants are modelled as separate members rather than as one configurable operation.

## Findings

The fast span path is meant to paint exactly what the per-pixel path paints. As written it does so only for aligned clips, so the model follows the code and records the difference below.

| source | as written | input that shows it | evidently intended | confidence | as-written member | corrected member |
|---|---|---|---|---|---|---|
| src/main.cpp:285-306 | The outer loop runs `i < fire_height` and reads `fire_buffer[i + 1]`, so its last iteration reads row fire_height, one row past the array. | Any grid: with i = 47, every column j reads cell (48, j). | The loop bound `i < fire_height - 1`. The extra iteration only writes rows 46 and 47, which re-seeding overwrites, so the frame is unchanged. | not executed | FireStep.StepAsWritten | FireStep.Step |
| src/main.cpp:340-370 | The span path colours each 2x2 block from its top-left pixel, and blocks are counted from clip.x1 and clip.y1. When either is odd, blocks straddle the grid's 4-pixel cells. | Clip rows 85 to 169 (the second strip, if the display fills the screen in strips of the `LCD_WIDTH*LCD_HEIGHT*2/2`-byte transfer buffer of line 168, which holds 85 rows), grid row 22 all 255 and row 21 all 0: pixel (0, 88) shows row 21, not row 22. | Every pixel shows the palette colour of its own cell, identical to the generic path. | not executed | FirePaint.OddClipCounterexample | FirePaint.OnPaintSpansCorrected |
| src/main.cpp:355-366 | The guard before the second write of a pair, `x-clip.x1+1<row.length`, compares against the span length, which runs to the end of the bitmap row rather than to clip.x2. | Clip (0, 0) to (2, 1) on a bitmap of full screen width: the block at column 2 also writes pixel (3, 0), outside the clip. | The pair stops at clip.x2, as the comment before the guard says and as the generic path does. | not executed | FirePaint.PastClipEnd | FirePaint.OnPaintSpansCorrected |
| src/main.cpp:345-367 | The second row's span is taken at `y+1` without comparing it to clip.y2, and the comment before the `prow2` check expects it to be null when the clip ends on an odd value. It is null only when row `y+1` is outside the bitmap. | Clip rows 0 to 0 on a bitmap of two or more rows: the only band also writes row 1, outside the clip. | The second row is written only while `y+1 <= clip.y2`, as in the generic path. | not executed | FirePaint.PastClipBottom | FirePaint.OnPaintSpansCorrected |
