/** Rasterisation of the fire grid (`fire_box::on_paint`): every pixel shows
    the palette colour of the grid cell one quarter of its coordinates away.
    The generic path sets one pixel at a time; the span path writes 2x2 blocks
    through pointers into the bitmap's rows. */
module FirePaint {
  import opened FireGrid
  import opened Palette

  /** The grid the control paints: FireHeight rows of FireWidth bytes. */
  predicate FullGrid(g: Grid) {
    Shaped(g) && |g| == FireHeight
  }

  predicate OnScreen(x: int, y: int) {
    0 <= x < LcdWidth && 0 <= y < LcdHeight
  }

  /** The grid cell shown at pixel (x, y): `(y >> 2, x >> 2)`. Every pixel of
      the screen maps into the grid, to the 4x4 block that contains it, and
      rows 43 to 47 (the seed band among them) are never shown. */
  function CellOf(x: int, y: int): (p: Cell)
    requires OnScreen(x, y)
    ensures 0 <= p.row < FireHeight && 0 <= p.col < FireWidth
    ensures 4 * p.row <= y < 4 * p.row + 4 && 4 * p.col <= x < 4 * p.col + 4
    ensures p.row < 43 && p.row < SeedTop
  {
    Cell(y / 4, x / 4)
  }

  /** Every grid row up to 42 and every column is shown somewhere. */
  lemma VisibleRowsAreShown(row: int, col: int)
    requires 0 <= row < 43 && 0 <= col < FireWidth
    ensures OnScreen(4 * col, 4 * row) && CellOf(4 * col, 4 * row) == Cell(row, col)
  {
  }

  /** `fire_palette[fire_buffer[y >> 2][x >> 2]]` */
  function Colour(grid: Grid, pal: seq<Rgb>, x: int, y: int): Rgb
    requires FullGrid(grid) && |pal| == PaletteSize && OnScreen(x, y)
  {
    var p := CellOf(x, y);
    pal[grid[p.row][p.col]]
  }

  // ---------------------------------------------------------------------------
  // Destination surface and clip

  /** The bitmap being painted: control pixel (x, y) is rows[y - top][x - left];
      the bitmap covers `width` columns from `left` and |rows| rows from `top`,
      all of them on the screen. */
  datatype Surface = Surface(left: int, top: int, width: nat, rows: seq<seq<Rgb>>)

  predicate ValidSurface(s: Surface) {
    && 0 <= s.left && s.left + s.width <= LcdWidth
    && 0 <= s.top && s.top + |s.rows| <= LcdHeight
    && forall k :: 0 <= k < |s.rows| ==> |s.rows[k]| == s.width
  }

  predicate Inside(s: Surface, x: int, y: int) {
    s.left <= x < s.left + s.width && s.top <= y < s.top + |s.rows|
  }

  function PixelAt(s: Surface, x: int, y: int): Rgb
    requires ValidSurface(s) && Inside(s, x, y)
  {
    s.rows[y - s.top][x - s.left]
  }

  /** b is a valid surface over the same area as a. */
  predicate SameFrame(b: Surface, a: Surface) {
    b.left == a.left && b.top == a.top && b.width == a.width && |b.rows| == |a.rows| && ValidSurface(b)
  }

  /** `destination.point(point16(x, y), px)`: sets one pixel; a point outside
      the bitmap is clipped away. */
  function SetPixel(s: Surface, x: int, y: int, c: Rgb): (s': Surface)
    requires ValidSurface(s)
    ensures SameFrame(s', s)
    ensures forall x', y' :: Inside(s, x', y') ==>
      PixelAt(s', x', y') == if x' == x && y' == y then c else PixelAt(s, x', y')
  {
    if Inside(s, x, y) then
      s.(rows := s.rows[y - s.top := s.rows[y - s.top][x - s.left := c]])
    else s
  }

  /** An inclusive rectangle, as `srect16`. */
  datatype Rect = Rect(x1: int, y1: int, x2: int, y2: int)

  predicate InClip(c: Rect, x: int, y: int) {
    c.x1 <= x <= c.x2 && c.y1 <= y <= c.y2
  }

  /** The clip lies within the bitmap, which the caller guarantees. */
  predicate ClipInside(c: Rect, s: Surface) {
    s.left <= c.x1 && c.x2 < s.left + s.width && s.top <= c.y1 && c.y2 < s.top + |s.rows|
  }

  predicate PaintArgs(s: Surface, clip: Rect, grid: Grid, pal: seq<Rgb>) {
    ValidSurface(s) && ClipInside(clip, s) && FullGrid(grid) && |pal| == PaletteSize
  }

  // ---------------------------------------------------------------------------
  // Generic path

  /** The pixels of the generic path: the clip shows the fire, the rest of the
      bitmap is left as it was. */
  function Generic(s: Surface, clip: Rect, grid: Grid, pal: seq<Rgb>, x: int, y: int): Rgb
    requires PaintArgs(s, clip, grid, pal) && Inside(s, x, y)
  {
    if InClip(clip, x, y) then Colour(grid, pal, x, y) else PixelAt(s, x, y)
  }

  /** The generic path of `on_paint`: one `point` call per pixel of the clip,
      rows top to bottom, pixels left to right. */
  method OnPaintGeneric(s: Surface, clip: Rect, grid: Grid, pal: seq<Rgb>) returns (out: Surface)
    requires PaintArgs(s, clip, grid, pal)
    ensures SameFrame(out, s)
    ensures forall x, y :: Inside(s, x, y) ==>
      PixelAt(out, x, y) == if InClip(clip, x, y) then Colour(grid, pal, x, y) else PixelAt(s, x, y)
  {
    out := s;
    var y := clip.y1;
    while y <= clip.y2
      invariant clip.y1 <= y && (y == clip.y1 || y <= clip.y2 + 1)
      invariant SameFrame(out, s)
      invariant forall x', y' :: Inside(s, x', y') ==>
        PixelAt(out, x', y') == if InClip(clip, x', y') && y' < y then Colour(grid, pal, x', y') else PixelAt(s, x', y')
    {
      var x := clip.x1;
      while x <= clip.x2
        invariant clip.x1 <= x && (x == clip.x1 || x <= clip.x2 + 1)
        invariant SameFrame(out, s)
        invariant forall x', y' :: Inside(s, x', y') ==>
          PixelAt(out, x', y') ==
            if InClip(clip, x', y') && (y' < y || (y' == y && x' < x)) then Colour(grid, pal, x', y')
            else PixelAt(s, x', y')
      {
        var i := y / 4;
        var j := x / 4;
        var px := pal[grid[i][j]];
        out := SetPixel(out, x, y, px);
        x := x + 1;
      }
      y := y + 1;
    }
  }

  // ---------------------------------------------------------------------------
  // Span path

  /** A writable run of one bitmap row, as `gfx_span`: row index, offset of its
      first pixel within the row and number of pixels; `Null` when the point
      asked for lies outside the bitmap (the source's null `data`). */
  datatype Span = Null | Span(row: int, start: int, length: int)

  /** `destination.span(point16(x, y))`: the rest of bitmap row y from column x. */
  function SpanAt(s: Surface, x: int, y: int): (sp: Span)
    requires ValidSurface(s)
    ensures sp.Span? <==> Inside(s, x, y)
    ensures sp.Span? ==> 0 <= sp.row < |s.rows| && 0 <= sp.start && sp.start + sp.length == s.width
  {
    if Inside(s, x, y) then Span(y - s.top, x - s.left, s.width - (x - s.left)) else Null
  }

  /** `*(p++) = px` where p is `off` pixels past the start of span sp. The write
      must stay before the end of the span. */
  function Poke(s: Surface, sp: Span, off: int, c: Rgb): (s': Surface)
    requires ValidSurface(s) && sp.Span? && 0 <= sp.row < |s.rows| && 0 <= sp.start
    requires sp.start + sp.length <= s.width
    requires 0 <= off < sp.length
    ensures SameFrame(s', s)
    ensures forall x', y' :: Inside(s, x', y') ==>
      PixelAt(s', x', y') == if x' == s.left + sp.start + off && y' == s.top + sp.row then c else PixelAt(s, x', y')
  {
    SetPixel(s, s.left + sp.start + off, s.top + sp.row, c)
  }

  /** The first coordinate of the 2-pixel step, starting from v1, that v falls in. */
  function Anchor(v: int, v1: int): (a: int)
    requires v1 <= v
    ensures v1 <= a <= v <= a + 1 && (a - v1) % 2 == 0
  {
    v1 + 2 * ((v - v1) / 2)
  }

  /** How the span loop colours a block. As written (perPixel false), all
      four pixels take the colour of the block's top-left pixel and the guards
      only keep them inside the span; per pixel, each pixel is coloured from
      its own coordinates and the guards keep it inside the clip. */
  predicate SpanWrites(perPixel: bool, clip: Rect, x: int, y: int) {
    && clip.x1 <= x && clip.y1 <= y
    && Anchor(x, clip.x1) <= clip.x2 && Anchor(y, clip.y1) <= clip.y2
    && (perPixel ==> InClip(clip, x, y))
  }

  function SpanColour(perPixel: bool, s: Surface, clip: Rect, grid: Grid, pal: seq<Rgb>, x: int, y: int): Rgb
    requires PaintArgs(s, clip, grid, pal) && Inside(s, x, y) && SpanWrites(perPixel, clip, x, y)
  {
    if perPixel then Colour(grid, pal, x, y)
    else Colour(grid, pal, Anchor(x, clip.x1), Anchor(y, clip.y1))
  }

  /** What the span loop leaves at pixel (x, y) of the bitmap. */
  function SpanResult(perPixel: bool, s: Surface, clip: Rect, grid: Grid, pal: seq<Rgb>, x: int, y: int): Rgb
    requires PaintArgs(s, clip, grid, pal) && Inside(s, x, y)
  {
    if SpanWrites(perPixel, clip, x, y) then SpanColour(perPixel, s, clip, grid, pal, x, y) else PixelAt(s, x, y)
  }

  /** The anchor of v lies below an aligned coordinate a exactly when v does,
      and equals it exactly for a and a + 1. */
  lemma AnchorAgainst(v: int, v1: int, a: int, k: nat)
    requires v1 <= v && a == v1 + 2 * k
    ensures Anchor(v, v1) < a <==> v < a
    ensures Anchor(v, v1) == a <==> v == a || v == a + 1
  {
  }

  /** The guard before the second write of a pair: as written, the pointer
      must stay inside the span, that is inside the bitmap row; per pixel, the
      pixel must stay inside the clip. */
  predicate SecondWrite(perPixel: bool, s: Surface, clip: Rect, x: int) {
    if perPixel then x + 1 <= clip.x2 else x + 1 < s.left + s.width
  }

  /** The colour a pair writes at (x', yr) for the block anchored at (x, y). */
  function PairColour(perPixel: bool, grid: Grid, pal: seq<Rgb>, x: int, y: int, x': int, yr: int): Rgb
    requires FullGrid(grid) && |pal| == PaletteSize && OnScreen(x, y) && OnScreen(x', yr)
  {
    if perPixel then Colour(grid, pal, x', yr) else Colour(grid, pal, x, y)
  }

  /** The writes through one row's span for the block whose left column is
      x: `*(prow++) = px;` and, when the guard allows, a second one. Row yr is
      the span's row. The first write is at offset p, which is below the
      span's length, and the second one only happens when p + 1 is too. */
  method PaintPair(cur: Surface, s: Surface, clip: Rect, sp: Span, p: int, x: int, yr: int,
                   c1: Rgb, c2: Rgb, perPixel: bool)
    returns (out: Surface, p': int)
    requires ValidSurface(s) && ClipInside(clip, s) && SameFrame(cur, s)
    requires sp == SpanAt(s, clip.x1, yr) && sp.Span?
    requires clip.x1 <= x <= clip.x2 && p == x - clip.x1
    ensures SameFrame(out, s)
    ensures p' == if SecondWrite(perPixel, s, clip, x) then p + 2 else p + 1
    ensures forall x', y' :: Inside(s, x', y') ==>
      PixelAt(out, x', y') ==
        if y' == yr && x' == x then c1
        else if y' == yr && x' == x + 1 && SecondWrite(perPixel, s, clip, x) then c2
        else PixelAt(cur, x', y')
  {
    out := Poke(cur, sp, p, c1);
    p' := p + 1;
    if (if perPixel then x + 1 <= clip.x2 else x - clip.x1 + 1 < sp.length) {
      out := Poke(out, sp, p', c2);
      p' := p' + 1;
    }
  }

  /** For a pixel of the block anchored at (x, y), the span loop's rule says
      it is written exactly when the pair guards let it through, and with the
      colour the pair writes. */
  lemma BlockPixel(perPixel: bool, s: Surface, clip: Rect, grid: Grid, pal: seq<Rgb>,
                   x: int, kx: nat, y: int, ky: nat, x': int, y': int)
    requires PaintArgs(s, clip, grid, pal)
    requires x == clip.x1 + 2 * kx && x <= clip.x2 && y == clip.y1 + 2 * ky && y <= clip.y2
    requires Inside(s, x', y') && (y' == y || y' == y + 1) && (x' == x || x' == x + 1)
    ensures SpanWrites(perPixel, clip, x', y') <==>
      (x' == x || SecondWrite(perPixel, s, clip, x)) && (y' == y || (perPixel ==> y + 1 <= clip.y2))
    ensures SpanWrites(perPixel, clip, x', y') ==>
      SpanColour(perPixel, s, clip, grid, pal, x', y') == PairColour(perPixel, grid, pal, x, y, x', y')
  {
    AnchorAgainst(x', clip.x1, x, kx);
    AnchorAgainst(y', clip.y1, y, ky);
  }

  /** The pixels the pair writes of one iteration of the inner span loop
      touch: the first column of the block always and the second when the
      guard allows; the first row always and the second when its span is
      used. */
  predicate BlockWrites(perPixel: bool, s: Surface, clip: Rect, x: int, y: int, x': int, y': int) {
    && (y' == y || (y' == y + 1 && (perPixel ==> y + 1 <= clip.y2)))
    && (x' == x || (x' == x + 1 && SecondWrite(perPixel, s, clip, x)))
  }

  /** One iteration of the inner span loop: the block anchored at (x, y),
      written through both rows' spans. `px` is computed once, from the
      block's top-left pixel, as in the source. */
  method PaintBlock(cur: Surface, s: Surface, clip: Rect, grid: Grid, pal: seq<Rgb>,
                    row: Span, row2: Span, p: int, p2: int, x: int, y: int, perPixel: bool)
    returns (out: Surface, np: int, np2: int)
    requires PaintArgs(s, clip, grid, pal) && SameFrame(cur, s)
    requires clip.y1 <= y <= clip.y2 && clip.x1 <= x <= clip.x2
    requires row == SpanAt(s, clip.x1, y) && row2 == SpanAt(s, clip.x1, y + 1)
    requires p == x - clip.x1
    requires row2 != Null && (perPixel ==> y + 1 <= clip.y2) ==> p2 == x - clip.x1
    ensures SameFrame(out, s)
    ensures x + 2 <= clip.x2 ==> np == x + 2 - clip.x1
    ensures x + 2 <= clip.x2 && row2 != Null && (perPixel ==> y + 1 <= clip.y2) ==> np2 == x + 2 - clip.x1
    ensures forall x', y' :: Inside(s, x', y') ==>
      PixelAt(out, x', y') ==
        if BlockWrites(perPixel, s, clip, x, y, x', y') then PairColour(perPixel, grid, pal, x, y, x', y')
        else PixelAt(cur, x', y')
  {
    var i := y / 4;
    var j := x / 4;
    var px := pal[grid[i][j]];
    var c1, c2 := px, px;
    if perPixel {
      c1 := Colour(grid, pal, x, y);
      c2 := if x + 1 <= clip.x2 then Colour(grid, pal, x + 1, y) else c1;
    }
    assert c1 == PairColour(perPixel, grid, pal, x, y, x, y);
    assert SecondWrite(perPixel, s, clip, x) ==> c2 == PairColour(perPixel, grid, pal, x, y, x + 1, y);
    out, np := PaintPair(cur, s, clip, row, p, x, y, c1, c2, perPixel);
    np2 := p2;
    if row2 != Null && (perPixel ==> y + 1 <= clip.y2) {
      var d1, d2 := px, px;
      if perPixel {
        d1 := Colour(grid, pal, x, y + 1);
        d2 := if x + 1 <= clip.x2 then Colour(grid, pal, x + 1, y + 1) else d1;
      }
      assert d1 == PairColour(perPixel, grid, pal, x, y, x, y + 1);
      assert SecondWrite(perPixel, s, clip, x) ==> d2 == PairColour(perPixel, grid, pal, x, y, x + 1, y + 1);
      out, np2 := PaintPair(out, s, clip, row2, p2, x, y + 1, d1, d2, perPixel);
    }
  }

  /** One pass of the outer span loop: the rows y and y + 1, the second only
      when its span is not null, in 2-pixel steps from clip.x1. */
  method PaintBand(cur: Surface, s: Surface, clip: Rect, grid: Grid, pal: seq<Rgb>, y: int, ghost ky: nat, perPixel: bool)
    returns (out: Surface)
    requires PaintArgs(s, clip, grid, pal) && SameFrame(cur, s)
    requires y == clip.y1 + 2 * ky && y <= clip.y2
    ensures SameFrame(out, s)
    ensures forall x', y' :: Inside(s, x', y') ==>
      PixelAt(out, x', y') ==
        if (y' == y || y' == y + 1) && SpanWrites(perPixel, clip, x', y') then SpanColour(perPixel, s, clip, grid, pal, x', y')
        else PixelAt(cur, x', y')
  {
    var row := SpanAt(s, clip.x1, y);
    var row2 := SpanAt(s, clip.x1, y + 1);
    var p := 0;
    var p2 := 0;
    out := cur;
    var x := clip.x1;
    ghost var kx: nat := 0;
    while x <= clip.x2
      invariant x == clip.x1 + 2 * kx && (x == clip.x1 || x <= clip.x2 + 2)
      invariant x <= clip.x2 ==> p == x - clip.x1
      invariant x <= clip.x2 && row2 != Null && (perPixel ==> y + 1 <= clip.y2) ==> p2 == x - clip.x1
      invariant SameFrame(out, s)
      invariant forall x', y' :: Inside(s, x', y') ==>
        PixelAt(out, x', y') ==
          if (y' == y || y' == y + 1) && SpanWrites(perPixel, clip, x', y') && x' < x
          then SpanColour(perPixel, s, clip, grid, pal, x', y')
          else PixelAt(cur, x', y')
    {
      ghost var before := out;
      out, p, p2 := PaintBlock(out, s, clip, grid, pal, row, row2, p, p2, x, y, perPixel);
      forall x', y' | Inside(s, x', y')
        ensures PixelAt(out, x', y') ==
          if (y' == y || y' == y + 1) && SpanWrites(perPixel, clip, x', y') && x' < x + 2
          then SpanColour(perPixel, s, clip, grid, pal, x', y')
          else PixelAt(cur, x', y')
      {
        if (y' == y || y' == y + 1) && (x' == x || x' == x + 1) {
          BlockPixel(perPixel, s, clip, grid, pal, x, kx, y, ky, x', y');
        } else {
          assert PixelAt(out, x', y') == PixelAt(before, x', y');
        }
      }
      x := x + 2;
      kx := kx + 1;
    }
    forall x', y' | Inside(s, x', y') && clip.x1 <= x'
      ensures SpanWrites(perPixel, clip, x', y') ==> x' < x
    {
      AnchorAgainst(x', clip.x1, x, kx);
    }
  }

  /** The span path of `on_paint`: bands of two rows from clip.y1, each
      painted by PaintBand. */
  method SpanLoop(s: Surface, clip: Rect, grid: Grid, pal: seq<Rgb>, perPixel: bool) returns (out: Surface)
    requires PaintArgs(s, clip, grid, pal)
    ensures SameFrame(out, s)
    ensures forall x, y :: Inside(s, x, y) ==> PixelAt(out, x, y) == SpanResult(perPixel, s, clip, grid, pal, x, y)
  {
    out := s;
    var y := clip.y1;
    ghost var ky: nat := 0;
    while y <= clip.y2
      invariant y == clip.y1 + 2 * ky && (y == clip.y1 || y <= clip.y2 + 2)
      invariant SameFrame(out, s)
      invariant forall x', y' :: Inside(s, x', y') ==>
        PixelAt(out, x', y') ==
          if SpanWrites(perPixel, clip, x', y') && y' < y
          then SpanColour(perPixel, s, clip, grid, pal, x', y')
          else PixelAt(s, x', y')
    {
      out := PaintBand(out, s, clip, grid, pal, y, ky, perPixel);
      forall x', y' | Inside(s, x', y') && clip.y1 <= y'
        ensures y' < y + 2 <==> y' < y || y' == y || y' == y + 1
      {
      }
      y := y + 2;
      ky := ky + 1;
    }
    forall x', y' | Inside(s, x', y') && clip.y1 <= y'
      ensures SpanWrites(perPixel, clip, x', y') ==> y' < y
    {
      AnchorAgainst(y', clip.y1, y, ky);
    }
  }

  /** The span path as written: each 2x2 block takes the colour of its
      top-left pixel, and the guards stop at the end of the bitmap row rather
      than at the clip. */
  method OnPaintSpans(s: Surface, clip: Rect, grid: Grid, pal: seq<Rgb>) returns (out: Surface)
    requires PaintArgs(s, clip, grid, pal)
    ensures SameFrame(out, s)
    ensures forall x, y :: Inside(s, x, y) ==>
      PixelAt(out, x, y) ==
        if SpanWrites(false, clip, x, y) then Colour(grid, pal, Anchor(x, clip.x1), Anchor(y, clip.y1))
        else PixelAt(s, x, y)
    // with an aligned clip it paints exactly what the generic path paints
    ensures AlignedClip(s, clip) ==>
      forall x, y :: Inside(s, x, y) ==> PixelAt(out, x, y) == Generic(s, clip, grid, pal, x, y)
  {
    out := SpanLoop(s, clip, grid, pal, false);
    if AlignedClip(s, clip) {
      forall x, y | Inside(s, x, y)
        ensures PixelAt(out, x, y) == Generic(s, clip, grid, pal, x, y)
      {
        AlignedSpanPixel(s, clip, grid, pal, x, y);
      }
    }
  }

  /** The span path with per-pixel colours and clip guards: the same loops,
      and exactly the generic path's result for every clip. */
  method OnPaintSpansCorrected(s: Surface, clip: Rect, grid: Grid, pal: seq<Rgb>) returns (out: Surface)
    requires PaintArgs(s, clip, grid, pal)
    ensures SameFrame(out, s)
    ensures forall x, y :: Inside(s, x, y) ==> PixelAt(out, x, y) == Generic(s, clip, grid, pal, x, y)
  {
    out := SpanLoop(s, clip, grid, pal, true);
  }

  /** A clip the 2x2 blocks of the span path fit: it starts on an even row and
      column, and ends on an odd one unless it ends at the bitmap's edge.
      The end conditions are needed: otherwise the last pair writes one column
      past the clip (PastClipEnd) and the last band one row below it
      (PastClipBottom). */
  predicate AlignedClip(s: Surface, clip: Rect) {
    && clip.x1 % 2 == 0 && clip.y1 % 2 == 0
    && ((clip.x2 - clip.x1) % 2 == 1 || clip.x2 == s.left + s.width - 1)
    && ((clip.y2 - clip.y1) % 2 == 1 || clip.y2 == s.top + |s.rows| - 1)
  }

  /** An even coordinate and the one after it lie in the same 4-pixel cell. */
  lemma EvenPairSameCell(a: int, v: int)
    requires a % 2 == 0 && (v == a || v == a + 1)
    ensures v / 4 == a / 4
  {
    var t := a / 4;
    assert a == 4 * t || a == 4 * t + 2;
  }

  /** From an even start the anchors are even. */
  lemma AnchorEven(v: int, v1: int)
    requires v1 % 2 == 0 && v1 <= v
    ensures Anchor(v, v1) % 2 == 0
  {
    var q := (v - v1) / 2;
    var m := v1 / 2;
    assert Anchor(v, v1) == 2 * (m + q);
  }

  /** Along one axis of an aligned clip [v1, v2] within a bitmap ending before
      `edge`, a coordinate's block is inside the clip exactly when the
      coordinate is, and the block lies in the same 4-pixel cell. */
  lemma AlignedAxis(v: int, v1: int, v2: int, edge: int)
    requires v1 % 2 == 0 && ((v2 - v1) % 2 == 1 || v2 == edge - 1)
    requires v1 <= v < edge && v2 < edge
    ensures Anchor(v, v1) <= v2 <==> v <= v2
    ensures Anchor(v, v1) / 4 == v / 4
  {
    var a := Anchor(v, v1);
    AnchorEven(v, v1);
    EvenPairSameCell(a, v);
  }

  /** With an aligned clip, the as-written span rule and the generic path agree
      on every pixel of the bitmap. */
  lemma AlignedSpanPixel(s: Surface, clip: Rect, grid: Grid, pal: seq<Rgb>, x: int, y: int)
    requires PaintArgs(s, clip, grid, pal) && AlignedClip(s, clip) && Inside(s, x, y)
    ensures SpanResult(false, s, clip, grid, pal, x, y) == Generic(s, clip, grid, pal, x, y)
  {
    if clip.x1 <= x && clip.y1 <= y {
      AlignedAxis(x, clip.x1, clip.x2, s.left + s.width);
      AlignedAxis(y, clip.y1, clip.y2, s.top + |s.rows|);
      assert SpanWrites(false, clip, x, y) <==> InClip(clip, x, y);
    }
  }

  /** As written, with an odd clip.y1 the bands straddle the grid's 4-row
      blocks: a row of the clip that starts a block (a multiple of 4) shares
      its band with the row above and is coloured from the grid row above its
      own. OddClipTakesBlockLeft states the same for columns. */
  lemma OddClipTakesBlockAbove(s: Surface, clip: Rect, grid: Grid, pal: seq<Rgb>, x: int, y: int)
    requires PaintArgs(s, clip, grid, pal) && InClip(clip, x, y)
    requires clip.y1 % 2 == 1 && y % 4 == 0 && clip.y1 < y
    ensures SpanResult(false, s, clip, grid, pal, x, y) == pal[grid[y / 4 - 1][Anchor(x, clip.x1) / 4]]
  {
    assert Anchor(y, clip.y1) == y - 1;
  }

  /** With an odd clip.x1, a clip column that starts a 4-pixel block shares
      its pair with the column to its left and is coloured from the grid
      column left of its own. */
  lemma OddClipTakesBlockLeft(s: Surface, clip: Rect, grid: Grid, pal: seq<Rgb>, x: int, y: int)
    requires PaintArgs(s, clip, grid, pal) && InClip(clip, x, y)
    requires clip.x1 % 2 == 1 && x % 4 == 0 && clip.x1 < x
    ensures SpanResult(false, s, clip, grid, pal, x, y) == pal[grid[Anchor(y, clip.y1) / 4][x / 4 - 1]]
  {
    assert Anchor(x, clip.x1) == x - 1;
  }

  /** A strip starting on row 85 (the second half of the screen, when the
      transfer buffer holds half a frame), a grid whose row 22 is all 255 and
      row 21 all 0, and the constant palette: pixel (0, 88) shows grid row 22
      on the generic path but row 21 on the span path as written. */
  lemma OddClipCounterexample()
    ensures exists s: Surface, clip: Rect, grid: Grid, pal: seq<Rgb> ::
      && PaintArgs(s, clip, grid, pal) && Inside(s, 0, 88) && InClip(clip, 0, 88)
      && SpanResult(false, s, clip, grid, pal, 0, 88) != Generic(s, clip, grid, pal, 0, 88)
  {
    var s := Surface(0, 85, LcdWidth, seq(85, r => seq(LcdWidth, c => Rgb(0, 0, 0))));
    var clip := Rect(0, 85, LcdWidth - 1, LcdHeight - 1);
    var grid := Zeros(FireHeight)[22 := seq(FireWidth, c => 255)];
    var pal := ConstantTable;
    ConstantTableIsFirePalette();
    assert PaintArgs(s, clip, grid, pal);
    OddClipTakesBlockAbove(s, clip, grid, pal, 0, 88);
    assert SpanResult(false, s, clip, grid, pal, 0, 88) == pal[0];
    assert Generic(s, clip, grid, pal, 0, 88) == pal[255];
  }

  /** As written, a clip whose width is odd (x2 - x1 even) and which ends
      short of the bitmap's right edge gets one pixel too many in each of its
      rows: the block anchored at clip.x2 also writes pixel (clip.x2 + 1, y),
      which lies outside the clip. The generic path and the corrected span
      path leave that pixel alone, so the paths differ there exactly when the
      block's colour differs from what the pixel held. With clip (0, 0)-(2, 1)
      on a full-width bitmap, pixel (3, 0) is painted. */
  lemma PastClipEnd(s: Surface, clip: Rect, grid: Grid, pal: seq<Rgb>, y: int)
    requires PaintArgs(s, clip, grid, pal)
    requires clip.x1 <= clip.x2 && (clip.x2 - clip.x1) % 2 == 0 && clip.x2 + 1 < s.left + s.width
    requires clip.y1 <= y <= clip.y2
    ensures Inside(s, clip.x2 + 1, y) && !InClip(clip, clip.x2 + 1, y)
    ensures SpanResult(false, s, clip, grid, pal, clip.x2 + 1, y) == Colour(grid, pal, clip.x2, Anchor(y, clip.y1))
    ensures SpanResult(true, s, clip, grid, pal, clip.x2 + 1, y) == Generic(s, clip, grid, pal, clip.x2 + 1, y)
      == PixelAt(s, clip.x2 + 1, y)
    ensures SpanResult(false, s, clip, grid, pal, clip.x2 + 1, y) != Generic(s, clip, grid, pal, clip.x2 + 1, y)
      <==> Colour(grid, pal, clip.x2, Anchor(y, clip.y1)) != PixelAt(s, clip.x2 + 1, y)
  {
    var x := clip.x2 + 1;
    AnchorAgainst(x, clip.x1, clip.x2, (clip.x2 - clip.x1) / 2);
    assert Anchor(x, clip.x1) == clip.x2;
    assert SpanWrites(false, clip, x, y);
  }

  /** The vertical twin of PastClipEnd. As written, when the clip has an odd
      number of rows (y2 - y1 even) and the bitmap continues below it, the
      span of row clip.y2 + 1 is not null, so the last band also paints that
      row, outside the clip, with the colours of the blocks anchored on row
      clip.y2. The generic path leaves the row alone. */
  lemma PastClipBottom(s: Surface, clip: Rect, grid: Grid, pal: seq<Rgb>, x: int)
    requires PaintArgs(s, clip, grid, pal)
    requires clip.y1 <= clip.y2 && (clip.y2 - clip.y1) % 2 == 0 && clip.y2 + 1 < s.top + |s.rows|
    requires clip.x1 <= x <= clip.x2
    ensures Inside(s, x, clip.y2 + 1) && !InClip(clip, x, clip.y2 + 1)
    ensures SpanResult(false, s, clip, grid, pal, x, clip.y2 + 1) == Colour(grid, pal, Anchor(x, clip.x1), clip.y2)
    ensures SpanResult(true, s, clip, grid, pal, x, clip.y2 + 1) == Generic(s, clip, grid, pal, x, clip.y2 + 1)
      == PixelAt(s, x, clip.y2 + 1)
  {
    AnchorAgainst(clip.y2 + 1, clip.y1, clip.y2, (clip.y2 - clip.y1) / 2);
  }
}
