/** The 256-entry colour ramp that maps an intensity byte to a display colour,
    in both variants of the source: the hand-tuned constant table and the
    generated ramp. Colours are kept as their 5-bit red, 6-bit green and 5-bit
    blue channel values, before packing into RGB565. */
module Palette {

  datatype Rgb = Rgb(r: int, g: int, b: int)

  const PaletteSize: nat := 256

  /** Channel values fit the 5/6/5-bit format. */
  predicate InRange(c: Rgb) {
    0 <= c.r <= 31 && 0 <= c.g <= 63 && 0 <= c.b <= 31
  }

  predicate AllInRange(s: seq<Rgb>) {
    forall k :: 0 <= k < |s| ==> InRange(s[k])
  }

  function Brightness(c: Rgb): int {
    c.r + c.g + c.b
  }

  /** Entry d follows entry c on the ramp: red, green and the channel total do
      not decrease. Blue alone may. */
  predicate NoDarker(c: Rgb, d: Rgb) {
    c.r <= d.r && c.g <= d.g && Brightness(c) <= Brightness(d)
  }

  /** Every entry follows its predecessor. */
  predicate Ramp(s: seq<Rgb>) {
    forall k :: 0 < k < |s| ==> NoDarker(s[k - 1], s[k])
  }

  /** A well-formed fire palette: 256 in-range entries ramping from black to
      the brightest white. */
  predicate FirePalette(p: seq<Rgb>) {
    && |p| == PaletteSize
    && AllInRange(p)
    && Ramp(p)
    && p[0] == Rgb(0, 0, 0)
    && p[PaletteSize - 1] == Rgb(31, 63, 31)
  }

  /** Two ramps joined where the second continues the first make one ramp. */
  lemma RampJoin(a: seq<Rgb>, b: seq<Rgb>)
    requires Ramp(a) && Ramp(b)
    requires |a| > 0 && |b| > 0 ==> NoDarker(a[|a| - 1], b[0])
    ensures Ramp(a + b)
  {
    var s := a + b;
    forall k | 0 < k < |s|
      ensures NoDarker(s[k - 1], s[k])
    {
      if k < |a| {
        assert s[k - 1] == a[k - 1] && s[k] == a[k];
      } else if k == |a| {
        assert s[k - 1] == a[|a| - 1] && s[k] == b[0];
      } else {
        assert s[k - 1] == b[k - 1 - |a|] && s[k] == b[k - |a|];
      }
    }
  }

  // ---------------------------------------------------------------------------
  // The constant table, in sixteen blocks of 16 entries

  const Block0: seq<Rgb> := [
      Rgb(0, 0, 0), Rgb(0, 0, 3), Rgb(0, 0, 3), Rgb(0, 0, 3),
      Rgb(0, 0, 4), Rgb(0, 0, 4), Rgb(0, 0, 4), Rgb(0, 0, 5),
      Rgb(1, 0, 5), Rgb(2, 0, 4), Rgb(3, 0, 4), Rgb(4, 0, 4),
      Rgb(5, 0, 3), Rgb(6, 0, 3), Rgb(7, 0, 3), Rgb(8, 0, 2)]

  const Block1: seq<Rgb> := [
      Rgb(9, 0, 2), Rgb(10, 0, 2), Rgb(11, 0, 2), Rgb(12, 0, 1),
      Rgb(13, 0, 1), Rgb(14, 0, 1), Rgb(15, 0, 0), Rgb(16, 0, 0),
      Rgb(16, 0, 0), Rgb(16, 0, 0), Rgb(17, 0, 0), Rgb(17, 0, 0),
      Rgb(18, 0, 0), Rgb(18, 0, 0), Rgb(18, 0, 0), Rgb(19, 0, 0)]

  const Block2: seq<Rgb> := [
      Rgb(19, 0, 0), Rgb(20, 0, 0), Rgb(20, 0, 0), Rgb(20, 0, 0),
      Rgb(21, 0, 0), Rgb(21, 0, 0), Rgb(22, 0, 0), Rgb(22, 0, 0),
      Rgb(23, 1, 0), Rgb(23, 1, 0), Rgb(24, 2, 0), Rgb(24, 2, 0),
      Rgb(25, 3, 0), Rgb(25, 3, 0), Rgb(26, 4, 0), Rgb(26, 4, 0)]

  const Block3: seq<Rgb> := [
      Rgb(27, 5, 0), Rgb(27, 5, 0), Rgb(28, 6, 0), Rgb(28, 6, 0),
      Rgb(29, 7, 0), Rgb(29, 7, 0), Rgb(30, 8, 0), Rgb(30, 8, 0),
      Rgb(31, 9, 0), Rgb(31, 9, 0), Rgb(31, 10, 0), Rgb(31, 10, 0),
      Rgb(31, 11, 0), Rgb(31, 11, 0), Rgb(31, 12, 0), Rgb(31, 12, 0)]

  const Block4: seq<Rgb> := [
      Rgb(31, 13, 0), Rgb(31, 13, 0), Rgb(31, 14, 0), Rgb(31, 14, 0),
      Rgb(31, 15, 0), Rgb(31, 15, 0), Rgb(31, 16, 0), Rgb(31, 16, 0),
      Rgb(31, 17, 0), Rgb(31, 17, 0), Rgb(31, 18, 0), Rgb(31, 18, 0),
      Rgb(31, 19, 0), Rgb(31, 19, 0), Rgb(31, 20, 0), Rgb(31, 20, 0)]

  const Block5: seq<Rgb> := [
      Rgb(31, 21, 0), Rgb(31, 21, 0), Rgb(31, 22, 0), Rgb(31, 22, 0),
      Rgb(31, 23, 0), Rgb(31, 24, 0), Rgb(31, 24, 0), Rgb(31, 25, 0),
      Rgb(31, 25, 0), Rgb(31, 26, 0), Rgb(31, 26, 0), Rgb(31, 27, 0),
      Rgb(31, 27, 0), Rgb(31, 28, 0), Rgb(31, 28, 0), Rgb(31, 29, 0)]

  const Block6: seq<Rgb> := [
      Rgb(31, 29, 0), Rgb(31, 30, 0), Rgb(31, 30, 0), Rgb(31, 31, 0),
      Rgb(31, 31, 0), Rgb(31, 32, 0), Rgb(31, 32, 0), Rgb(31, 33, 0),
      Rgb(31, 33, 0), Rgb(31, 34, 0), Rgb(31, 34, 0), Rgb(31, 35, 0),
      Rgb(31, 35, 0), Rgb(31, 36, 0), Rgb(31, 36, 0), Rgb(31, 37, 0)]

  const Block7: seq<Rgb> := [
      Rgb(31, 38, 0), Rgb(31, 38, 0), Rgb(31, 39, 0), Rgb(31, 39, 0),
      Rgb(31, 40, 0), Rgb(31, 40, 0), Rgb(31, 41, 0), Rgb(31, 41, 0),
      Rgb(31, 42, 0), Rgb(31, 42, 0), Rgb(31, 43, 0), Rgb(31, 43, 0),
      Rgb(31, 44, 0), Rgb(31, 44, 0), Rgb(31, 45, 0), Rgb(31, 45, 0)]

  const Block8: seq<Rgb> := [
      Rgb(31, 46, 0), Rgb(31, 46, 0), Rgb(31, 47, 0), Rgb(31, 47, 0),
      Rgb(31, 48, 0), Rgb(31, 48, 0), Rgb(31, 49, 0), Rgb(31, 49, 0),
      Rgb(31, 50, 0), Rgb(31, 50, 0), Rgb(31, 51, 0), Rgb(31, 52, 0),
      Rgb(31, 52, 0), Rgb(31, 52, 0), Rgb(31, 52, 0), Rgb(31, 52, 0)]

  const Block9: seq<Rgb> := [
      Rgb(31, 53, 0), Rgb(31, 53, 0), Rgb(31, 53, 0), Rgb(31, 53, 0),
      Rgb(31, 54, 0), Rgb(31, 54, 0), Rgb(31, 54, 0), Rgb(31, 54, 0),
      Rgb(31, 54, 0), Rgb(31, 55, 0), Rgb(31, 55, 0), Rgb(31, 55, 0),
      Rgb(31, 55, 0), Rgb(31, 56, 0), Rgb(31, 56, 0), Rgb(31, 56, 0)]

  const Block10: seq<Rgb> := [
      Rgb(31, 56, 0), Rgb(31, 57, 0), Rgb(31, 57, 0), Rgb(31, 57, 0),
      Rgb(31, 57, 0), Rgb(31, 57, 0), Rgb(31, 58, 0), Rgb(31, 58, 0),
      Rgb(31, 58, 0), Rgb(31, 58, 0), Rgb(31, 59, 0), Rgb(31, 59, 0),
      Rgb(31, 59, 0), Rgb(31, 59, 0), Rgb(31, 60, 0), Rgb(31, 60, 0)]

  const Block11: seq<Rgb> := [
      Rgb(31, 60, 0), Rgb(31, 60, 0), Rgb(31, 60, 0), Rgb(31, 61, 0),
      Rgb(31, 61, 0), Rgb(31, 61, 0), Rgb(31, 61, 0), Rgb(31, 62, 0),
      Rgb(31, 62, 0), Rgb(31, 62, 0), Rgb(31, 62, 0), Rgb(31, 63, 0),
      Rgb(31, 63, 0), Rgb(31, 63, 1), Rgb(31, 63, 1), Rgb(31, 63, 2)]

  const Block12: seq<Rgb> := [
      Rgb(31, 63, 2), Rgb(31, 63, 3), Rgb(31, 63, 3), Rgb(31, 63, 4),
      Rgb(31, 63, 4), Rgb(31, 63, 5), Rgb(31, 63, 5), Rgb(31, 63, 5),
      Rgb(31, 63, 6), Rgb(31, 63, 6), Rgb(31, 63, 7), Rgb(31, 63, 7),
      Rgb(31, 63, 8), Rgb(31, 63, 8), Rgb(31, 63, 9), Rgb(31, 63, 9)]

  const Block13: seq<Rgb> := [
      Rgb(31, 63, 10), Rgb(31, 63, 10), Rgb(31, 63, 10), Rgb(31, 63, 11),
      Rgb(31, 63, 11), Rgb(31, 63, 12), Rgb(31, 63, 12), Rgb(31, 63, 13),
      Rgb(31, 63, 13), Rgb(31, 63, 14), Rgb(31, 63, 14), Rgb(31, 63, 15),
      Rgb(31, 63, 15), Rgb(31, 63, 15), Rgb(31, 63, 16), Rgb(31, 63, 16)]

  const Block14: seq<Rgb> := [
      Rgb(31, 63, 17), Rgb(31, 63, 17), Rgb(31, 63, 18), Rgb(31, 63, 18),
      Rgb(31, 63, 19), Rgb(31, 63, 19), Rgb(31, 63, 20), Rgb(31, 63, 20),
      Rgb(31, 63, 21), Rgb(31, 63, 21), Rgb(31, 63, 21), Rgb(31, 63, 22),
      Rgb(31, 63, 22), Rgb(31, 63, 23), Rgb(31, 63, 23), Rgb(31, 63, 24)]

  const Block15: seq<Rgb> := [
      Rgb(31, 63, 24), Rgb(31, 63, 25), Rgb(31, 63, 25), Rgb(31, 63, 26),
      Rgb(31, 63, 26), Rgb(31, 63, 26), Rgb(31, 63, 27), Rgb(31, 63, 27),
      Rgb(31, 63, 28), Rgb(31, 63, 28), Rgb(31, 63, 29), Rgb(31, 63, 29),
      Rgb(31, 63, 30), Rgb(31, 63, 30), Rgb(31, 63, 31), Rgb(31, 63, 31)]

  const Blocks: seq<seq<Rgb>> := [
    Block0, Block1, Block2, Block3, Block4, Block5, Block6, Block7,
    Block8, Block9, Block10, Block11, Block12, Block13, Block14, Block15]

  /** The blocks laid end to end. */
  function Joined(bs: seq<seq<Rgb>>): seq<Rgb> {
    if |bs| == 0 then [] else bs[0] + Joined(bs[1..])
  }

  /** `fire_palette`, the constant table used when the palette is not
      generated. */
  const ConstantTable: seq<Rgb> := Joined(Blocks)

  /** A 16-entry stretch of the table that is in range and a ramp on its own. */
  predicate GoodBlock(s: seq<Rgb>) {
    |s| == 16 && AllInRange(s) && Ramp(s)
  }

  /** The same check spelled out entry by entry, with no quantifier, so that
      it can be decided for a literal block by evaluation. */
  predicate CheckedBlock(s: seq<Rgb>)
    requires |s| == 16
  {
    && InRange(s[0]) && InRange(s[1]) && InRange(s[2]) && InRange(s[3])
    && InRange(s[4]) && InRange(s[5]) && InRange(s[6]) && InRange(s[7])
    && InRange(s[8]) && InRange(s[9]) && InRange(s[10]) && InRange(s[11])
    && InRange(s[12]) && InRange(s[13]) && InRange(s[14]) && InRange(s[15])
    && NoDarker(s[0], s[1]) && NoDarker(s[1], s[2]) && NoDarker(s[2], s[3])
    && NoDarker(s[3], s[4]) && NoDarker(s[4], s[5]) && NoDarker(s[5], s[6])
    && NoDarker(s[6], s[7]) && NoDarker(s[7], s[8]) && NoDarker(s[8], s[9])
    && NoDarker(s[9], s[10]) && NoDarker(s[10], s[11]) && NoDarker(s[11], s[12])
    && NoDarker(s[12], s[13]) && NoDarker(s[13], s[14]) && NoDarker(s[14], s[15])
  }

  lemma CheckedBlockIsGood(s: seq<Rgb>)
    requires |s| == 16 && CheckedBlock(s)
    ensures GoodBlock(s)
  {
    forall k | 0 <= k < 16
      ensures InRange(s[k]) && (k > 0 ==> NoDarker(s[k - 1], s[k]))
    {
      assert k == 0 || k == 1 || k == 2 || k == 3 || k == 4 || k == 5 || k == 6 || k == 7 || k == 8 || k == 9 || k == 10 || k == 11 || k == 12 || k == 13 || k == 14 || k == 15;
    }
  }

  lemma Block0IsGood() ensures GoodBlock(Block0) { CheckedBlockIsGood(Block0); }
  lemma Block1IsGood() ensures GoodBlock(Block1) { CheckedBlockIsGood(Block1); }
  lemma Block2IsGood() ensures GoodBlock(Block2) { CheckedBlockIsGood(Block2); }
  lemma Block3IsGood() ensures GoodBlock(Block3) { CheckedBlockIsGood(Block3); }
  lemma Block4IsGood() ensures GoodBlock(Block4) { CheckedBlockIsGood(Block4); }
  lemma Block5IsGood() ensures GoodBlock(Block5) { CheckedBlockIsGood(Block5); }
  lemma Block6IsGood() ensures GoodBlock(Block6) { CheckedBlockIsGood(Block6); }
  lemma Block7IsGood() ensures GoodBlock(Block7) { CheckedBlockIsGood(Block7); }
  lemma Block8IsGood() ensures GoodBlock(Block8) { CheckedBlockIsGood(Block8); }
  lemma Block9IsGood() ensures GoodBlock(Block9) { CheckedBlockIsGood(Block9); }
  lemma Block10IsGood() ensures GoodBlock(Block10) { CheckedBlockIsGood(Block10); }
  lemma Block11IsGood() ensures GoodBlock(Block11) { CheckedBlockIsGood(Block11); }
  lemma Block12IsGood() ensures GoodBlock(Block12) { CheckedBlockIsGood(Block12); }
  lemma Block13IsGood() ensures GoodBlock(Block13) { CheckedBlockIsGood(Block13); }
  lemma Block14IsGood() ensures GoodBlock(Block14) { CheckedBlockIsGood(Block14); }
  lemma Block15IsGood() ensures GoodBlock(Block15) { CheckedBlockIsGood(Block15); }

  lemma AllBlocksGood()
    ensures |Blocks| == 16
    ensures forall q :: 0 <= q < |Blocks| ==> GoodBlock(Blocks[q])
    ensures forall q :: 0 < q < |Blocks| ==> NoDarker(Blocks[q - 1][15], Blocks[q][0])
  {
    Block0IsGood(); Block1IsGood(); Block2IsGood(); Block3IsGood();
    Block4IsGood(); Block5IsGood(); Block6IsGood(); Block7IsGood();
    Block8IsGood(); Block9IsGood(); Block10IsGood(); Block11IsGood();
    Block12IsGood(); Block13IsGood(); Block14IsGood(); Block15IsGood();
  }

  /** Entry r of block q is entry 16 q + r of the joined table. */
  lemma {:induction false} JoinedIndex(bs: seq<seq<Rgb>>, q: int, r: int)
    requires forall k :: 0 <= k < |bs| ==> |bs[k]| == 16
    requires 0 <= q < |bs| && 0 <= r < 16
    ensures |Joined(bs)| == 16 * |bs|
    ensures Joined(bs)[16 * q + r] == bs[q][r]
  {
    JoinedLength(bs);
    if q > 0 {
      JoinedIndex(bs[1..], q - 1, r);
    }
  }

  lemma {:induction false} JoinedLength(bs: seq<seq<Rgb>>)
    requires forall k :: 0 <= k < |bs| ==> |bs[k]| == 16
    ensures |Joined(bs)| == 16 * |bs|
  {
    if |bs| > 0 {
      JoinedLength(bs[1..]);
    }
  }

  /** Good blocks, each continuing the one before, join into one ramp. */
  lemma {:induction false} JoinedRamp(bs: seq<seq<Rgb>>)
    requires forall q :: 0 <= q < |bs| ==> GoodBlock(bs[q])
    requires forall q :: 0 < q < |bs| ==> |bs[q - 1]| == |bs[q]| == 16 && NoDarker(bs[q - 1][15], bs[q][0])
    ensures |Joined(bs)| == 16 * |bs| && AllInRange(Joined(bs)) && Ramp(Joined(bs))
  {
    if |bs| > 0 {
      var rest := bs[1..];
      assert forall q :: 0 < q < |rest| ==> rest[q - 1] == bs[q] && rest[q] == bs[q + 1];
      JoinedRamp(rest);
      if |rest| > 0 {
        JoinedIndex(rest, 0, 0);
        assert rest[0] == bs[1];
      }
      RampJoin(bs[0], Joined(rest));
    }
  }

  /** The constant table is a fire palette. */
  lemma ConstantTableIsFirePalette()
    ensures FirePalette(ConstantTable)
  {
    AllBlocksGood();
    JoinedRamp(Blocks);
    JoinedIndex(Blocks, 0, 0);
    JoinedIndex(Blocks, 15, 15);
  }

  /** Blue is not monotone along the constant table: it fades out while red
      comes in, then returns at the white end. */
  lemma ConstantBlueIsNotMonotone()
    ensures |ConstantTable| == PaletteSize
    ensures ConstantTable[8].b > ConstantTable[9].b
    ensures ConstantTable[23].b < ConstantTable[255].b
  {
    JoinedIndex(Blocks, 0, 8);
    JoinedIndex(Blocks, 0, 9);
    JoinedIndex(Blocks, 1, 7);
    JoinedIndex(Blocks, 15, 15);
  }

  // ---------------------------------------------------------------------------
  // The generated ramp

  /** Entry i of the generated ramp (N = 255): red rises over the whole range,
      green only above N / 4 = 63 and blue only above 3 N / 4 = 191, each
      reaching its channel maximum at the last entry. */
  function GenRamp(i: int): Rgb
    requires 0 <= i < PaletteSize
  {
    Rgb(31 * i / 255,
        if i > 63 then 63 * (i - 63) / 191 else 0,
        if i > 191 then 31 * (i - 191) / 63 else 0)
  }

  /** The generated ramp is a fire palette in which blue, too, never
      decreases; green is dark through entry 63 and blue through entry 191.
      Every channel already lies in its 5/6/5 range, so neither the clamps nor
      the `unsigned char` casts of the source ever change a value. */
  lemma GenRampIsFirePalette()
    ensures FirePalette(seq(PaletteSize, i requires 0 <= i < PaletteSize => GenRamp(i)))
    ensures forall k :: 0 < k < PaletteSize ==> GenRamp(k - 1).b <= GenRamp(k).b
    ensures forall i :: 0 <= i <= 63 ==> GenRamp(i).g == 0
    ensures forall i :: 0 <= i <= 191 ==> GenRamp(i).b == 0
  {
    var p := seq(PaletteSize, i requires 0 <= i < PaletteSize => GenRamp(i));
    forall k | 0 < k < PaletteSize
      ensures NoDarker(p[k - 1], p[k])
    {
      assert p[k - 1] == GenRamp(k - 1) && p[k] == GenRamp(k);
    }
  }

  /** Conversion of a non-negative int to `unsigned char`. */
  function ToUChar(v: int): int
    requires v >= 0
  {
    v % 256
  }

  /** A quotient below k + 1 whenever the dividend is below (k + 1) * d. */
  lemma QuotientBelow(a: int, d: int, k: nat)
    requires 0 < d && 0 <= a < (k + 1) * d
    ensures 0 <= a / d <= k
  {
    var q := a / d;
    assert d * q <= a;
    assert d * (q - k - 1) < 0;
  }

  /** The `unsigned char` cast keeps a value that already fits. */
  lemma SmallUChar(v: int)
    requires 0 <= v < 256
    ensures ToUChar(v) == v
  {
  }

  /** The channel arithmetic of one entry of `gen_palette`: each quotient is
      already within its channel's range, so the `unsigned char` cast and the
      clamp leave it as GenRamp has it. */
  lemma GenEntry(i: int)
    requires 0 <= i < PaletteSize
    ensures ToUChar(31 * i / 255) == GenRamp(i).r
    ensures i > 63 ==> ToUChar(63 * (i - 63) / 191) == GenRamp(i).g <= 63
    ensures i > 191 ==> ToUChar(31 * (i - 191) / 63) == GenRamp(i).b <= 31
  {
    var r := 31 * i / 255;
    QuotientBelow(31 * i, 255, 31);
    SmallUChar(r);
    if i > 63 {
      var g := 63 * (i - 63) / 191;
      QuotientBelow(63 * (i - 63), 191, 63);
      SmallUChar(g);
    }
    if i > 191 {
      var b := 31 * (i - 191) / 63;
      QuotientBelow(31 * (i - 191), 63, 31);
      SmallUChar(b);
    }
  }

  /** `gen_palette`: the loop that fills the palette, with its narrowing casts
      and its clamps. Neither ever changes a value: the result is exactly the
      ramp GenRamp, and so it is a fire palette. */
  method GenPalette() returns (pal: seq<Rgb>)
    ensures |pal| == PaletteSize
    ensures forall i :: 0 <= i < PaletteSize ==> pal[i] == GenRamp(i)
    ensures FirePalette(pal)
  {
    pal := [];
    var i := 0;
    while i < PaletteSize
      invariant 0 <= i <= PaletteSize
      invariant |pal| == i
      invariant forall k :: 0 <= k < i ==> pal[k] == GenRamp(k)
    {
      var n := PaletteSize - 1;
      assert n == 255 && n / 4 == 63 && 3 * n / 4 == 191;
      var r := ToUChar(31 * i / n);
      var g := if i > n / 4 then ToUChar(63 * (i - n / 4) / (3 * n / 4)) else 0;
      if g > 63 {
        g := 63;
      }
      var b := if i > 3 * n / 4 then ToUChar(31 * (i - 3 * n / 4) / (n / 4)) else 0;
      if b > 31 {
        b := 31;
      }
      GenEntry(i);
      assert Rgb(r, g, b) == GenRamp(i);
      pal := pal + [Rgb(r, g, b)];
      i := i + 1;
    }
    GenRampIsFirePalette();
    assert pal == seq(PaletteSize, i requires 0 <= i < PaletteSize => GenRamp(i));
  }
}
