/** The line and grid effects: kernels that darken some pixels of every block. */
module ScalerEffects {
  import opened ScalerSpec

  datatype Weight = TwoFifths | ThreeFifths | ThreeQuarters

  function Red(p: Pixel): nat { p / 0x800 }
  function Green(p: Pixel): nat { p / 0x20 % 0x40 }
  function Blue(p: Pixel): nat { p % 0x20 }

  /** The channels of RGB565: five, six and five bits that make up the pixel. */
  lemma ChannelsCompose(p: Pixel)
    ensures Red(p) < 32 && Green(p) < 64 && Blue(p) < 32
    ensures Red(p) * 2048 + Green(p) * 32 + Blue(p) == p
  {
  }

  lemma ChannelsUnique(r: nat, g: nat, b: nat, p: Pixel)
    requires r < 32 && g < 64 && b < 32 && p == r * 2048 + g * 32 + b
    ensures Red(p) == r && Green(p) == g && Blue(p) == b
  {
  }

  /** A channel value times the weight, rounded down. */
  function Portion(v: nat, wt: Weight): (q: nat)
    ensures q <= v
  {
    match wt
    case TwoFifths => v * 2 / 5
    case ThreeFifths => v * 3 / 5
    case ThreeQuarters => v * 3 / 4
  }

  /** Every channel of an RGB565 pixel scaled down. */
  function Darken(p: Pixel, wt: Weight): (q: Pixel) {
    Portion(Red(p), wt) * 0x800 + Portion(Green(p), wt) * 0x20 + Portion(Blue(p), wt)
  }

  /** The weight tables, in rows of 16. */
  const WEIGHT_2_5: seq<seq<nat>> :=
    [[0, 0, 0, 1, 1, 2, 2, 2, 3, 3, 4, 4, 4, 5, 5, 6],
     [6, 6, 7, 7, 8, 8, 8, 9, 9, 10, 10, 10, 11, 11, 12, 12],
     [12, 13, 13, 14, 14, 14, 15, 15, 16, 16, 16, 17, 17, 18, 18, 18],
     [19, 19, 20, 20, 20, 21, 21, 22, 22, 22, 23, 23, 24, 24, 24, 25]]

  const WEIGHT_3_5: seq<seq<nat>> :=
    [[0, 0, 1, 1, 2, 3, 3, 4, 4, 5, 6, 6, 7, 7, 8, 9],
     [9, 10, 10, 11, 12, 12, 13, 13, 14, 15, 15, 16, 16, 17, 18, 18],
     [19, 19, 20, 21, 21, 22, 22, 23, 24, 24, 25, 25, 26, 27, 27, 28],
     [28, 29, 30, 30, 31, 31, 32, 33, 33, 34, 34, 35, 36, 36, 37, 37]]

  const WEIGHT_3_4: seq<seq<nat>> :=
    [[0, 0, 1, 2, 3, 3, 4, 5, 6, 6, 7, 8, 9, 9, 10, 11],
     [12, 12, 13, 14, 15, 15, 16, 17, 18, 18, 19, 20, 21, 21, 22, 23],
     [24, 24, 25, 26, 27, 27, 28, 29, 30, 30, 31, 32, 33, 33, 34, 35],
     [36, 36, 37, 38, 39, 39, 40, 41, 42, 42, 43, 44, 45, 45, 46, 47]]

  function Entry(table: seq<seq<nat>>, v: nat): nat {
    if v / 16 < |table| && v % 16 < |table[v / 16]| then table[v / 16][v % 16] else 0
  }

  /** A hexadecimal digit, spelled out so that a table row is looked at entry by entry. */
  predicate Digit(c: nat) {
    || c == 0 || c == 1 || c == 2 || c == 3 || c == 4 || c == 5 || c == 6 || c == 7
    || c == 8 || c == 9 || c == 10 || c == 11 || c == 12 || c == 13 || c == 14 || c == 15
  }

  /** The tables hold the portion of every channel value 16 * r + c. */
  lemma Row25(r: nat, c: nat)
    requires r < 4 && Digit(c)
    ensures WEIGHT_2_5[r][c] == Portion(16 * r + c, TwoFifths)
  {
    if r == 0 {} else if r == 1 {} else if r == 2 {}
  }

  lemma Row35(r: nat, c: nat)
    requires r < 4 && Digit(c)
    ensures WEIGHT_3_5[r][c] == Portion(16 * r + c, ThreeFifths)
  {
    if r == 0 {} else if r == 1 {} else if r == 2 {}
  }

  lemma Row34(r: nat, c: nat)
    requires r < 4 && Digit(c)
    ensures WEIGHT_3_4[r][c] == Portion(16 * r + c, ThreeQuarters)
  {
    if r == 0 {} else if r == 1 {} else if r == 2 {}
  }

  /** A pixel put together from the table entries of its channels. */
  function Weighted(table: seq<seq<nat>>, p: Pixel): nat {
    Entry(table, Red(p)) * 0x800 + Entry(table, Green(p)) * 0x20 + Entry(table, Blue(p))
  }

  lemma WeightedDarkens(p: Pixel)
    ensures Weighted(WEIGHT_2_5, p) == Darken(p, TwoFifths)
    ensures Weighted(WEIGHT_3_5, p) == Darken(p, ThreeFifths)
    ensures Weighted(WEIGHT_3_4, p) == Darken(p, ThreeQuarters)
  {
    ChannelTables(Red(p));
    ChannelTables(Green(p));
    ChannelTables(Blue(p));
  }

  lemma ChannelTables(v: nat)
    requires v < 64
    ensures Entry(WEIGHT_2_5, v) == Portion(v, TwoFifths)
    ensures Entry(WEIGHT_3_5, v) == Portion(v, ThreeFifths)
    ensures Entry(WEIGHT_3_4, v) == Portion(v, ThreeQuarters)
  {
    assert v == 16 * (v / 16) + v % 16 && Digit(v % 16);
    Row25(v / 16, v % 16);
    Row35(v / 16, v % 16);
    Row34(v / 16, v % 16);
  }

  // ---------- the kernels ----------

  datatype Effect = Line2 | Line3 | Line4 | Grid2 | Grid3

  function Factor(e: Effect): (n: nat)
    ensures 2 <= n <= 4
  {
    match e
    case Line2 => 2 case Line3 => 3 case Line4 => 4 case Grid2 => 2 case Grid3 => 3
  }

  /** The shade at column `rx` and row `ry` of the block of a pixel. */
  function Shade(e: Effect, rx: nat, ry: nat, p: Pixel): Pixel {
    match e
    case Line2 => if ry == 1 then Darken(p, ThreeFifths) else p
    case Line3 => if ry == 0 then Darken(p, ThreeFifths) else p
    case Line4 => if ry == 1 || ry == 3 then Darken(p, ThreeFifths) else p
    case Grid2 => if rx == 1 && ry == 1 then p else Darken(p, ThreeQuarters)
    case Grid3 =>
      if ry < 2 then (if rx == 0 then Darken(p, ThreeFifths) else p)
      else if rx == 0 then Darken(p, TwoFifths) else Darken(p, ThreeFifths)
  }

  /** How much of its light each pixel of a block keeps, in percent. */
  function Percents(e: Effect): seq<seq<nat>> {
    match e
    case Line2 => [[100, 100], [60, 60]]
    case Line3 => [[60, 60, 60], [100, 100, 100], [100, 100, 100]]
    case Line4 => [[100, 100, 100, 100], [60, 60, 60, 60], [100, 100, 100, 100], [60, 60, 60, 60]]
    case Grid2 => [[75, 75], [75, 100]]
    case Grid3 => [[60, 100, 100], [60, 100, 100], [40, 60, 60]]
  }

  /** Every channel of every pixel of a block is the source's channel times the percentage, rounded down. */
  lemma ShadeExactly(e: Effect, rx: nat, ry: nat, p: Pixel)
    requires rx < Factor(e) && ry < Factor(e)
    ensures |Percents(e)| == Factor(e) && |Percents(e)[ry]| == Factor(e)
    ensures var q, n := Shade(e, rx, ry, p), Percents(e)[ry][rx];
            Red(q) == Red(p) * n / 100 && Green(q) == Green(p) * n / 100 && Blue(q) == Blue(p) * n / 100
  {
    DarkenChannels(p, TwoFifths);
    DarkenChannels(p, ThreeFifths);
    DarkenChannels(p, ThreeQuarters);
    PortionPercent(Red(p));
    PortionPercent(Green(p));
    PortionPercent(Blue(p));
  }

  lemma DarkenChannels(p: Pixel, wt: Weight)
    ensures var q := Darken(p, wt);
      Red(q) == Portion(Red(p), wt) && Green(q) == Portion(Green(p), wt) && Blue(q) == Portion(Blue(p), wt)
  {
    ChannelsCompose(p);
    ChannelsUnique(Portion(Red(p), wt), Portion(Green(p), wt), Portion(Blue(p), wt), Darken(p, wt));
  }

  lemma PortionPercent(v: nat)
    ensures Portion(v, TwoFifths) == v * 40 / 100 && Portion(v, ThreeFifths) == v * 60 / 100
    ensures Portion(v, ThreeQuarters) == v * 75 / 100 && v == v * 100 / 100
  {
  }

  function KernelOf(e: Effect): Kernel {
    Kernel(Factor(e), Factor(e), (rx, ry, p) => Shade(e, rx, ry, p))
  }

  /** The rows that the program stores for one source pixel. */
  method BlockRows(e: Effect, c1: Pixel) returns (rows: seq<seq<Pixel>>)
    ensures |rows| == Factor(e)
    ensures forall ry :: 0 <= ry < |rows| ==> |rows[ry]| == Factor(e)
    ensures forall ry, rx :: 0 <= ry < |rows| && 0 <= rx < Factor(e) ==> rows[ry][rx] == Shade(e, rx, ry, c1)
  {
    WeightedDarkens(c1);
    match e
    case Line2 =>
      var c2 := Weighted(WEIGHT_3_5, c1);
      rows := [[c1, c1], [c2, c2]];
    case Line3 =>
      var c2 := Weighted(WEIGHT_3_5, c1);
      rows := [[c2, c2, c2], [c1, c1, c1], [c1, c1, c1]];
    case Line4 =>
      var c2 := Weighted(WEIGHT_3_5, c1);
      rows := [[c1, c1, c1, c1], [c2, c2, c2, c2], [c1, c1, c1, c1], [c2, c2, c2, c2]];
    case Grid2 =>
      var c2 := Weighted(WEIGHT_3_4, c1);
      rows := [[c2, c2], [c2, c1]];
    case Grid3 =>
      var c2, c3 := Weighted(WEIGHT_3_5, c1), Weighted(WEIGHT_2_5, c1);
      rows := [[c2, c1, c1], [c2, c1, c1], [c3, c2, c2]];
  }

  lemma BlockOut(e: Effect, row: seq<Pixel>, ry: nat, src: seq<Pixel>, from: nat)
    requires |row| == Factor(e)
    requires forall rx :: 0 <= rx < Factor(e) ==> row[rx] == Shade(e, rx, ry, PixelAt(src, from))
    ensures OutRow(row, KernelOf(e), ry, src, from, 1)
  {
    assert Wide(KernelOf(e), 0) == 0 && Wide(KernelOf(e), 1) == Factor(e);
  }

  /** Stores the block of one source pixel, row by row. */
  method StorePixel(e: Effect, src: array<Pixel>, s: nat, dst: array<Pixel>, at: nat, ghost d: nat, dp: nat,
                    ghost sw: nat, x: nat,
                    ghost before: seq<Pixel>, ghost lines: seq<Line>, ghost done: seq<nat>, ghost p: nat)
    returns (ghost done': seq<nat>)
    requires src != dst && s + sw <= src.Length && x < sw
    requires Shows(before, dst[..], lines, done) && Band(lines, p, KernelOf(e), d, dp, src[..], s, sw)
    requires Level(lines, done, p, KernelOf(e), x) && at == d + Wide(KernelOf(e), x)
    modifies dst
    ensures Shows(before, dst[..], lines, done') && Level(lines, done', p, KernelOf(e), x + 1)
  {
    ghost var k := KernelOf(e);
    var rows := BlockRows(e, src[s + x]);
    done' := done;
    var to := at;
    for i := 0 to Factor(e)
      invariant Shows(before, dst[..], lines, done') && |done'| == |done| && to == Along(d, dp, i) + Wide(k, x)
      invariant forall r :: 0 <= r < |lines| ==> done'[r] == if p <= r < p + i then Wide(k, x + 1) else done[r]
    {
      assert BandLine(lines[p + i], k, i, d, dp, src[..], s, sw);
      BlockOut(e, rows[i], i, src[..], s + x);
      done' := StorePiece(dst, to, rows[i], k, i, src[..], s, sw, x, 1, before, lines, done', p + i);
      to := to + dp;
    }
  }

  method ScaleBand(e: Effect, src: array<Pixel>, s: nat, dst: array<Pixel>, d: nat, dp: nat, sw: nat,
                   ghost before: seq<Pixel>, ghost lines: seq<Line>, ghost done: seq<nat>, ghost p: nat)
    returns (ghost done': seq<nat>)
    requires src != dst && s + sw <= src.Length
    requires Shows(before, dst[..], lines, done) && DoneUpTo(lines, done, p)
    requires Band(lines, p, KernelOf(e), d, dp, src[..], s, sw)
    modifies dst
    ensures Shows(before, dst[..], lines, done') && DoneUpTo(lines, done', p + Factor(e))
  {
    ghost var k := KernelOf(e);
    var at := d;
    done' := done;
    for x := 0 to sw
      invariant Shows(before, dst[..], lines, done') && Level(lines, done', p, k, x) && at == d + Wide(k, x)
    {
      done' := StorePixel(e, src, s, dst, at, d, dp, sw, x, before, lines, done', p);
      at := at + Factor(e);
    }
    LevelDone(lines, done', p, k, d, dp, src[..], s, sw);
  }

  lemma RowPointers(at: nat, dp: nat, from: nat, sp: nat, n: nat, y: nat, p: nat)
    requires p == Along(0, n, y)
    ensures from + sp * y == Along(from, sp, y) && at + dp * (n * y) == Along(at, dp, p)
  {
    AlongIs(from, sp, y);
    AlongIs(0, n, y);
    AlongIs(at, dp, p);
  }

  /** scaleNx_line and scaleNx_grid for N from 2 on: every block shows its source pixel in the shades of
      the effect, and nothing outside the frame changes. */
  method ScaleFrame(e: Effect, src: array<Pixel>, sAt: nat, dst: array<Pixel>, dAt: nat,
                    sw: nat, sh: nat, sp: nat, dp: nat)
    requires src != dst && Fits(KernelOf(e), dAt, dp, dst.Length, sAt, sp, src.Length, sw, sh)
    modifies dst
    ensures IsFrame(KernelOf(e), old(dst[..]), dst[..], dAt, dp, src[..], sAt, sp, sw, sh)
  {
    ghost var k := KernelOf(e);
    ghost var before := dst[..];
    ghost var lines, done := StartFrame(k, before, dAt, dp, src[..], sAt, sp, sw, sh);
    done := ScaleAllBands(e, src, sAt, dst, dAt, sw, sh, sp, dp, before, lines, done);
    EndFrame(k, before, dst[..], lines, done, dAt, dp, src[..], sAt, sp, sw, sh);
  }

  method ScaleAllBands(e: Effect, src: array<Pixel>, sAt: nat, dst: array<Pixel>, dAt: nat, sw: nat, sh: nat, sp: nat, dp: nat,
      ghost before: seq<Pixel>, ghost lines: seq<Line>, ghost started: seq<nat>) returns (ghost done: seq<nat>)
    requires src != dst
    requires Ready(lines, KernelOf(e), dAt, dp, src[..], sAt, sp, sw, sh)
    requires BandsDone(KernelOf(e), before, dst[..], lines, started, 0)
    modifies dst
    ensures BandsDone(KernelOf(e), before, dst[..], lines, done, sh)
  {
    ghost var k := KernelOf(e);
    done := started;
    ghost var p := 0;
    for y := 0 to sh
      invariant p == RowNo(k, y, 0) && BandsDone(k, before, dst[..], lines, done, y)
    {
      var s, d := sAt + sp * y, dAt + dp * (Factor(e) * y);
      RowPointers(dAt, dp, sAt, sp, Factor(e), y, p);
      NextBand(lines, k, dAt, dp, src[..], sAt, sp, sw, sh, y, p, s, d);
      done := ScaleBand(e, src, s, dst, d, dp, sw, before, lines, done, p);
      p := p + Factor(e);
    }
  }
}
