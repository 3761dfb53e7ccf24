/** The NEON scalers: register programs that spread blocks of pixels, block and remainder loops,
    and the row stepping of the assembly, label by label. */
module ScalerNeon {
  import opened ScalerSpec
  import ScalerC

  /** A 64-bit register as four 16-bit lanes. */
  datatype D = D(l0: Pixel, l1: Pixel, l2: Pixel, l3: Pixel)

  function Lane(r: D, i: nat): Pixel {
    if i == 0 then r.l0 else if i == 1 then r.l1 else if i == 2 then r.l2 else r.l3
  }

  function LoadD(p: seq<Pixel>, i: nat): D
    requires i + 4 <= |p|
  {
    D(p[i], p[i + 1], p[i + 2], p[i + 3])
  }

  /** vdup.16: one lane in all four. */
  function Vdup(r: D, i: nat): D {
    D(Lane(r, i), Lane(r, i), Lane(r, i), Lane(r, i))
  }

  /** vext.16: four consecutive lanes of the pair (r, s), from lane i on. */
  function Vext(r: D, s: D, i: nat): D
    requires 1 <= i <= 3
  {
    if i == 1 then D(r.l1, r.l2, r.l3, s.l0)
    else if i == 2 then D(r.l2, r.l3, s.l0, s.l1)
    else D(r.l3, s.l0, s.l1, s.l2)
  }

  /** vstmia: the lanes of the first `m` registers, in order. */
  function LanesUpTo(regs: seq<D>, m: nat): (px: seq<Pixel>)
    requires m <= |regs|
    ensures |px| == 4 * m
    ensures forall j :: 0 <= j < m ==> px[4 * j..4 * j + 4] == [regs[j].l0, regs[j].l1, regs[j].l2, regs[j].l3]
  {
    if m == 0 then []
    else
      var init, r := LanesUpTo(regs, m - 1), regs[m - 1];
      var px := init + [r.l0, r.l1, r.l2, r.l3];
      assert forall j :: 0 <= j < m - 1 ==> px[4 * j..4 * j + 4] == init[4 * j..4 * j + 4];
      px
  }

  function LanesOf(regs: seq<D>): seq<Pixel> { LanesUpTo(regs, |regs|) }

  /** The source pixel that column i of a row spread n times shows. */
  function Origin(i: nat, n: nat): nat {
    if n == 0 || i < n then 0 else 1 + Origin(i - n, n)
  }

  /** Register j of a block of pixels spread n times. */
  function SpreadD(p: seq<Pixel>, n: nat, j: nat): D {
    D(PixelAt(p, Origin(4 * j, n)), PixelAt(p, Origin(4 * j + 1, n)),
      PixelAt(p, Origin(4 * j + 2, n)), PixelAt(p, Origin(4 * j + 3, n)))
  }

  /** The registers hold every pixel of `p`, each repeated `n` times. */
  predicate Spread(regs: seq<D>, p: seq<Pixel>, n: nat) {
    forall j :: 0 <= j < |regs| ==> regs[j] == SpreadD(p, n, j)
  }

  /** The same, by division. */
  function Quotient(i: nat, n: nat): nat {
    match n
    case 2 => i / 2
    case 3 => i / 3
    case 4 => i / 4
    case 5 => i / 5
    case _ => i / 6
  }

  function QuotientD(p: seq<Pixel>, n: nat, j: nat): D {
    D(PixelAt(p, Quotient(4 * j, n)), PixelAt(p, Quotient(4 * j + 1, n)),
      PixelAt(p, Quotient(4 * j + 2, n)), PixelAt(p, Quotient(4 * j + 3, n)))
  }

  predicate Quotients(regs: seq<D>, p: seq<Pixel>, n: nat) {
    forall j :: 0 <= j < |regs| ==> regs[j] == QuotientD(p, n, j)
  }

  lemma {:induction false} QuotientIsOrigin(i: nat, n: nat)
    requires 2 <= n <= 6
    ensures Quotient(i, n) == Origin(i, n)
    decreases i
  {
    if i >= n { QuotientIsOrigin(i - n, n); }
  }

  lemma QuotientsSpread(regs: seq<D>, p: seq<Pixel>, n: nat)
    requires 2 <= n <= 6 && Quotients(regs, p, n)
    ensures Spread(regs, p, n)
  {
    forall j | 0 <= j < |regs| ensures regs[j] == SpreadD(p, n, j) {
      QuotientIsOrigin(4 * j, n);
      QuotientIsOrigin(4 * j + 1, n);
      QuotientIsOrigin(4 * j + 2, n);
      QuotientIsOrigin(4 * j + 3, n);
    }
  }

  /** 32 pixels at a time, twice as wide: label 2 of scale2x2_n16. */
  method Double32(p: seq<Pixel>) returns (regs: seq<D>)
    requires |p| == 32
    ensures |regs| == 16 && Quotients(regs, p, 2)
  {
    var d16, d17, d18, d19, d20, d21, d22, d23 := LoadD(p, 0), LoadD(p, 4), LoadD(p, 8), LoadD(p, 12), LoadD(p, 16), LoadD(p, 20), LoadD(p, 24), LoadD(p, 28);
    var d0, d1, d24, d25, d26, d27, d28, d29, d30, d31;
    d0 := Vdup(d23, 3); d1 := Vdup(d23, 2); d31 := Vext(d1, d0, 2);
    assert d31 == QuotientD(p, 2, 15);
    d0 := Vdup(d23, 1); d1 := Vdup(d23, 0); d30 := Vext(d1, d0, 2);
    assert d30 == QuotientD(p, 2, 14);
    d0 := Vdup(d22, 3); d1 := Vdup(d22, 2); d29 := Vext(d1, d0, 2);
    assert d29 == QuotientD(p, 2, 13);
    d0 := Vdup(d22, 1); d1 := Vdup(d22, 0); d28 := Vext(d1, d0, 2);
    assert d28 == QuotientD(p, 2, 12);
    d0 := Vdup(d21, 3); d1 := Vdup(d21, 2); d27 := Vext(d1, d0, 2);
    assert d27 == QuotientD(p, 2, 11);
    d0 := Vdup(d21, 1); d1 := Vdup(d21, 0); d26 := Vext(d1, d0, 2);
    assert d26 == QuotientD(p, 2, 10);
    d0 := Vdup(d20, 3); d1 := Vdup(d20, 2); d25 := Vext(d1, d0, 2);
    assert d25 == QuotientD(p, 2, 9);
    d0 := Vdup(d20, 1); d1 := Vdup(d20, 0); d24 := Vext(d1, d0, 2);
    assert d24 == QuotientD(p, 2, 8);
    d0 := Vdup(d19, 3); d1 := Vdup(d19, 2); d23 := Vext(d1, d0, 2);
    assert d23 == QuotientD(p, 2, 7);
    d0 := Vdup(d19, 1); d1 := Vdup(d19, 0); d22 := Vext(d1, d0, 2);
    assert d22 == QuotientD(p, 2, 6);
    d0 := Vdup(d18, 3); d1 := Vdup(d18, 2); d21 := Vext(d1, d0, 2);
    assert d21 == QuotientD(p, 2, 5);
    d0 := Vdup(d18, 1); d1 := Vdup(d18, 0); d20 := Vext(d1, d0, 2);
    assert d20 == QuotientD(p, 2, 4);
    d0 := Vdup(d17, 3); d1 := Vdup(d17, 2); d19 := Vext(d1, d0, 2);
    assert d19 == QuotientD(p, 2, 3);
    d0 := Vdup(d17, 1); d1 := Vdup(d17, 0); d18 := Vext(d1, d0, 2);
    assert d18 == QuotientD(p, 2, 2);
    d0 := Vdup(d16, 3); d1 := Vdup(d16, 2); d17 := Vext(d1, d0, 2);
    assert d17 == QuotientD(p, 2, 1);
    d0 := Vdup(d16, 1); d1 := Vdup(d16, 0); d16 := Vext(d1, d0, 2);
    assert d16 == QuotientD(p, 2, 0);
    regs := [d16, d17, d18, d19, d20, d21, d22, d23, d24, d25, d26, d27, d28, d29, d30, d31];
  }

  /** 16 pixels at a time, twice as wide: the remainder block of scale2x2_n16. */
  method Double16(p: seq<Pixel>) returns (regs: seq<D>)
    requires |p| == 16
    ensures |regs| == 8 && Quotients(regs, p, 2)
  {
    var d16, d17, d18, d19 := LoadD(p, 0), LoadD(p, 4), LoadD(p, 8), LoadD(p, 12);
    var d0, d1, d20, d21, d22, d23;
    d0 := Vdup(d19, 3); d1 := Vdup(d19, 2); d23 := Vext(d1, d0, 2);
    assert d23 == QuotientD(p, 2, 7);
    d0 := Vdup(d19, 1); d1 := Vdup(d19, 0); d22 := Vext(d1, d0, 2);
    assert d22 == QuotientD(p, 2, 6);
    d0 := Vdup(d18, 3); d1 := Vdup(d18, 2); d21 := Vext(d1, d0, 2);
    assert d21 == QuotientD(p, 2, 5);
    d0 := Vdup(d18, 1); d1 := Vdup(d18, 0); d20 := Vext(d1, d0, 2);
    assert d20 == QuotientD(p, 2, 4);
    d0 := Vdup(d17, 3); d1 := Vdup(d17, 2); d19 := Vext(d1, d0, 2);
    assert d19 == QuotientD(p, 2, 3);
    d0 := Vdup(d17, 1); d1 := Vdup(d17, 0); d18 := Vext(d1, d0, 2);
    assert d18 == QuotientD(p, 2, 2);
    d0 := Vdup(d16, 3); d1 := Vdup(d16, 2); d17 := Vext(d1, d0, 2);
    assert d17 == QuotientD(p, 2, 1);
    d0 := Vdup(d16, 1); d1 := Vdup(d16, 0); d16 := Vext(d1, d0, 2);
    assert d16 == QuotientD(p, 2, 0);
    regs := [d16, d17, d18, d19, d20, d21, d22, d23];
  }

  /** 16 pixels at a time, three times as wide: label 2 of scale3x3_n16. */
  method Triple16(p: seq<Pixel>) returns (regs: seq<D>)
    requires |p| == 16
    ensures |regs| == 12 && Quotients(regs, p, 3)
  {
    var d16, d17, d18, d19 := LoadD(p, 0), LoadD(p, 4), LoadD(p, 8), LoadD(p, 12);
    var d20, d21, d22, d23, d24, d25, d26, d27, d28, d29, d30, d31;
    d31 := Vdup(d19, 3); d30 := Vdup(d19, 2); d29 := Vdup(d19, 1); d28 := Vdup(d19, 0); d27 := Vext(d30, d31, 3);
    assert d27 == QuotientD(p, 3, 11);
    d26 := Vext(d29, d30, 2);
    assert d26 == QuotientD(p, 3, 10);
    d25 := Vext(d28, d29, 1);
    assert d25 == QuotientD(p, 3, 9);
    d31 := Vdup(d18, 3); d30 := Vdup(d18, 2); d29 := Vdup(d18, 1); d28 := Vdup(d18, 0); d24 := Vext(d30, d31, 3);
    assert d24 == QuotientD(p, 3, 8);
    d23 := Vext(d29, d30, 2);
    assert d23 == QuotientD(p, 3, 7);
    d22 := Vext(d28, d29, 1);
    assert d22 == QuotientD(p, 3, 6);
    d31 := Vdup(d17, 3); d30 := Vdup(d17, 2); d29 := Vdup(d17, 1); d28 := Vdup(d17, 0); d21 := Vext(d30, d31, 3);
    assert d21 == QuotientD(p, 3, 5);
    d20 := Vext(d29, d30, 2);
    assert d20 == QuotientD(p, 3, 4);
    d19 := Vext(d28, d29, 1);
    assert d19 == QuotientD(p, 3, 3);
    d31 := Vdup(d16, 3); d30 := Vdup(d16, 2); d29 := Vdup(d16, 1); d28 := Vdup(d16, 0); d18 := Vext(d30, d31, 3);
    assert d18 == QuotientD(p, 3, 2);
    d17 := Vext(d29, d30, 2);
    assert d17 == QuotientD(p, 3, 1);
    d16 := Vext(d28, d29, 1);
    assert d16 == QuotientD(p, 3, 0);
    regs := [d16, d17, d18, d19, d20, d21, d22, d23, d24, d25, d26, d27];
  }

  /** 16 pixels at a time, four times as wide: label 2 of scale4x4_n16. */
  method Quadruple16(p: seq<Pixel>) returns (regs: seq<D>)
    requires |p| == 16
    ensures |regs| == 16 && Quotients(regs, p, 4)
  {
    var d16, d17, d18, d19 := LoadD(p, 0), LoadD(p, 4), LoadD(p, 8), LoadD(p, 12);
    var d20, d21, d22, d23, d24, d25, d26, d27, d28, d29, d30, d31;
    d31 := Vdup(d19, 3);
    assert d31 == QuotientD(p, 4, 15);
    d30 := Vdup(d19, 2);
    assert d30 == QuotientD(p, 4, 14);
    d29 := Vdup(d19, 1);
    assert d29 == QuotientD(p, 4, 13);
    d28 := Vdup(d19, 0);
    assert d28 == QuotientD(p, 4, 12);
    d27 := Vdup(d18, 3);
    assert d27 == QuotientD(p, 4, 11);
    d26 := Vdup(d18, 2);
    assert d26 == QuotientD(p, 4, 10);
    d25 := Vdup(d18, 1);
    assert d25 == QuotientD(p, 4, 9);
    d24 := Vdup(d18, 0);
    assert d24 == QuotientD(p, 4, 8);
    d23 := Vdup(d17, 3);
    assert d23 == QuotientD(p, 4, 7);
    d22 := Vdup(d17, 2);
    assert d22 == QuotientD(p, 4, 6);
    d21 := Vdup(d17, 1);
    assert d21 == QuotientD(p, 4, 5);
    d20 := Vdup(d17, 0);
    assert d20 == QuotientD(p, 4, 4);
    d19 := Vdup(d16, 3);
    assert d19 == QuotientD(p, 4, 3);
    d18 := Vdup(d16, 2);
    assert d18 == QuotientD(p, 4, 2);
    d17 := Vdup(d16, 1);
    assert d17 == QuotientD(p, 4, 1);
    d16 := Vdup(d16, 0);
    assert d16 == QuotientD(p, 4, 0);
    regs := [d16, d17, d18, d19, d20, d21, d22, d23, d24, d25, d26, d27, d28, d29, d30, d31];
  }

  /** 8 pixels at a time, five times as wide: label 1 of scale5x_n16line. */
  method Quintuple8(p: seq<Pixel>) returns (regs: seq<D>)
    requires |p| == 8
    ensures |regs| == 10 && Quotients(regs, p, 5)
  {
    var d16, d17 := LoadD(p, 0), LoadD(p, 4);
    var d18, d19, d20, d21, d22, d23, d24, d25, d26, d27;
    d25 := Vdup(d17, 3);
    assert d25 == QuotientD(p, 5, 9);
    d27 := Vdup(d17, 2); d26 := Vdup(d17, 1); d21 := Vdup(d17, 0);
    assert d21 == QuotientD(p, 5, 5);
    d24 := Vext(d27, d25, 1);
    assert d24 == QuotientD(p, 5, 8);
    d23 := Vext(d26, d27, 2);
    assert d23 == QuotientD(p, 5, 7);
    d22 := Vext(d21, d26, 3);
    assert d22 == QuotientD(p, 5, 6);
    d20 := Vdup(d16, 3);
    assert d20 == QuotientD(p, 5, 4);
    d27 := Vdup(d16, 2); d26 := Vdup(d16, 1); d16 := Vdup(d16, 0);
    assert d16 == QuotientD(p, 5, 0);
    d19 := Vext(d27, d20, 1);
    assert d19 == QuotientD(p, 5, 3);
    d18 := Vext(d26, d27, 2);
    assert d18 == QuotientD(p, 5, 2);
    d17 := Vext(d16, d26, 3);
    assert d17 == QuotientD(p, 5, 1);
    regs := [d16, d17, d18, d19, d20, d21, d22, d23, d24, d25];
  }

  /** 8 pixels at a time, six times as wide: label 1 of scale6x_n16line. */
  method Sextuple8(p: seq<Pixel>) returns (regs: seq<D>)
    requires |p| == 8
    ensures |regs| == 12 && Quotients(regs, p, 6)
  {
    var d16, d17 := LoadD(p, 0), LoadD(p, 4);
    var d18, d19, d20, d21, d22, d23, d24, d25, d26, d27;
    d27 := Vdup(d17, 3);
    assert d27 == QuotientD(p, 6, 11);
    d25 := Vdup(d17, 2);
    assert d25 == QuotientD(p, 6, 9);
    d24 := Vdup(d17, 1);
    assert d24 == QuotientD(p, 6, 8);
    d22 := Vdup(d17, 0);
    assert d22 == QuotientD(p, 6, 6);
    d26 := Vext(d25, d27, 2);
    assert d26 == QuotientD(p, 6, 10);
    d23 := Vext(d22, d24, 2);
    assert d23 == QuotientD(p, 6, 7);
    d21 := Vdup(d16, 3);
    assert d21 == QuotientD(p, 6, 5);
    d19 := Vdup(d16, 2);
    assert d19 == QuotientD(p, 6, 3);
    d18 := Vdup(d16, 1);
    assert d18 == QuotientD(p, 6, 2);
    d16 := Vdup(d16, 0);
    assert d16 == QuotientD(p, 6, 0);
    d20 := Vext(d19, d21, 2);
    assert d20 == QuotientD(p, 6, 4);
    d17 := Vext(d16, d18, 2);
    assert d17 == QuotientD(p, 6, 1);
    regs := [d16, d17, d18, d19, d20, d21, d22, d23, d24, d25, d26, d27];
  }

  // ---------- from registers to output rows ----------

  /** What a spread block stores is the output of its source pixels. */
  lemma SpreadOut(regs: seq<D>, p: seq<Pixel>, n: nat, h: nat, ry: nat, src: seq<Pixel>, from: nat)
    requires 2 <= n <= 6 && Spread(regs, p, n) && 4 * |regs| == Along(0, n, |p|)
    requires from + |p| <= |src| && p == src[from..from + |p|]
    ensures OutRow(LanesOf(regs), Plain(n, h), ry, src, from, |p|)
  {
    var k, px := Plain(n, h), LanesOf(regs);
    forall x, rx | 0 <= x < |p| && 0 <= rx < n
      ensures Column(px, k, x, rx) == k.shade(rx, ry, PixelAt(src, from + x))
    {
      SpreadColumn(regs, p, n, x, rx);
      assert PixelAt(p, x) == PixelAt(src, from + x) by { assert p[x] == src[from + x]; }
    }
  }

  lemma SpreadColumn(regs: seq<D>, p: seq<Pixel>, n: nat, x: nat, rx: nat)
    requires Spread(regs, p, n) && 4 * |regs| == Along(0, n, |p|) && x < |p| && rx < n
    ensures PixelAt(LanesOf(regs), Along(0, n, x) + rx) == PixelAt(p, x)
  {
    OriginOf(n, x, rx);
    AlongMono(0, n, x + 1, |p|);
    SpreadLane(regs, p, n, Along(0, n, x) + rx);
  }

  lemma SpreadLane(regs: seq<D>, p: seq<Pixel>, n: nat, c: nat)
    requires Spread(regs, p, n) && c < 4 * |regs|
    ensures LanesOf(regs)[c] == PixelAt(p, Origin(c, n))
  {
    var j := c / 4;
    assert regs[j] == SpreadD(p, n, j);
    LanesAt(regs, j, c - 4 * j);
    SpreadDLane(p, n, j, c - 4 * j);
  }

  lemma LanesAt(regs: seq<D>, j: nat, l: nat)
    requires j < |regs| && l < 4
    ensures LanesOf(regs)[4 * j + l] == Lane(regs[j], l)
  {
    assert LanesOf(regs)[4 * j + l] == LanesOf(regs)[4 * j..4 * j + 4][l];
  }

  lemma SpreadDLane(p: seq<Pixel>, n: nat, j: nat, l: nat)
    requires l < 4
    ensures Lane(SpreadD(p, n, j), l) == PixelAt(p, Origin(4 * j + l, n))
  {
  }

  lemma {:induction false} OriginOf(n: nat, x: nat, rx: nat)
    requires rx < n
    ensures Origin(Along(0, n, x) + rx, n) == x
    decreases x
  {
    if x > 0 { OriginOf(n, x - 1, rx); }
  }

  /** A single remaining pixel: the doubled word stored whole or by its low half, and for 4x and 6x spread
      over a register first. */
  function RestPixels(n: nat, p: Pixel): (px: seq<Pixel>)
    requires 2 <= n <= 6
    ensures |px| == n && forall i :: 0 <= i < n ==> px[i] == p
  {
    match n
    case 2 => ScalerC.TwiceStored(p, 1)
    case 3 => ScalerC.TwiceStored(p, 1) + ScalerC.HalfStored(p)
    case 4 => [p, p, p, p]
    case 5 => ScalerC.TwiceStored(p, 2) + ScalerC.HalfStored(p)
    case _ => ScalerC.TwiceStored(p, 2) + ScalerC.TwiceStored(p, 1)
  }

  lemma RestOut(n: nat, h: nat, ry: nat, src: seq<Pixel>, from: nat)
    requires 2 <= n <= 6 && from < |src|
    ensures OutRow(RestPixels(n, src[from]), Plain(n, h), ry, src, from, 1)
  {
    ScalerC.CopiesOut(RestPixels(n, src[from]), n, h, ry, src, from);
  }

  // ---------- rows written together ----------

  /** Stores one piece in all rows of the band: vstmia to %1, r9, r10 and r11. */
  method StoreRows(dst: array<Pixel>, at: nat, dp: nat, run: seq<Pixel>,
                   ghost k: Kernel, ghost src: seq<Pixel>, ghost s: nat, ghost sw: nat, ghost x: nat, ghost n: nat, ghost d: nat,
                   h: nat, ghost before: seq<Pixel>, ghost lines: seq<Line>, ghost done: seq<nat>, ghost p: nat)
    returns (ghost done': seq<nat>)
    requires k.h == h && k.shade == Same && Shows(before, dst[..], lines, done)
    requires Band(lines, p, k, d, dp, src, s, sw) && Level(lines, done, p, k, x)
    requires x + n <= sw && at == d + Wide(k, x) && OutRow(run, k, 0, src, s + x, n)
    modifies dst
    ensures Shows(before, dst[..], lines, done') && Level(lines, done', p, k, x + n)
  {
    done' := done;
    var to := at;
    for i := 0 to h
      invariant Shows(before, dst[..], lines, done') && |done'| == |done| && to == Along(d, dp, i) + Wide(k, x)
      invariant forall r :: 0 <= r < |lines| ==> done'[r] == if p <= r < p + i then Wide(k, x + n) else done[r]
    {
      assert BandLine(lines[p + i], k, i, d, dp, src, s, sw);
      done' := StorePiece(dst, to, run, k, i, src, s, sw, x, n, before, lines, done', p + i);
      to := to + dp;
    }
  }

  predicate BlockSize(n: nat, size: nat) {
    (n == 2 && (size == 32 || size == 16)) || ((n == 3 || n == 4) && size == 16) || ((n == 5 || n == 6) && size == 8)
  }

  /** Runs the register program for a block of pixels. */
  method SpreadPixels(n: nat, p: seq<Pixel>) returns (regs: seq<D>)
    requires BlockSize(n, |p|)
    ensures 4 * |regs| == n * |p| && Quotients(regs, p, n)
  {
    if n == 2 {
      if |p| == 32 { regs := Double32(p); } else { regs := Double16(p); }
    } else if n == 3 {
      regs := Triple16(p);
    } else if n == 4 {
      regs := Quadruple16(p);
    } else if n == 5 {
      regs := Quintuple8(p);
    } else {
      regs := Sextuple8(p);
    }
  }

  method SpreadBlock(n: nat, size: nat, src: array<Pixel>, from: nat, ghost h: nat) returns (px: seq<Pixel>)
    requires BlockSize(n, size) && from + size <= src.Length
    ensures OutRow(px, Plain(n, h), 0, src[..], from, size)
  {
    var p := src[from..from + size];
    var regs := SpreadPixels(n, p);
    AlongIs(0, n, size);
    QuotientsSpread(regs, p, n);
    SpreadOut(regs, p, n, h, 0, src[..], from);
    px := LanesOf(regs);
  }

  /** Labels 1 to 4 of scale2x2_n16, scale3x3_n16 and scale4x4_n16: one source row to n rows. */
  method ScaleBand(n: nat, src: array<Pixel>, s: nat, dst: array<Pixel>, d: nat, dp: nat, sw: nat,
                   ghost before: seq<Pixel>, ghost lines: seq<Line>, ghost done: seq<nat>, ghost p: nat)
    returns (ghost done': seq<nat>)
    requires 2 <= n <= 4 && src != dst && s + sw <= src.Length
    requires Shows(before, dst[..], lines, done) && DoneUpTo(lines, done, p)
    requires Band(lines, p, Plain(n, n), d, dp, src[..], s, sw)
    modifies dst
    ensures Shows(before, dst[..], lines, done') && DoneUpTo(lines, done', p + n)
  {
    var x, at;
    x, at, done' := WholeBlocks(n, src, s, dst, d, dp, sw, before, lines, done, p);
    if x != sw {
      done' := FinishBand(n, src, s, dst, at, d, dp, sw, x, before, lines, done', p);
    }
    LevelDone(lines, done', p, Plain(n, n), d, dp, src[..], s, sw);
  }

  /** Label 2: blocks of 32 pixels for 2x, of 16 for 3x and 4x. */
  method WholeBlocks(n: nat, src: array<Pixel>, s: nat, dst: array<Pixel>, d: nat, dp: nat, sw: nat,
                     ghost before: seq<Pixel>, ghost lines: seq<Line>, ghost done: seq<nat>, ghost p: nat)
    returns (x: nat, at: nat, ghost done': seq<nat>)
    requires 2 <= n <= 4 && src != dst && s + sw <= src.Length
    requires Shows(before, dst[..], lines, done) && DoneUpTo(lines, done, p)
    requires Band(lines, p, Plain(n, n), d, dp, src[..], s, sw)
    modifies dst
    ensures x == (if n == 2 then sw / 32 * 32 else sw / 16 * 16) <= sw && at == d + Wide(Plain(n, n), x)
    ensures Shows(before, dst[..], lines, done') && Level(lines, done', p, Plain(n, n), x)
  {
    var block := if n == 2 then 32 else 16;
    var limit := if n == 2 then sw / 32 * 32 else sw / 16 * 16;
    x, at, done' := 0, d, done;
    while x != limit
      invariant 0 <= x <= limit && at == d + Wide(Plain(n, n), x)
      invariant if n == 2 then x % 32 == 0 else x % 16 == 0
      invariant Shows(before, dst[..], lines, done') && Level(lines, done', p, Plain(n, n), x)
      decreases limit - x
    {
      x, at, done' := StoreBlock(n, block, src, s, dst, at, d, dp, sw, x, before, lines, done', p);
    }
  }

  /** Labels 3 and 4: what is left after the whole blocks. */
  method FinishBand(n: nat, src: array<Pixel>, s: nat, dst: array<Pixel>, start: nat, ghost d: nat, dp: nat, sw: nat, from: nat,
                    ghost before: seq<Pixel>, ghost lines: seq<Line>, ghost done: seq<nat>, ghost p: nat)
    returns (ghost done': seq<nat>)
    requires 2 <= n <= 4 && src != dst && s + sw <= src.Length && from < sw
    requires n == 2 ==> from == sw / 32 * 32
    requires Shows(before, dst[..], lines, done) && Band(lines, p, Plain(n, n), d, dp, src[..], s, sw)
    requires Level(lines, done, p, Plain(n, n), from) && start == d + Wide(Plain(n, n), from)
    modifies dst
    ensures Shows(before, dst[..], lines, done') && Level(lines, done', p, Plain(n, n), sw)
  {
    var x, at := from, start;
    done' := done;
    if n == 2 && sw / 16 % 2 == 1 {
      x, at, done' := StoreBlock(n, 16, src, s, dst, at, d, dp, sw, x, before, lines, done', p);
    }
    while x != sw
      invariant 0 <= x <= sw && at == d + Wide(Plain(n, n), x)
      invariant Shows(before, dst[..], lines, done') && Level(lines, done', p, Plain(n, n), x)
      decreases sw - x
    {
      x, at, done' := StoreRest(n, src, s, dst, at, d, dp, sw, x, before, lines, done', p);
    }
  }

  method StoreBlock(n: nat, size: nat, src: array<Pixel>, s: nat, dst: array<Pixel>, at: nat, ghost d: nat, dp: nat,
                    ghost sw: nat, x: nat,
                    ghost before: seq<Pixel>, ghost lines: seq<Line>, ghost done: seq<nat>, ghost p: nat)
    returns (x': nat, at': nat, ghost done': seq<nat>)
    requires BlockSize(n, size) && n <= 4
    requires src != dst && s + sw <= src.Length && x + size <= sw
    requires Shows(before, dst[..], lines, done) && Band(lines, p, Plain(n, n), d, dp, src[..], s, sw)
    requires Level(lines, done, p, Plain(n, n), x) && at == d + Wide(Plain(n, n), x)
    modifies dst
    ensures x' == x + size && at' == d + Wide(Plain(n, n), x')
    ensures Shows(before, dst[..], lines, done') && Level(lines, done', p, Plain(n, n), x')
  {
    var px := SpreadBlock(n, size, src, s + x, n);
    done' := StoreRows(dst, at, dp, px, Plain(n, n), src[..], s, sw, x, size, d, n, before, lines, done, p);
    AlongAdd(0, n, x, size);
    x', at' := x + size, at + |px|;
  }

  method StoreRest(n: nat, src: array<Pixel>, s: nat, dst: array<Pixel>, at: nat, ghost d: nat, dp: nat,
                   ghost sw: nat, x: nat,
                   ghost before: seq<Pixel>, ghost lines: seq<Line>, ghost done: seq<nat>, ghost p: nat)
    returns (x': nat, at': nat, ghost done': seq<nat>)
    requires 2 <= n <= 4 && src != dst && s + sw <= src.Length && x < sw
    requires Shows(before, dst[..], lines, done) && Band(lines, p, Plain(n, n), d, dp, src[..], s, sw)
    requires Level(lines, done, p, Plain(n, n), x) && at == d + Wide(Plain(n, n), x)
    modifies dst
    ensures x' == x + 1 && at' == d + Wide(Plain(n, n), x')
    ensures Shows(before, dst[..], lines, done') && Level(lines, done', p, Plain(n, n), x')
  {
    var px := RestPixels(n, src[s + x]);
    RestOut(n, n, 0, src[..], s + x);
    done' := StoreRows(dst, at, dp, px, Plain(n, n), src[..], s, sw, x, 1, d, n, before, lines, done, p);
    x', at' := x + 1, at + |px|;
  }

  /** Label 5: the pointers step to the next source row and the next band until `finofs`. */
  method ScaleRows(n: nat, src: array<Pixel>, sAt: nat, dst: array<Pixel>, dAt: nat, sw: nat, sh: nat, sp: nat, dp: nat)
    requires 2 <= n <= 4 && src != dst && sw > 0 && sh > 0 && sp > 0
    requires Fits(Plain(n, n), dAt, dp, dst.Length, sAt, sp, src.Length, sw, sh)
    modifies dst
    ensures IsFrame(Plain(n, n), old(dst[..]), dst[..], dAt, dp, src[..], sAt, sp, sw, sh)
  {
    ghost var k := Plain(n, n);
    ghost var before := dst[..];
    ghost var lines, done := StartFrame(k, before, dAt, dp, src[..], sAt, sp, sw, sh);
    done := ScaleAllRows(n, src, sAt, dst, dAt, sw, sh, sp, dp, before, lines, done);
    EndFrame(k, before, dst[..], lines, done, dAt, dp, src[..], sAt, sp, sw, sh);
  }

  method ScaleAllRows(n: nat, src: array<Pixel>, sAt: nat, dst: array<Pixel>, dAt: nat, sw: nat, sh: nat, sp: nat, dp: nat,
      ghost before: seq<Pixel>, ghost lines: seq<Line>, ghost started: seq<nat>) returns (ghost done: seq<nat>)
    requires 2 <= n <= 4 && src != dst && sw > 0 && sh > 0 && sp > 0
    requires Ready(lines, Plain(n, n), dAt, dp, src[..], sAt, sp, sw, sh)
    requires BandsDone(Plain(n, n), before, dst[..], lines, started, 0)
    modifies dst
    ensures BandsDone(Plain(n, n), before, dst[..], lines, done, sh)
  {
    done := started;
    AlongIs(sAt, sp, sh);
    var s, d, fin := sAt, dAt, sAt + sp * sh;
    ghost var y := 0;
    while s != fin
      invariant 0 <= y <= sh && BandsDone(Plain(n, n), before, dst[..], lines, done, y)
      invariant s == Along(sAt, sp, y) && d == Along(dAt, dp, RowNo(Plain(n, n), y, 0)) && fin == Along(sAt, sp, sh)
      decreases sh - y
    {
      d, done := ScaleRowAt(n, src, sAt, s, dst, dAt, d, sw, sh, sp, dp, y, before, lines, done);
      s := s + sw + (sp - sw);
      y := y + 1;
    }
    assert y == sh by { if y < sh { AlongStrict(sAt, sp, y, sh); } }
  }

  method ScaleRowAt(n: nat, src: array<Pixel>, ghost sAt: nat, s: nat, dst: array<Pixel>, ghost dAt: nat, d: nat,
      sw: nat, ghost sh: nat, ghost sp: nat, dp: nat, ghost y: nat,
      ghost before: seq<Pixel>, ghost lines: seq<Line>, ghost done: seq<nat>) returns (d': nat, ghost done': seq<nat>)
    requires 2 <= n <= 4 && src != dst && y < sh
    requires Ready(lines, Plain(n, n), dAt, dp, src[..], sAt, sp, sw, sh)
    requires BandsDone(Plain(n, n), before, dst[..], lines, done, y)
    requires s == Along(sAt, sp, y) && d == Along(dAt, dp, RowNo(Plain(n, n), y, 0))
    modifies dst
    ensures BandsDone(Plain(n, n), before, dst[..], lines, done', y + 1)
    ensures d' == Along(dAt, dp, RowNo(Plain(n, n), y + 1, 0))
  {
    ghost var p := RowNo(Plain(n, n), y, 0);
    NextBand(lines, Plain(n, n), dAt, dp, src[..], sAt, sp, sw, sh, y, p, s, d);
    done' := ScaleBand(n, src, s, dst, d, dp, sw, before, lines, done, p);
    StepDown(d, dp, sw, n);
    d' := d + sw * n + (dp * n - sw * n);
  }

  lemma StepDown(d: nat, dp: nat, sw: nat, n: nat)
    ensures d + sw * n + (dp * n - sw * n) == Along(d, dp, n)
  {
    AlongIs(d, dp, n);
  }

  lemma AlongStrict(at: nat, n: nat, a: nat, b: nat)
    requires a < b && n > 0
    ensures Along(at, n, a) < Along(at, n, b)
  {
    AlongMono(at, n, a + 1, b);
  }

  // ---------- memcpy_neon ----------

  /** The pixels that line `r` still needs are at `s` in `mem`: in another buffer, or in an equal
      line of the same one that is already complete. */
  ghost predicate Supplies(mem: array<Pixel>, s: nat, dst: array<Pixel>, m: nat,
                           lines: seq<Line>, done: seq<nat>, r: nat, q: nat)
    reads mem
  {
    && r < |lines| == |done| && m == |lines[r].px| && s + m <= mem.Length
    && (mem != dst ==> forall c :: 0 <= c < m ==> mem[s + c] == lines[r].px[c])
    && (mem == dst ==> q < |lines| && q != r && lines[q].at == s && lines[q].px == lines[r].px && done[q] == m)
  }

  /** One load and store of `n` pixels. */
  method CopyChunk(mem: array<Pixel>, s: nat, dst: array<Pixel>, d: nat, x: nat, n: nat, ghost m: nat,
                   ghost before: seq<Pixel>, ghost lines: seq<Line>, ghost done: seq<nat>, ghost r: nat, ghost q: nat)
    returns (x': nat, ghost done': seq<nat>)
    requires Shows(before, dst[..], lines, done) && Supplies(mem, s, dst, m, lines, done, r, q)
    requires done[r] == x && x + n <= m && d == lines[r].at
    modifies dst
    ensures x' == x + n && done' == done[r := x'] && Shows(before, dst[..], lines, done')
    ensures Supplies(mem, s, dst, m, lines, done', r, q)
  {
    var run := mem[s + x..s + x + n];
    assert forall c :: 0 <= c < n ==> run[c] == mem[s + (x + c)];
    if mem == dst {
      assert forall c :: 0 <= c < m ==> dst[..][lines[q].at + c] == lines[q].px[c];
    }
    done' := Store(dst, d + x, run, before, lines, done, r);
    x' := x + n;
  }

  /** memcpy_neon: blocks of 128 bytes, then one block for each set bit of the rest of the size, then
      halfwords. It ends for every even size, 0 included, having copied exactly that much. */
  method MemcpyNeon(mem: array<Pixel>, s: nat, dst: array<Pixel>, d: nat, m: nat,
                    ghost before: seq<Pixel>, ghost lines: seq<Line>, ghost done: seq<nat>, ghost r: nat, ghost q: nat)
    returns (ghost done': seq<nat>)
    requires Shows(before, dst[..], lines, done) && Supplies(mem, s, dst, m, lines, done, r, q)
    requires done[r] == 0 && d == lines[r].at
    modifies dst
    ensures done' == done[r := m] && Shows(before, dst[..], lines, done')
  {
    var x := 0;
    done' := done;
    while x != m / 64 * 64
      invariant 0 <= x <= m / 64 * 64 && x % 64 == 0
      invariant done' == done[r := x] && Shows(before, dst[..], lines, done')
      invariant Supplies(mem, s, dst, m, lines, done', r, q)
      decreases m - x
    {
      x, done' := CopyChunk(mem, s, dst, d, x, 64, m, before, lines, done', r, q);
    }
    if x == m { return; }
    x, done' := MemcpyBits(mem, s, dst, d, m, x, before, lines, done', r, q);
    if x == m { return; }
    x, done' := CopyChunk(mem, s, dst, d, x, 1, m, before, lines, done', r, q);
    while x != m
      invariant 0 <= x <= m && done' == done[r := x] && Shows(before, dst[..], lines, done')
      invariant Supplies(mem, s, dst, m, lines, done', r, q)
      decreases m - x
    {
      x, done' := CopyChunk(mem, s, dst, d, x, 1, m, before, lines, done', r, q);
    }
  }

  /** Between two buffers: exactly `m` pixels arrive, in place, and nothing else changes. */
  method Memcpy(src: array<Pixel>, s: nat, dst: array<Pixel>, d: nat, m: nat)
    requires src != dst && s + m <= src.Length && d + m <= dst.Length
    modifies dst
    ensures dst[d..d + m] == src[s..s + m]
    ensures forall i :: 0 <= i < dst.Length && (i < d || i >= d + m) ==> dst[i] == old(dst[i])
  {
    ghost var before := dst[..];
    ghost var lines := [Line(d, src[s..s + m])];
    ghost var done := MemcpyNeon(src, s, dst, d, m, before, lines, [0], 0, 0);
    assert forall c :: 0 <= c < m ==> dst[..][lines[0].at + c] == lines[0].px[c];
    assert forall i :: 0 <= i < dst.Length && !Reaches(lines[0], m, i) ==> dst[..][i] == before[i];
  }

  /** Labels 2 to 5: blocks of 64, 32, 16 and 8 bytes, as the bits of the size ask for. */
  method MemcpyBits(mem: array<Pixel>, s: nat, dst: array<Pixel>, d: nat, m: nat, from: nat,
                    ghost before: seq<Pixel>, ghost lines: seq<Line>, ghost done: seq<nat>, ghost r: nat, ghost q: nat)
    returns (x: nat, ghost done': seq<nat>)
    requires Shows(before, dst[..], lines, done) && Supplies(mem, s, dst, m, lines, done, r, q)
    requires from == m / 64 * 64 && done[r] == from && d == lines[r].at
    modifies dst
    ensures from <= x <= m && done' == done[r := x] && Shows(before, dst[..], lines, done')
    ensures Supplies(mem, s, dst, m, lines, done', r, q)
  {
    SizeBit32(m);
    SizeBit16(m);
    SizeBit8(m);
    SizeBit4(m);
    x, done' := CopyBit(mem, s, dst, d, from, 32, m, m / 32 % 2 == 1, before, lines, done, r, q);
    if x == m { return; }
    x, done' := CopyBit(mem, s, dst, d, x, 16, m, m / 16 % 2 == 1, before, lines, done', r, q);
    if x == m { return; }
    x, done' := CopyBit(mem, s, dst, d, x, 8, m, m / 8 % 2 == 1, before, lines, done', r, q);
    if x == m { return; }
    x, done' := CopyBit(mem, s, dst, d, x, 4, m, m / 4 % 2 == 1, before, lines, done', r, q);
  }

  /** How much is copied after each bit of the size has been looked at. */
  lemma SizeBit32(m: nat)
    ensures m / 64 * 64 + (if m / 32 % 2 == 1 then 32 else 0) == m / 32 * 32 <= m
  {
    var a := m / 32;
    assert m == 64 * (a / 2) + 32 * (a % 2) + m % 32;
  }

  lemma SizeBit16(m: nat)
    ensures m / 32 * 32 + (if m / 16 % 2 == 1 then 16 else 0) == m / 16 * 16 <= m
  {
    var a := m / 16;
    assert m == 32 * (a / 2) + 16 * (a % 2) + m % 16;
  }

  lemma SizeBit8(m: nat)
    ensures m / 16 * 16 + (if m / 8 % 2 == 1 then 8 else 0) == m / 8 * 8 <= m
  {
    var a := m / 8;
    assert m == 16 * (a / 2) + 8 * (a % 2) + m % 8;
  }

  lemma SizeBit4(m: nat)
    ensures m / 8 * 8 + (if m / 4 % 2 == 1 then 4 else 0) == m / 4 * 4 <= m
  {
    var a := m / 4;
    assert m == 8 * (a / 2) + 4 * (a % 2) + m % 4;
  }

  method CopyBit(mem: array<Pixel>, s: nat, dst: array<Pixel>, d: nat, x: nat, n: nat, ghost m: nat, wanted: bool,
                 ghost before: seq<Pixel>, ghost lines: seq<Line>, ghost done: seq<nat>, ghost r: nat, ghost q: nat)
    returns (x': nat, ghost done': seq<nat>)
    requires Shows(before, dst[..], lines, done) && Supplies(mem, s, dst, m, lines, done, r, q)
    requires done[r] == x && (wanted ==> x + n <= m) && d == lines[r].at
    modifies dst
    ensures x' == (if wanted then x + n else x) && done' == done[r := x'] && Shows(before, dst[..], lines, done')
    ensures Supplies(mem, s, dst, m, lines, done', r, q)
  {
    x', done' := x, done;
    if wanted {
      x', done' := CopyChunk(mem, s, dst, d, x, n, m, before, lines, done, r, q);
    }
  }

  // ---------- five and six times ----------

  /** scale5x_n16line and scale6x_n16line. */
  method ScaleLine(n: nat, src: array<Pixel>, s: nat, dst: array<Pixel>, d: nat, sw: nat, ghost h: nat,
                   ghost before: seq<Pixel>, ghost lines: seq<Line>, ghost done: seq<nat>, ghost r: nat)
    returns (ghost done': seq<nat>)
    requires (n == 5 || n == 6) && src != dst && s + sw <= src.Length
    requires Shows(before, dst[..], lines, done) && r < |lines| && OutRow(lines[r].px, Plain(n, h), 0, src[..], s, sw)
    requires lines[r].at == d && done[r] == 0
    modifies dst
    ensures done' == done[r := |lines[r].px|] && Shows(before, dst[..], lines, done')
  {
    var x, at := 0, d;
    done' := done;
    while x != sw / 8 * 8
      invariant 0 <= x <= sw / 8 * 8 && x % 8 == 0 && at == d + Wide(Plain(n, h), x)
      invariant done' == done[r := Wide(Plain(n, h), x)] && Shows(before, dst[..], lines, done')
      decreases sw - x
    {
      x, at, done' := LineBlock(n, src, s, dst, d, at, sw, x, h, before, lines, done', r);
    }
    done' := FinishLine(n, src, s, dst, d, at, sw, x, h, before, lines, done', r);
  }

  /** Label 1: eight pixels through the registers. */
  method LineBlock(n: nat, src: array<Pixel>, s: nat, dst: array<Pixel>, ghost d: nat, at: nat, ghost sw: nat, x: nat, ghost h: nat,
                   ghost before: seq<Pixel>, ghost lines: seq<Line>, ghost done: seq<nat>, ghost r: nat)
    returns (x': nat, at': nat, ghost done': seq<nat>)
    requires (n == 5 || n == 6) && src != dst && s + sw <= src.Length && x + 8 <= sw
    requires Shows(before, dst[..], lines, done) && r < |lines| && OutRow(lines[r].px, Plain(n, h), 0, src[..], s, sw)
    requires lines[r].at == d && done[r] == Wide(Plain(n, h), x) && at == d + done[r]
    modifies dst
    ensures x' == x + 8 && at' == d + Wide(Plain(n, h), x')
    ensures done' == done[r := Wide(Plain(n, h), x')] && Shows(before, dst[..], lines, done')
  {
    var px := SpreadBlock(n, 8, src, s + x, h);
    done' := StorePiece(dst, at, px, Plain(n, h), 0, src[..], s, sw, x, 8, before, lines, done, r);
    AlongAdd(0, n, x, 8);
    x', at' := x + 8, at + |px|;
  }

  /** Label 3: the pixels that are left, one by one. */
  method FinishLine(n: nat, src: array<Pixel>, s: nat, dst: array<Pixel>, ghost d: nat, start: nat, sw: nat, from: nat, ghost h: nat,
                    ghost before: seq<Pixel>, ghost lines: seq<Line>, ghost done: seq<nat>, ghost r: nat)
    returns (ghost done': seq<nat>)
    requires (n == 5 || n == 6) && src != dst && s + sw <= src.Length && from <= sw
    requires Shows(before, dst[..], lines, done) && r < |lines| && OutRow(lines[r].px, Plain(n, h), 0, src[..], s, sw)
    requires lines[r].at == d && done[r] == Wide(Plain(n, h), from) && start == d + done[r]
    modifies dst
    ensures done' == done[r := |lines[r].px|] && Shows(before, dst[..], lines, done')
  {
    var x, at := from, start;
    done' := done;
    while x != sw
      invariant 0 <= x <= sw && at == d + Wide(Plain(n, h), x)
      invariant done' == done[r := Wide(Plain(n, h), x)] && Shows(before, dst[..], lines, done')
      decreases sw - x
    {
      var px := RestPixels(n, src[s + x]);
      RestOut(n, h, 0, src[..], s + x);
      done' := StorePiece(dst, at, px, Plain(n, h), 0, src[..], s, sw, x, 1, before, lines, done', r);
      x, at := x + 1, at + |px|;
    }
  }

  method ScaleLineBand(n: nat, ymul: nat, src: array<Pixel>, s: nat, dst: array<Pixel>, d: nat, dp: nat, sw: nat,
                       ghost before: seq<Pixel>, ghost lines: seq<Line>, ghost done: seq<nat>, ghost p: nat)
    returns (next: nat, ghost done': seq<nat>)
    requires (n == 5 || n == 6) && ymul > 0 && src != dst && s + sw <= src.Length
    requires Shows(before, dst[..], lines, done) && DoneUpTo(lines, done, p)
    requires Band(lines, p, Plain(n, ymul), d, dp, src[..], s, sw)
    modifies dst
    ensures Shows(before, dst[..], lines, done') && DoneUpTo(lines, done', p + ymul)
    ensures next == Along(d, dp, ymul)
  {
    ghost var k := Plain(n, ymul);
    assert BandLine(lines[p], k, 0, d, dp, src[..], s, sw);
    done' := ScaleLine(n, src, s, dst, d, sw, ymul, before, lines, done, p);
    next := d + dp;
    AlongIs(0, n, sw);
    for i := 1 to ymul
      invariant Shows(before, dst[..], lines, done') && DoneUpTo(lines, done', p + i)
      invariant next == Along(d, dp, i)
    {
      assert BandLine(lines[p + i], k, i, d, dp, src[..], s, sw);
      PlainRowsEqual(lines[p + i].px, lines[p].px, k, i, 0, src[..], s, sw);
      done' := MemcpyNeon(dst, d, dst, next, sw * n, before, lines, done', p + i, p);
      next := next + dp;
    }
  }

  method ScaleLines(n: nat, ymul: nat, src: array<Pixel>, sAt: nat, dst: array<Pixel>, dAt: nat,
                    sw: nat, sh: nat, sp: nat, dp: nat)
    requires (n == 5 || n == 6) && ymul > 0 && src != dst
    requires Fits(Plain(n, ymul), dAt, dp, dst.Length, sAt, sp, src.Length, sw, sh)
    modifies dst
    ensures IsFrame(Plain(n, ymul), old(dst[..]), dst[..], dAt, dp, src[..], sAt, sp, sw, sh)
  {
    ghost var k := Plain(n, ymul);
    ghost var before := dst[..];
    ghost var lines, done := StartFrame(k, before, dAt, dp, src[..], sAt, sp, sw, sh);
    done := ScaleAllLines(n, ymul, src, sAt, dst, dAt, sw, sh, sp, dp, before, lines, done);
    EndFrame(k, before, dst[..], lines, done, dAt, dp, src[..], sAt, sp, sw, sh);
  }

  method ScaleAllLines(n: nat, ymul: nat, src: array<Pixel>, sAt: nat, dst: array<Pixel>, dAt: nat, sw: nat, sh: nat, sp: nat, dp: nat,
      ghost before: seq<Pixel>, ghost lines: seq<Line>, ghost started: seq<nat>) returns (ghost done: seq<nat>)
    requires (n == 5 || n == 6) && ymul > 0 && src != dst
    requires Ready(lines, Plain(n, ymul), dAt, dp, src[..], sAt, sp, sw, sh)
    requires BandsDone(Plain(n, ymul), before, dst[..], lines, started, 0)
    modifies dst
    ensures BandsDone(Plain(n, ymul), before, dst[..], lines, done, sh)
  {
    done := started;
    var s, d := sAt, dAt;
    for y := 0 to sh
      invariant BandsDone(Plain(n, ymul), before, dst[..], lines, done, y)
      invariant s == Along(sAt, sp, y) && d == Along(dAt, dp, RowNo(Plain(n, ymul), y, 0))
    {
      d, done := ScaleLinesAt(n, ymul, src, sAt, s, dst, dAt, d, sw, sh, sp, dp, y, before, lines, done);
      s := s + sp;
    }
  }

  method ScaleLinesAt(n: nat, ymul: nat, src: array<Pixel>, ghost sAt: nat, s: nat, dst: array<Pixel>, ghost dAt: nat, d: nat,
      sw: nat, ghost sh: nat, ghost sp: nat, dp: nat, ghost y: nat,
      ghost before: seq<Pixel>, ghost lines: seq<Line>, ghost done: seq<nat>) returns (d': nat, ghost done': seq<nat>)
    requires (n == 5 || n == 6) && ymul > 0 && src != dst && y < sh
    requires Ready(lines, Plain(n, ymul), dAt, dp, src[..], sAt, sp, sw, sh)
    requires BandsDone(Plain(n, ymul), before, dst[..], lines, done, y)
    requires s == Along(sAt, sp, y) && d == Along(dAt, dp, RowNo(Plain(n, ymul), y, 0))
    modifies dst
    ensures BandsDone(Plain(n, ymul), before, dst[..], lines, done', y + 1)
    ensures d' == Along(dAt, dp, RowNo(Plain(n, ymul), y + 1, 0))
  {
    ghost var p := RowNo(Plain(n, ymul), y, 0);
    NextBand(lines, Plain(n, ymul), dAt, dp, src[..], sAt, sp, sw, sh, y, p, s, d);
    d', done' := ScaleLineBand(n, ymul, src, s, dst, d, dp, sw, before, lines, done, p);
  }

  // ---------- entry points ----------

  /** scale2x2_n16 to scale6x6_n16: misaligned buffers or pitches go to the C scaler, everything
      else through the register programs, and both write the same frame. */
  method ScaleFrame(n: nat, src: array<Pixel>, sAt: nat, dst: array<Pixel>, dAt: nat,
                    sw: nat, sh: nat, spBytes: nat, dpBytes: nat)
    requires 2 <= n <= 6 && src != dst && spBytes % 2 == 0 && dpBytes % 2 == 0
    requires FitsBytes(n, n, dAt, if dpBytes == 0 then 2 * (n * sw) else dpBytes, dst.Length,
                       sAt, if spBytes == 0 then 2 * sw else spBytes, src.Length, sw, sh)
    modifies dst
    ensures IsFrame(Plain(n, n), old(dst[..]), dst[..], dAt, ScalerC.Pitch(dpBytes, sw * n),
                    src[..], sAt, ScalerC.Pitch(spBytes, sw), sw, sh)
    ensures Replicated(n, n, old(dst[..]), dst[..], dAt, if dpBytes == 0 then 2 * (n * sw) else dpBytes,
                       src[..], sAt, if spBytes == 0 then 2 * sw else spBytes, sw, sh)
  {
    FitsHalved(n, n, dAt, ScalerC.Pitch(dpBytes, sw * n), dst.Length, sAt, ScalerC.Pitch(spBytes, sw), src.Length, sw, sh);
    ScaleBuffers(n, src, sAt, dst, dAt, sw, sh, spBytes, dpBytes);
    FrameReplicated(n, n, old(dst[..]), dst[..], dAt, ScalerC.Pitch(dpBytes, sw * n), src[..], sAt, ScalerC.Pitch(spBytes, sw),
                    sw, sh, if dpBytes == 0 then 2 * (n * sw) else dpBytes, if spBytes == 0 then 2 * sw else spBytes);
  }

  method ScaleBuffers(n: nat, src: array<Pixel>, sAt: nat, dst: array<Pixel>, dAt: nat,
                      sw: nat, sh: nat, spBytes: nat, dpBytes: nat)
    requires 2 <= n <= 6 && src != dst && spBytes % 2 == 0 && dpBytes % 2 == 0
    requires Fits(Plain(n, n), dAt, ScalerC.Pitch(dpBytes, sw * n), dst.Length,
                  sAt, ScalerC.Pitch(spBytes, sw), src.Length, sw, sh)
    modifies dst
    ensures IsFrame(Plain(n, n), old(dst[..]), dst[..], dAt, ScalerC.Pitch(dpBytes, sw * n),
                    src[..], sAt, ScalerC.Pitch(spBytes, sw), sw, sh)
  {
    if sw == 0 || sh == 0 {
      ScalerC.NoFrame(Plain(n, n), dst[..], dAt, ScalerC.Pitch(dpBytes, sw * n),
                      src[..], sAt, ScalerC.Pitch(spBytes, sw), sw, sh);
      return;
    }
    var sp, dp := ScalerC.Pitch(spBytes, sw), ScalerC.Pitch(dpBytes, sw * n);
    if sAt % 2 != 0 || dAt % 2 != 0 || sp % 2 != 0 || dp % 2 != 0 {
      ScalerC.ScaleBuffers(n, n, src, sAt, dst, dAt, sw, sh, spBytes, dpBytes);
    } else if n <= 4 {
      ScaleRows(n, src, sAt, dst, dAt, sw, sh, sp, dp);
    } else {
      ScaleLines(n, n, src, sAt, dst, dAt, sw, sh, sp, dp);
    }
  }

  /** The NEON and the C scaler of the same factor leave equal memories equal. */
  method BothScale(n: nat, src: array<Pixel>, sAt: nat, a: array<Pixel>, b: array<Pixel>, dAt: nat,
                   sw: nat, sh: nat, spBytes: nat, dpBytes: nat)
    requires 2 <= n <= 6 && src != a && src != b && a != b && a[..] == b[..] && spBytes % 2 == 0 && dpBytes % 2 == 0
    requires FitsBytes(n, n, dAt, if dpBytes == 0 then 2 * (n * sw) else dpBytes, a.Length,
                       sAt, if spBytes == 0 then 2 * sw else spBytes, src.Length, sw, sh)
    modifies a, b
    ensures a[..] == b[..]
  {
    ghost var before := a[..];
    ScaleFrame(n, src, sAt, a, dAt, sw, sh, spBytes, dpBytes);
    ScalerC.ScaleFrame(n, n, src, sAt, b, dAt, sw, sh, spBytes, dpBytes);
    FrameUnique(Plain(n, n), before, a[..], b[..], dAt, ScalerC.Pitch(dpBytes, sw * n),
                src[..], sAt, ScalerC.Pitch(spBytes, sw), sw, sh);
  }

  /** Copies one source row with memcpy_neon. */
  method CopyRow(src: array<Pixel>, s: nat, dst: array<Pixel>, d: nat, ghost dp: nat, sw: nat,
                 ghost before: seq<Pixel>, ghost lines: seq<Line>, ghost done: seq<nat>, ghost p: nat)
    returns (ghost done': seq<nat>)
    requires src != dst && s + sw <= src.Length
    requires Shows(before, dst[..], lines, done) && DoneUpTo(lines, done, p)
    requires Band(lines, p, Plain(1, 1), d, dp, src[..], s, sw)
    modifies dst
    ensures Shows(before, dst[..], lines, done') && DoneUpTo(lines, done', p + 1)
  {
    assert BandLine(lines[p], Plain(1, 1), 0, d, dp, src[..], s, sw);
    ScalerC.CopyOut(1, 0, src[..], s, sw);
    PlainRowsEqual(lines[p].px, src[..][s..s + sw], Plain(1, 1), 0, 0, src[..], s, sw);
    done' := MemcpyNeon(src, s, dst, d, sw, before, lines, done, p, p);
  }

  method CopyRows(src: array<Pixel>, sAt: nat, dst: array<Pixel>, dAt: nat, sw: nat, sh: nat, sp: nat, dp: nat)
    requires src != dst && Fits(Plain(1, 1), dAt, dp, dst.Length, sAt, sp, src.Length, sw, sh)
    modifies dst
    ensures IsFrame(Plain(1, 1), old(dst[..]), dst[..], dAt, dp, src[..], sAt, sp, sw, sh)
  {
    ghost var k := Plain(1, 1);
    ghost var before := dst[..];
    ghost var lines, done := StartFrame(k, before, dAt, dp, src[..], sAt, sp, sw, sh);
    done := CopyAllRows(src, sAt, dst, dAt, sw, sh, sp, dp, before, lines, done);
    EndFrame(k, before, dst[..], lines, done, dAt, dp, src[..], sAt, sp, sw, sh);
  }

  method CopyAllRows(src: array<Pixel>, sAt: nat, dst: array<Pixel>, dAt: nat, sw: nat, sh: nat, sp: nat, dp: nat,
      ghost before: seq<Pixel>, ghost lines: seq<Line>, ghost started: seq<nat>) returns (ghost done: seq<nat>)
    requires src != dst
    requires Ready(lines, Plain(1, 1), dAt, dp, src[..], sAt, sp, sw, sh)
    requires BandsDone(Plain(1, 1), before, dst[..], lines, started, 0)
    modifies dst
    ensures BandsDone(Plain(1, 1), before, dst[..], lines, done, sh)
  {
    done := started;
    var s, d := sAt, dAt;
    for y := 0 to sh
      invariant BandsDone(Plain(1, 1), before, dst[..], lines, done, y)
      invariant s == Along(sAt, sp, y) && d == Along(dAt, dp, RowNo(Plain(1, 1), y, 0))
    {
      d, done := CopyRowAt(src, sAt, s, dst, dAt, d, sw, sh, sp, dp, y, before, lines, done);
      s := s + sp;
    }
  }

  method CopyRowAt(src: array<Pixel>, ghost sAt: nat, s: nat, dst: array<Pixel>, ghost dAt: nat, d: nat,
      sw: nat, ghost sh: nat, ghost sp: nat, dp: nat, ghost y: nat,
      ghost before: seq<Pixel>, ghost lines: seq<Line>, ghost done: seq<nat>) returns (d': nat, ghost done': seq<nat>)
    requires src != dst && y < sh
    requires Ready(lines, Plain(1, 1), dAt, dp, src[..], sAt, sp, sw, sh)
    requires BandsDone(Plain(1, 1), before, dst[..], lines, done, y)
    requires s == Along(sAt, sp, y) && d == Along(dAt, dp, RowNo(Plain(1, 1), y, 0))
    modifies dst
    ensures BandsDone(Plain(1, 1), before, dst[..], lines, done', y + 1)
    ensures d' == Along(dAt, dp, RowNo(Plain(1, 1), y + 1, 0))
  {
    ghost var p := RowNo(Plain(1, 1), y, 0);
    NextBand(lines, Plain(1, 1), dAt, dp, src[..], sAt, sp, sw, sh, y, p, s, d);
    done' := CopyRow(src, s, dst, d, dp, sw, before, lines, done, p);
    d' := d + dp;
  }

  /** scale1x1_n16. */
  method CopyFrame(src: array<Pixel>, sAt: nat, dst: array<Pixel>, dAt: nat, sw: nat, sh: nat, spBytes: nat, dpBytes: nat)
    requires src != dst && spBytes % 2 == 0 && dpBytes % 2 == 0
    requires FitsBytes(1, 1, dAt, if dpBytes == 0 then 2 * sw else dpBytes, dst.Length,
                       sAt, if spBytes == 0 then 2 * sw else spBytes, src.Length,
                       if 0 < dpBytes < 2 * sw then dpBytes / 2 else sw, sh)
    modifies dst
    ensures IsFrame(Plain(1, 1), old(dst[..]), dst[..], dAt, ScalerC.Pitch(dpBytes, sw),
                    src[..], sAt, ScalerC.Pitch(spBytes, sw), ScalerC.CutWidth(sw, ScalerC.Pitch(dpBytes, sw)), sh)
    ensures Replicated(1, 1, old(dst[..]), dst[..], dAt, if dpBytes == 0 then 2 * sw else dpBytes,
                       src[..], sAt, if spBytes == 0 then 2 * sw else spBytes,
                       if 0 < dpBytes < 2 * sw then dpBytes / 2 else sw, sh)
  {
    FitsHalved(1, 1, dAt, ScalerC.Pitch(dpBytes, sw), dst.Length, sAt, ScalerC.Pitch(spBytes, sw), src.Length,
               ScalerC.CutWidth(sw, ScalerC.Pitch(dpBytes, sw)), sh);
    CopyBuffers(src, sAt, dst, dAt, sw, sh, spBytes, dpBytes);
    FrameReplicated(1, 1, old(dst[..]), dst[..], dAt, ScalerC.Pitch(dpBytes, sw), src[..], sAt, ScalerC.Pitch(spBytes, sw),
                    ScalerC.CutWidth(sw, ScalerC.Pitch(dpBytes, sw)), sh,
                    if dpBytes == 0 then 2 * sw else dpBytes, if spBytes == 0 then 2 * sw else spBytes);
  }

  method CopyBuffers(src: array<Pixel>, sAt: nat, dst: array<Pixel>, dAt: nat, sw: nat, sh: nat, spBytes: nat, dpBytes: nat)
    requires src != dst && spBytes % 2 == 0 && dpBytes % 2 == 0
    requires Fits(Plain(1, 1), dAt, ScalerC.Pitch(dpBytes, sw), dst.Length, sAt, ScalerC.Pitch(spBytes, sw), src.Length,
                  ScalerC.CutWidth(sw, ScalerC.Pitch(dpBytes, sw)), sh)
    modifies dst
    ensures IsFrame(Plain(1, 1), old(dst[..]), dst[..], dAt, ScalerC.Pitch(dpBytes, sw),
                    src[..], sAt, ScalerC.Pitch(spBytes, sw), ScalerC.CutWidth(sw, ScalerC.Pitch(dpBytes, sw)), sh)
  {
    var sp, dp := ScalerC.Pitch(spBytes, sw), ScalerC.Pitch(dpBytes, sw);
    if sw == 0 || sh == 0 {
      ScalerC.NoFrame(Plain(1, 1), dst[..], dAt, dp, src[..], sAt, sp, ScalerC.CutWidth(sw, dp), sh);
    } else if sAt % 2 != 0 || dAt % 2 != 0 || sp % 2 != 0 || dp % 2 != 0 {
      ScalerC.CopyBuffers(1, src, sAt, dst, dAt, sw, sh, spBytes, dpBytes);
    } else if sw == sp && sp == dp {
      ScalerC.OneRow(sw, sh);
      CopyRows(src, sAt, dst, dAt, sp * sh, 1, sp * sh, sp * sh);
      ScalerC.Contiguous(old(dst[..]), dst[..], dAt, src[..], sAt, sw, sh);
    } else {
      CopyRows(src, sAt, dst, dAt, ScalerC.CutWidth(sw, dp), sh, sp, dp);
    }
  }
}
