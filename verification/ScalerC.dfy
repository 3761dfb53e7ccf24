/** The C scalers: two pixels per 32-bit word, an odd last pixel, and copies of each row. */
module ScalerC {
  import opened ScalerSpec

  // ---------- words and their two lanes ----------

  /** The bits of a pixel. */
  function Bits(p: Pixel): (b: bv16)
    ensures b as int == p
  {
    if p == 0 then 0
    else
      var half := Bits(p / 2);
      DoubleBits(half);
      if p % 2 == 0 then half << 1 else (half << 1) | 1
  }

  lemma DoubleBits(b: bv16)
    requires b as int < 0x8000
    ensures (b << 1) as int == 2 * (b as int) && ((b << 1) | 1) as int == 2 * (b as int) + 1
  {
  }

  /** A word read from memory: the first pixel is its low half. */
  function Load(first: Pixel, second: Pixel): bv32 { (Bits(first) as bv32) | ((Bits(second) as bv32) << 16) }

  function Low(w: bv32): Pixel { ((w & 0xFFFF) as bv16) as int }

  function High(w: bv32): Pixel { ((w >> 16) as bv16) as int }

  lemma LoadLanes(first: Pixel, second: Pixel)
    ensures Low(Load(first, second)) == first && High(Load(first, second)) == second
  {
    HalvesJoined(Bits(first), Bits(second));
  }

  lemma HalvesJoined(a: bv16, b: bv16)
    ensures var w := (a as bv32) | ((b as bv32) << 16); (w & 0xFFFF) as bv16 == a && (w >> 16) as bv16 == b
  {
  }

  /** dpix1 and dpix2. */
  function LowTwice(pix: bv32): bv32 { (pix & 0x0000FFFF) | (pix << 16) }

  function HighTwice(pix: bv32): bv32 { (pix & 0xFFFF0000) | (pix >> 16) }

  /** Both lanes of the first are the low lane of the word, both of the second its high lane. */
  lemma LaneMasks(pix: bv32)
    ensures Low(LowTwice(pix)) == Low(pix) && High(LowTwice(pix)) == Low(pix)
    ensures Low(HighTwice(pix)) == High(pix) && High(HighTwice(pix)) == High(pix)
  {
    LowLow(pix, LowTwice(pix));
    LowHigh(pix, LowTwice(pix));
    HighLow(pix, HighTwice(pix));
    HighHigh(pix, HighTwice(pix));
  }

  lemma LowLow(pix: bv32, d: bv32)
    requires d == (pix & 0x0000FFFF) | (pix << 16)
    ensures Low(d) == Low(pix)
  {
    assert (d & 0xFFFF) as bv16 == (pix & 0xFFFF) as bv16;
  }

  lemma LowHigh(pix: bv32, d: bv32)
    requires d == (pix & 0x0000FFFF) | (pix << 16)
    ensures High(d) == Low(pix)
  {
    assert (d >> 16) as bv16 == (pix & 0xFFFF) as bv16;
  }

  lemma HighLow(pix: bv32, d: bv32)
    requires d == (pix & 0xFFFF0000) | (pix >> 16)
    ensures Low(d) == High(pix)
  {
    assert (d & 0xFFFF) as bv16 == (pix >> 16) as bv16;
  }

  lemma HighHigh(pix: bv32, d: bv32)
    requires d == (pix & 0xFFFF0000) | (pix >> 16)
    ensures High(d) == High(pix)
  {
    assert (d >> 16) as bv16 == (pix >> 16) as bv16;
  }

  /** A halfword in both lanes: pix16|(pix16<<16), and orr lr, lr, lsl #16. */
  function Twice(p: Pixel): bv32 { (Bits(p) as bv32) | ((Bits(p) as bv32) << 16) }

  lemma TwiceLanes(p: Pixel)
    ensures Low(Twice(p)) == p && High(Twice(p)) == p
  {
    LoadLanes(p, p);
  }

  function Lanes(ws: seq<bv32>): (px: seq<Pixel>)
    ensures |px| == 2 * |ws|
    ensures forall i :: 0 <= i < |ws| ==> px[2 * i] == Low(ws[i]) && px[2 * i + 1] == High(ws[i])
  {
    if ws == [] then [] else Lanes(ws[..|ws| - 1]) + [Low(ws[|ws| - 1]), High(ws[|ws| - 1])]
  }

  /** The words that one pair of source pixels becomes. */
  function PairWords(n: nat, pix: bv32): (ws: seq<bv32>)
    requires 2 <= n <= 6
    ensures |ws| == n
  {
    var d1, d2 := LowTwice(pix), HighTwice(pix);
    match n
    case 2 => [d1, d2]
    case 3 => [d1, pix, d2]
    case 4 => [d1, d1, d2, d2]
    case 5 => [d1, d1, pix, d2, d2]
    case _ => [d1, d1, d1, d2, d2, d2]
  }

  /** Lane `c` of those words is the first pixel for the first n lanes, and the second for the rest. */
  lemma PairLanes(n: nat, pix: bv32, c: nat)
    requires 2 <= n <= 6 && c < 2 * n
    ensures var w := PairWords(n, pix)[c / 2];
            (if c % 2 == 0 then Low(w) else High(w)) == if c < n then Low(pix) else High(pix)
  {
    LaneMasks(pix);
  }

  /** The doubled word stored `words` times. */
  function TwiceStored(p: Pixel, words: nat): (px: seq<Pixel>)
    ensures |px| == 2 * words && forall i :: 0 <= i < 2 * words ==> px[i] == p
  {
    if words == 0 then []
    else
      TwiceLanes(p);
      TwiceStored(p, words - 1) + [Low(Twice(p)), High(Twice(p))]
  }

  /** Its low half stored. */
  function HalfStored(p: Pixel): (px: seq<Pixel>)
    ensures px == [p]
  {
    TwiceLanes(p);
    [Low(Twice(p))]
  }

  /** An odd last pixel: whole words, then the pixel itself when n is odd. */
  function TailPixels(n: nat, p: Pixel): (px: seq<Pixel>)
    requires 2 <= n <= 6
    ensures |px| == n && forall i :: 0 <= i < n ==> px[i] == p
  {
    match n
    case 2 => TwiceStored(p, 1)
    case 3 => TwiceStored(p, 1) + [p]
    case 4 => TwiceStored(p, 2)
    case 5 => TwiceStored(p, 2) + [p]
    case _ => TwiceStored(p, 3)
  }

  /** The words of a pair are n times its first pixel and n times its second. */
  lemma PairPixels(n: nat, first: Pixel, second: Pixel, px: seq<Pixel>)
    requires 2 <= n <= 6 && px == Lanes(PairWords(n, Load(first, second)))
    ensures |px| == 2 * n && forall c :: 0 <= c < 2 * n ==> px[c] == if c < n then first else second
  {
    LoadLanes(first, second);
    forall c | 0 <= c < 2 * n ensures px[c] == if c < n then first else second {
      PairLanes(n, Load(first, second), c);
      LaneAt(PairWords(n, Load(first, second)), c);
    }
  }

  lemma {:induction false} LaneAt(ws: seq<bv32>, c: nat)
    requires c < 2 * |ws|
    ensures Lanes(ws)[c] == if c % 2 == 0 then Low(ws[c / 2]) else High(ws[c / 2])
  {
    var j := c / 2;
    assert j < |ws| && (c == 2 * j || c == 2 * j + 1);
    assert Lanes(ws)[2 * j] == Low(ws[j]) && Lanes(ws)[2 * j + 1] == High(ws[j]);
  }

  lemma PairOut(px: seq<Pixel>, n: nat, h: nat, ry: nat, src: seq<Pixel>, from: nat)
    requires n > 0 && from + 2 <= |src| && |px| == 2 * n
    requires forall c :: 0 <= c < 2 * n ==> px[c] == if c < n then src[from] else src[from + 1]
    ensures OutRow(px, Plain(n, h), ry, src, from, 2)
  {
    var k := Plain(n, h);
    assert Wide(k, 0) == 0 && Wide(k, 1) == n && Wide(k, 2) == 2 * n;
    forall x, rx | 0 <= x < 2 && 0 <= rx < n ensures Column(px, k, x, rx) == src[from + x] {
      assert Wide(k, x) + rx == if x == 0 then rx else n + rx;
    }
  }

  lemma TailOut(n: nat, h: nat, ry: nat, src: seq<Pixel>, from: nat)
    requires 2 <= n <= 6 && from < |src|
    ensures OutRow(TailPixels(n, src[from]), Plain(n, h), ry, src, from, 1)
  {
    CopiesOut(TailPixels(n, src[from]), n, h, ry, src, from);
  }

  /** n copies of a pixel are its part of an output row. */
  lemma CopiesOut(px: seq<Pixel>, n: nat, h: nat, ry: nat, src: seq<Pixel>, from: nat)
    requires from < |src| && |px| == n && forall i :: 0 <= i < n ==> px[i] == src[from]
    ensures OutRow(px, Plain(n, h), ry, src, from, 1)
  {
    var k := Plain(n, h);
    assert Wide(k, 0) == 0 && Wide(k, 1) == n;
  }

  /** Bytes to pixels: a pitch of 0 stands for the width of the row itself. */
  function Pitch(bytes: nat, width: nat): nat {
    if bytes == 0 then width else bytes / 2
  }

  /** Scales the pair of source pixels at column x. */
  method StorePair(n: nat, src: array<Pixel>, s: nat, dst: array<Pixel>, at: nat, sw: nat, x: nat,
                   ghost k: Kernel, ghost ry: nat,
                   ghost before: seq<Pixel>, ghost lines: seq<Line>, ghost done: seq<nat>, ghost r: nat)
    returns (ghost done': seq<nat>)
    requires 2 <= n <= 6 && src != dst && s + sw <= src.Length && x + 2 <= sw && k == Plain(n, k.h)
    requires Shows(before, dst[..], lines, done) && r < |lines| && OutRow(lines[r].px, k, ry, src[..], s, sw)
    requires done[r] == Wide(k, x) && at == lines[r].at + done[r]
    modifies dst
    ensures done' == done[r := Wide(k, x) + 2 * n] && Wide(k, x + 2) == Wide(k, x) + 2 * n
    ensures Shows(before, dst[..], lines, done')
  {
    var pix := Load(src[s + x], src[s + x + 1]);
    var px := Lanes(PairWords(n, pix));
    PairPixels(n, src[s + x], src[s + x + 1], px);
    PairOut(px, n, k.h, ry, src[..], s + x);
    AlongAdd(0, n, x, 2);
    assert Along(0, n, 2) == Along(0, n, 1) + n;
    done' := StorePiece(dst, at, px, k, ry, src[..], s, sw, x, 2, before, lines, done, r);
  }

  /** Scales the last source pixel of an odd row. */
  method StoreTail(n: nat, src: array<Pixel>, s: nat, dst: array<Pixel>, at: nat, sw: nat, x: nat,
                   ghost k: Kernel, ghost ry: nat,
                   ghost before: seq<Pixel>, ghost lines: seq<Line>, ghost done: seq<nat>, ghost r: nat)
    returns (ghost done': seq<nat>)
    requires 2 <= n <= 6 && src != dst && s + sw <= src.Length && x + 1 == sw && k == Plain(n, k.h)
    requires Shows(before, dst[..], lines, done) && r < |lines| && OutRow(lines[r].px, k, ry, src[..], s, sw)
    requires done[r] == Wide(k, x) && at == lines[r].at + done[r]
    modifies dst
    ensures done' == done[r := Wide(k, sw)] && Shows(before, dst[..], lines, done')
  {
    TailOut(n, k.h, ry, src[..], s + x);
    done' := StorePiece(dst, at, TailPixels(n, src[s + x]), k, ry, src[..], s, sw, x, 1, before, lines, done, r);
  }

  /** Writes one row of a band, two source pixels at a time. */
  method ScaleRow(n: nat, src: array<Pixel>, s: nat, dst: array<Pixel>, d: nat, sw: nat,
                  ghost k: Kernel, ghost ry: nat,
                  ghost before: seq<Pixel>, ghost lines: seq<Line>, ghost done: seq<nat>, ghost r: nat)
    returns (ghost done': seq<nat>)
    requires 2 <= n <= 6 && src != dst && s + sw <= src.Length && k == Plain(n, k.h)
    requires Shows(before, dst[..], lines, done) && r < |lines| && OutRow(lines[r].px, k, ry, src[..], s, sw)
    requires lines[r].at == d && done[r] == 0
    modifies dst
    ensures done' == done[r := |lines[r].px|] && Shows(before, dst[..], lines, done')
  {
    done' := done;
    var x, dx := 0, 0;
    while x < sw / 2
      invariant 0 <= x <= sw / 2 && 2 * dx == Wide(k, 2 * x)
      invariant done' == done[r := 2 * dx] && Shows(before, dst[..], lines, done')
    {
      done' := StorePair(n, src, s, dst, d + 2 * dx, sw, 2 * x, k, ry, before, lines, done', r);
      x, dx := x + 1, dx + n;
    }
    if sw % 2 == 1 {
      done' := StoreTail(n, src, s, dst, d + 2 * dx, sw, 2 * x, k, ry, before, lines, done', r);
    }
  }

  /** Copies a complete line to the place of an equal one. */
  method CopyRow(dst: array<Pixel>, to: nat, from: nat, length: nat,
                 ghost before: seq<Pixel>, ghost lines: seq<Line>, ghost done: seq<nat>, ghost r: nat, ghost q: nat)
    returns (ghost done': seq<nat>)
    requires Shows(before, dst[..], lines, done) && r < |lines| && q < |lines|
    requires lines[q].at == from && done[q] == |lines[q].px| == length
    requires lines[r].at == to && done[r] == 0 && lines[r].px == lines[q].px
    modifies dst
    ensures done' == done[r := |lines[r].px|] && Shows(before, dst[..], lines, done')
  {
    var run := dst[from..from + length];
    assert forall c :: 0 <= c < length ==> run[c] == dst[..][lines[q].at + c];
    done' := Store(dst, to, run, before, lines, done, r);
  }

  /** Writes one band: the scaled row, then its copies below. */
  method ScaleBand(n: nat, ymul: nat, src: array<Pixel>, s: nat, dst: array<Pixel>, d: nat, dp: nat, sw: nat,
                   ghost before: seq<Pixel>, ghost lines: seq<Line>, ghost done: seq<nat>, ghost p: nat)
    returns (next: nat, ghost done': seq<nat>)
    requires 2 <= n <= 6 && ymul > 0 && src != dst && s + sw <= src.Length
    requires Shows(before, dst[..], lines, done) && DoneUpTo(lines, done, p)
    requires Band(lines, p, Plain(n, ymul), d, dp, src[..], s, sw)
    modifies dst
    ensures Shows(before, dst[..], lines, done') && DoneUpTo(lines, done', p + ymul)
    ensures next == Along(d, dp, ymul)
  {
    ghost var k := Plain(n, ymul);
    assert BandLine(lines[p], k, 0, d, dp, src[..], s, sw);
    done' := ScaleRow(n, src, s, dst, d, sw, k, 0, before, lines, done, p);
    next := d + dp;
    var swl := sw * n;
    AlongIs(0, n, sw);
    for i := 1 to ymul
      invariant Shows(before, dst[..], lines, done') && DoneUpTo(lines, done', p + i)
      invariant next == Along(d, dp, i)
    {
      assert BandLine(lines[p + i], k, i, d, dp, src[..], s, sw);
      PlainRowsEqual(lines[p + i].px, lines[p].px, k, i, 0, src[..], s, sw);
      done' := CopyRow(dst, next, d, swl, before, lines, done', p + i, p);
      next := next + dp;
    }
  }

  /** The n-times scaler with every output row written `ymul` times: the destination becomes
      exactly the replicated frame. */
  method ScaleFrame(n: nat, ymul: nat, src: array<Pixel>, sAt: nat, dst: array<Pixel>, dAt: nat,
                    sw: nat, sh: nat, spBytes: nat, dpBytes: nat)
    requires 2 <= n <= 6 && src != dst && spBytes % 2 == 0 && dpBytes % 2 == 0
    requires FitsBytes(n, ymul, dAt, if dpBytes == 0 then 2 * (n * sw) else dpBytes, dst.Length,
                       sAt, if spBytes == 0 then 2 * sw else spBytes, src.Length, sw, sh)
    modifies dst
    ensures IsFrame(Plain(n, ymul), old(dst[..]), dst[..], dAt, Pitch(dpBytes, sw * n),
                    src[..], sAt, Pitch(spBytes, sw), sw, sh)
    ensures Replicated(n, ymul, old(dst[..]), dst[..], dAt, if dpBytes == 0 then 2 * (n * sw) else dpBytes,
                       src[..], sAt, if spBytes == 0 then 2 * sw else spBytes, sw, sh)
  {
    FitsHalved(n, ymul, dAt, Pitch(dpBytes, sw * n), dst.Length, sAt, Pitch(spBytes, sw), src.Length, sw, sh);
    ScaleBuffers(n, ymul, src, sAt, dst, dAt, sw, sh, spBytes, dpBytes);
    FrameReplicated(n, ymul, old(dst[..]), dst[..], dAt, Pitch(dpBytes, sw * n), src[..], sAt, Pitch(spBytes, sw), sw, sh,
                    if dpBytes == 0 then 2 * (n * sw) else dpBytes, if spBytes == 0 then 2 * sw else spBytes);
  }

  method ScaleBuffers(n: nat, ymul: nat, src: array<Pixel>, sAt: nat, dst: array<Pixel>, dAt: nat,
                      sw: nat, sh: nat, spBytes: nat, dpBytes: nat)
    requires 2 <= n <= 6 && src != dst && spBytes % 2 == 0 && dpBytes % 2 == 0
    requires Fits(Plain(n, ymul), dAt, Pitch(dpBytes, sw * n), dst.Length, sAt, Pitch(spBytes, sw), src.Length, sw, sh)
    modifies dst
    ensures IsFrame(Plain(n, ymul), old(dst[..]), dst[..], dAt, Pitch(dpBytes, sw * n),
                    src[..], sAt, Pitch(spBytes, sw), sw, sh)
  {
    ghost var k := Plain(n, ymul);
    var sp := if spBytes == 0 then sw else spBytes / 2;
    var dp := if dpBytes == 0 then sw * n else dpBytes / 2;
    ghost var before := dst[..];
    if sw == 0 || sh == 0 || ymul == 0 {
      NoFrame(k, before, dAt, dp, src[..], sAt, sp, sw, sh);
      return;
    }
    ScaleBands(n, ymul, src, sAt, dst, dAt, sw, sh, sp, dp);
  }

  method ScaleBands(n: nat, ymul: nat, src: array<Pixel>, sAt: nat, dst: array<Pixel>, dAt: nat,
                    sw: nat, sh: nat, sp: nat, dp: nat)
    requires 2 <= n <= 6 && ymul > 0 && src != dst
    requires Fits(Plain(n, ymul), dAt, dp, dst.Length, sAt, sp, src.Length, sw, sh)
    modifies dst
    ensures IsFrame(Plain(n, ymul), old(dst[..]), dst[..], dAt, dp, src[..], sAt, sp, sw, sh)
  {
    ghost var k := Plain(n, ymul);
    ghost var before := dst[..];
    ghost var lines, done := StartFrame(k, before, dAt, dp, src[..], sAt, sp, sw, sh);
    done := ScaleAllBands(n, ymul, src, sAt, dst, dAt, sw, sh, sp, dp, before, lines, done);
    EndFrame(k, before, dst[..], lines, done, dAt, dp, src[..], sAt, sp, sw, sh);
  }

  method ScaleAllBands(n: nat, ymul: nat, src: array<Pixel>, sAt: nat, dst: array<Pixel>, dAt: nat, sw: nat, sh: nat, sp: nat, dp: nat,
      ghost before: seq<Pixel>, ghost lines: seq<Line>, ghost started: seq<nat>) returns (ghost done: seq<nat>)
    requires 2 <= n <= 6 && ymul > 0 && src != dst
    requires Ready(lines, Plain(n, ymul), dAt, dp, src[..], sAt, sp, sw, sh)
    requires BandsDone(Plain(n, ymul), before, dst[..], lines, started, 0)
    modifies dst
    ensures BandsDone(Plain(n, ymul), before, dst[..], lines, done, sh)
  {
    done := started;
    var s, d := sAt, dAt;
    for y := 0 to sh
      invariant BandsDone(Plain(n, ymul), before, dst[..], lines, done, y)
      invariant s == Along(sAt, sp, y) && d == Along(dAt, dp, RowNo(Plain(n, ymul), y, 0))
    {
      d, done := ScaleBandAt(n, ymul, src, sAt, s, dst, dAt, d, sw, sh, sp, dp, y, before, lines, done);
      s := s + sp;
    }
  }

  method ScaleBandAt(n: nat, ymul: nat, src: array<Pixel>, ghost sAt: nat, s: nat, dst: array<Pixel>, ghost dAt: nat, d: nat,
      sw: nat, ghost sh: nat, ghost sp: nat, dp: nat, ghost y: nat,
      ghost before: seq<Pixel>, ghost lines: seq<Line>, ghost done: seq<nat>) returns (d': nat, ghost done': seq<nat>)
    requires 2 <= n <= 6 && ymul > 0 && src != dst && y < sh
    requires Ready(lines, Plain(n, ymul), dAt, dp, src[..], sAt, sp, sw, sh)
    requires BandsDone(Plain(n, ymul), before, dst[..], lines, done, y)
    requires s == Along(sAt, sp, y) && d == Along(dAt, dp, RowNo(Plain(n, ymul), y, 0))
    modifies dst
    ensures BandsDone(Plain(n, ymul), before, dst[..], lines, done', y + 1)
    ensures d' == Along(dAt, dp, RowNo(Plain(n, ymul), y + 1, 0))
  {
    ghost var p := RowNo(Plain(n, ymul), y, 0);
    NextBand(lines, Plain(n, ymul), dAt, dp, src[..], sAt, sp, sw, sh, y, p, s, d);
    d', done' := ScaleBand(n, ymul, src, s, dst, d, dp, sw, before, lines, done, p);
  }

  /** Nothing to scale leaves the destination as it is. */
  lemma NoFrame(k: Kernel, before: seq<Pixel>, at: nat, dp: nat, src: seq<Pixel>, from: nat, sp: nat, sw: nat, sh: nat)
    requires sw == 0 || sh == 0 || k.h == 0
    ensures IsFrame(k, before, before, at, dp, src, from, sp, sw, sh)
  {
  }

  // ---------- once ----------

  /** A row copied once is its own output. */
  lemma CopyOut(h: nat, ry: nat, src: seq<Pixel>, from: nat, n: nat)
    requires from + n <= |src|
    ensures OutRow(src[from..from + n], Plain(1, h), ry, src, from, n)
  {
    AlongIs(0, 1, n);
    var run, k := src[from..from + n], Plain(1, h);
    forall x, rx | 0 <= x < n && 0 <= rx < 1 ensures Column(run, k, x, rx) == PixelAt(src, from + x) {
      AlongIs(0, 1, x);
    }
  }

  /** Rows that follow each other without a gap are copied as one long row. */
  lemma {:induction false} Contiguous(before: seq<Pixel>, after: seq<Pixel>, at: nat, src: seq<Pixel>, from: nat, sw: nat, sh: nat)
    requires IsFrame(Plain(1, 1), before, after, at, sw * sh, src, from, sw * sh, sw * sh, 1)
    requires sh > 0
    ensures IsFrame(Plain(1, 1), before, after, at, sw, src, from, sw, sw, sh)
  {
    var k := Plain(1, 1);
    forall y, ry, x, rx | 0 <= y < sh && 0 <= ry < 1 && 0 <= x < sw && 0 <= rx < 1
      ensures PixelAt(after, Spot(k, at, sw, y, ry, x, rx)) == k.shade(rx, ry, PixelAt(src, Along(from, sw, y) + x))
    {
      ContiguousPixel(before, after, at, src, from, sw, sh, y, x);
    }
    forall i | 0 <= i < |after| && (forall y, ry :: 0 <= y < sh && 0 <= ry < 1 ==> !InRow(k, at, sw, sw, y, ry, i))
      ensures after[i] == before[i]
    {
      if InRow(k, at, sw * sh, sw * sh, 0, 0, i) { var y := FlatRow(at, sw, sh, i); }
    }
  }

  lemma {:induction false} ContiguousPixel(before: seq<Pixel>, after: seq<Pixel>, at: nat, src: seq<Pixel>, from: nat,
                                           sw: nat, sh: nat, y: nat, x: nat)
    requires IsFrame(Plain(1, 1), before, after, at, sw * sh, src, from, sw * sh, sw * sh, 1) && y < sh && x < sw
    ensures PixelAt(after, Spot(Plain(1, 1), at, sw, y, 0, x, 0)) == PixelAt(src, Along(from, sw, y) + x)
  {
    var c := FlatColumn(at, from, sw, sh, y, x);
    assert PixelAt(after, Spot(Plain(1, 1), at, sw * sh, 0, 0, c, 0)) == PixelAt(src, from + c);
  }

  lemma {:induction false} FlatColumn(at: nat, from: nat, sw: nat, sh: nat, y: nat, x: nat) returns (c: nat)
    requires y < sh && x < sw
    ensures c < sw * sh && Along(from, sw, y) + x == from + c
    ensures Spot(Plain(1, 1), at, sw, y, 0, x, 0) == at + c == Spot(Plain(1, 1), at, sw * sh, 0, 0, c, 0)
  {
    c := sw * y + x;
    AlongIs(from, sw, y);
    AlongIs(0, 1, y);
    AlongIs(at, sw, y);
    AlongIs(0, 1, x);
    AlongIs(0, 1, c);
    AlongMono(0, sw, y + 1, sh);
    AlongIs(0, sw, y + 1);
    AlongIs(0, sw, sh);
    assert sw * (y + 1) == sw * y + sw;
  }

  lemma {:induction false} FlatRow(at: nat, sw: nat, sh: nat, i: nat) returns (y: nat)
    requires InRow(Plain(1, 1), at, sw * sh, sw * sh, 0, 0, i)
    ensures y < sh && InRow(Plain(1, 1), at, sw, sw, y, 0, i)
    decreases sh
  {
    AlongIs(0, 1, sw * sh);
    AlongIs(0, 1, sw);
    if sh == 0 || i >= at + sw * (sh - 1) {
      y := sh - 1;
      AlongIs(0, 1, y);
      AlongIs(at, sw, y);
      assert sw * sh == sw * y + sw;
    } else {
      AlongIs(0, 1, sw * (sh - 1));
      y := FlatRow(at, sw, sh - 1, i);
    }
  }

  /** scale1x_c16: one memcpy when nothing separates the rows, otherwise row by row and `ymul` times; a
      row wider than the destination pitch is cut. */
  method CopyFrame(ymul: nat, src: array<Pixel>, sAt: nat, dst: array<Pixel>, dAt: nat,
                   sw: nat, sh: nat, spBytes: nat, dpBytes: nat)
    requires src != dst && spBytes % 2 == 0 && dpBytes % 2 == 0
    requires FitsBytes(1, ymul, dAt, if dpBytes == 0 then 2 * sw else dpBytes, dst.Length,
                       sAt, if spBytes == 0 then 2 * sw else spBytes, src.Length,
                       if 0 < dpBytes < 2 * sw then dpBytes / 2 else sw, sh)
    modifies dst
    ensures IsFrame(Plain(1, ymul), old(dst[..]), dst[..], dAt, Pitch(dpBytes, sw),
                    src[..], sAt, Pitch(spBytes, sw), CutWidth(sw, Pitch(dpBytes, sw)), sh)
    ensures Replicated(1, ymul, old(dst[..]), dst[..], dAt, if dpBytes == 0 then 2 * sw else dpBytes,
                       src[..], sAt, if spBytes == 0 then 2 * sw else spBytes,
                       if 0 < dpBytes < 2 * sw then dpBytes / 2 else sw, sh)
  {
    FitsHalved(1, ymul, dAt, Pitch(dpBytes, sw), dst.Length, sAt, Pitch(spBytes, sw), src.Length, CutWidth(sw, Pitch(dpBytes, sw)), sh);
    CopyBuffers(ymul, src, sAt, dst, dAt, sw, sh, spBytes, dpBytes);
    FrameReplicated(1, ymul, old(dst[..]), dst[..], dAt, Pitch(dpBytes, sw), src[..], sAt, Pitch(spBytes, sw),
                    CutWidth(sw, Pitch(dpBytes, sw)), sh,
                    if dpBytes == 0 then 2 * sw else dpBytes, if spBytes == 0 then 2 * sw else spBytes);
  }

  method CopyBuffers(ymul: nat, src: array<Pixel>, sAt: nat, dst: array<Pixel>, dAt: nat,
                     sw: nat, sh: nat, spBytes: nat, dpBytes: nat)
    requires src != dst && spBytes % 2 == 0 && dpBytes % 2 == 0
    requires Fits(Plain(1, ymul), dAt, Pitch(dpBytes, sw), dst.Length, sAt, Pitch(spBytes, sw), src.Length,
                  CutWidth(sw, Pitch(dpBytes, sw)), sh)
    modifies dst
    ensures IsFrame(Plain(1, ymul), old(dst[..]), dst[..], dAt, Pitch(dpBytes, sw),
                    src[..], sAt, Pitch(spBytes, sw), CutWidth(sw, Pitch(dpBytes, sw)), sh)
  {
    var sp, dp := Pitch(spBytes, sw), Pitch(dpBytes, sw);
    if sw == 0 || sh == 0 || ymul == 0 {
      NoFrame(Plain(1, ymul), dst[..], dAt, dp, src[..], sAt, sp, CutWidth(sw, dp), sh);
    } else if ymul == 1 && sw == sp && sp == dp {
      OneRow(sw, sh);
      CopyRows(1, src, sAt, dst, dAt, sp * sh, 1, sp * sh, sp * sh);
      Contiguous(old(dst[..]), dst[..], dAt, src[..], sAt, sw, sh);
    } else {
      CopyRows(ymul, src, sAt, dst, dAt, CutWidth(sw, dp), sh, sp, dp);
    }
  }

  function CutWidth(sw: nat, dp: nat): nat { if sw > dp then dp else sw }

  lemma OneRow(sw: nat, sh: nat)
    requires sh > 0
    ensures sw * (sh - 1) + sw == sw * sh
  {
  }

  method CopyRows(ymul: nat, src: array<Pixel>, sAt: nat, dst: array<Pixel>, dAt: nat,
                  sw: nat, sh: nat, sp: nat, dp: nat)
    requires ymul > 0 && src != dst && Fits(Plain(1, ymul), dAt, dp, dst.Length, sAt, sp, src.Length, sw, sh)
    modifies dst
    ensures IsFrame(Plain(1, ymul), old(dst[..]), dst[..], dAt, dp, src[..], sAt, sp, sw, sh)
  {
    ghost var k := Plain(1, ymul);
    ghost var before := dst[..];
    ghost var lines, done := StartFrame(k, before, dAt, dp, src[..], sAt, sp, sw, sh);
    done := CopyAllRows(ymul, src, sAt, dst, dAt, sw, sh, sp, dp, before, lines, done);
    EndFrame(k, before, dst[..], lines, done, dAt, dp, src[..], sAt, sp, sw, sh);
  }

  method CopyAllRows(ymul: nat, src: array<Pixel>, sAt: nat, dst: array<Pixel>, dAt: nat, sw: nat, sh: nat, sp: nat, dp: nat,
      ghost before: seq<Pixel>, ghost lines: seq<Line>, ghost started: seq<nat>) returns (ghost done: seq<nat>)
    requires ymul > 0 && src != dst
    requires Ready(lines, Plain(1, ymul), dAt, dp, src[..], sAt, sp, sw, sh)
    requires BandsDone(Plain(1, ymul), before, dst[..], lines, started, 0)
    modifies dst
    ensures BandsDone(Plain(1, ymul), before, dst[..], lines, done, sh)
  {
    done := started;
    var s, d := sAt, dAt;
    for y := 0 to sh
      invariant BandsDone(Plain(1, ymul), before, dst[..], lines, done, y)
      invariant s == Along(sAt, sp, y) && d == Along(dAt, dp, RowNo(Plain(1, ymul), y, 0))
    {
      d, done := CopyBandAt(ymul, src, sAt, s, dst, dAt, d, sw, sh, sp, dp, y, before, lines, done);
      s := s + sp;
    }
  }

  method CopyBandAt(ymul: nat, src: array<Pixel>, ghost sAt: nat, s: nat, dst: array<Pixel>, ghost dAt: nat, d: nat,
      sw: nat, ghost sh: nat, ghost sp: nat, dp: nat, ghost y: nat,
      ghost before: seq<Pixel>, ghost lines: seq<Line>, ghost done: seq<nat>) returns (d': nat, ghost done': seq<nat>)
    requires ymul > 0 && src != dst && y < sh
    requires Ready(lines, Plain(1, ymul), dAt, dp, src[..], sAt, sp, sw, sh)
    requires BandsDone(Plain(1, ymul), before, dst[..], lines, done, y)
    requires s == Along(sAt, sp, y) && d == Along(dAt, dp, RowNo(Plain(1, ymul), y, 0))
    modifies dst
    ensures BandsDone(Plain(1, ymul), before, dst[..], lines, done', y + 1)
    ensures d' == Along(dAt, dp, RowNo(Plain(1, ymul), y + 1, 0))
  {
    ghost var p := RowNo(Plain(1, ymul), y, 0);
    NextBand(lines, Plain(1, ymul), dAt, dp, src[..], sAt, sp, sw, sh, y, p, s, d);
    d', done' := CopyBand(ymul, src, s, dst, d, dp, sw, before, lines, done, p);
  }

  method CopyBand(ymul: nat, src: array<Pixel>, s: nat, dst: array<Pixel>, d: nat, dp: nat, sw: nat,
                  ghost before: seq<Pixel>, ghost lines: seq<Line>, ghost done: seq<nat>, ghost p: nat)
    returns (next: nat, ghost done': seq<nat>)
    requires src != dst && s + sw <= src.Length
    requires Shows(before, dst[..], lines, done) && DoneUpTo(lines, done, p)
    requires Band(lines, p, Plain(1, ymul), d, dp, src[..], s, sw)
    modifies dst
    ensures Shows(before, dst[..], lines, done') && DoneUpTo(lines, done', p + ymul)
    ensures next == Along(d, dp, ymul)
  {
    ghost var k := Plain(1, ymul);
    done', next := done, d;
    for i := 0 to ymul
      invariant Shows(before, dst[..], lines, done') && DoneUpTo(lines, done', p + i)
      invariant next == Along(d, dp, i)
    {
      assert BandLine(lines[p + i], k, i, d, dp, src[..], s, sw);
      CopyOut(ymul, i, src[..], s, sw);
      done' := StorePiece(dst, next, src[s..s + sw], k, i, src[..], s, sw, 0, sw, before, lines, done', p + i);
      next := next + dp;
    }
  }
}
