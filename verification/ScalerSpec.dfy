/** Integer scaling of 16-bit frames, as plain pixel replication.

    Memory is a row of 16-bit pixels; a kernel turns one source pixel into a block of
    `w` by `h` pixels, possibly darkening some of them. Pitches are counted in pixels. */
module ScalerSpec {

  type Pixel = p: int | 0 <= p < 0x1_0000

  /** `shade(rx, ry, p)` is the pixel at column `rx` and row `ry` of the block of source pixel `p`. */
  datatype Kernel = Kernel(w: nat, h: nat, shade: (nat, nat, Pixel) -> Pixel)

  const Same: (nat, nat, Pixel) -> Pixel := (rx, ry, p) => p

  function Plain(w: nat, h: nat): Kernel { Kernel(w, h, Same) }

  // ---------- products, one factor at a time ----------

  /** `m` steps of `n` from `at`: the address `at + n * m`. */
  function Along(at: nat, n: nat, m: nat): (r: nat)
    ensures r >= at
    decreases m
  {
    if m == 0 then at else Along(at, n, m - 1) + n
  }

  lemma {:induction false} AlongIs(at: nat, n: nat, m: nat)
    ensures Along(at, n, m) == at + n * m
    decreases m
  {
    if m > 0 {
      AlongIs(at, n, m - 1);
      assert n * m == n * (m - 1) + n;
    }
  }

  lemma {:induction false} AlongAdd(at: nat, n: nat, a: nat, b: nat)
    ensures Along(at, n, a + b) == at + Along(0, n, a) + Along(0, n, b)
    decreases a + b
  {
    if b > 0 { AlongAdd(at, n, a, b - 1); }
    else if a > 0 { AlongAdd(at, n, a - 1, 0); }
  }

  lemma AlongSplit(at: nat, n: nat, a: nat, b: nat)
    ensures Along(Along(at, n, a), n, b) == Along(at, n, a + b)
  {
    AlongAdd(at, n, a, b);
    AlongAdd(at, n, a, 0);
    AlongAdd(Along(at, n, a), n, 0, b);
  }

  lemma AlongMono(at: nat, n: nat, a: nat, b: nat)
    requires a <= b
    ensures Along(at, n, a) <= Along(at, n, b)
  {
    AlongSplit(at, n, a, b - a);
  }

  // ---------- lines of pixels in memory ----------

  /** A run of pixels and the address it belongs at. */
  datatype Line = Line(at: nat, px: seq<Pixel>)

  /** Line `r` reaches address `i` with its first `n` pixels. */
  predicate Reaches(line: Line, n: nat, i: int) { line.at <= i < line.at + n }

  /** The lines lie in order inside `size` pixels and do not overlap. */
  predicate Apart(lines: seq<Line>, size: nat) {
    && (forall r :: 0 <= r < |lines| ==> lines[r].at + |lines[r].px| <= size)
    && (forall r, q :: 0 <= r < q < |lines| ==> lines[r].at + |lines[r].px| <= lines[q].at)
  }

  predicate Progress(lines: seq<Line>, done: seq<nat>) {
    |done| == |lines| && forall r :: 0 <= r < |lines| ==> done[r] <= |lines[r].px|
  }

  /** `after` is `before` with the first `done[r]` pixels of every line `r` written, and no other change. */
  predicate Shows(before: seq<Pixel>, after: seq<Pixel>, lines: seq<Line>, done: seq<nat>) {
    && |after| == |before| && Apart(lines, |before|) && Progress(lines, done)
    && (forall r, c :: 0 <= r < |lines| && 0 <= c < done[r] ==> after[lines[r].at + c] == lines[r].px[c])
    && (forall i :: 0 <= i < |after| && (forall r :: 0 <= r < |lines| ==> !Reaches(lines[r], done[r], i))
                    ==> after[i] == before[i])
  }

  /** Writing the next pixels of a line. */
  lemma ShowsStep(before: seq<Pixel>, mid: seq<Pixel>, after: seq<Pixel>, lines: seq<Line>, done: seq<nat>,
                  r: nat, run: seq<Pixel>)
    requires Shows(before, mid, lines, done) && |after| == |mid|
    requires r < |lines| && done[r] + |run| <= |lines[r].px|
    requires forall c :: 0 <= c < |run| ==> run[c] == lines[r].px[done[r] + c]
    requires forall c :: 0 <= c < |run| ==> after[lines[r].at + done[r] + c] == run[c]
    requires forall i :: 0 <= i < |mid| && !(lines[r].at + done[r] <= i < lines[r].at + done[r] + |run|)
                         ==> after[i] == mid[i]
    ensures Shows(before, after, lines, done[r := done[r] + |run|])
  {
    var done' := done[r := done[r] + |run|];
    forall q, c | 0 <= q < |lines| && 0 <= c < done'[q]
      ensures after[lines[q].at + c] == lines[q].px[c]
    {
      if q == r && c >= done[r] {
        assert after[lines[r].at + done[r] + (c - done[r])] == run[c - done[r]];
      } else {
        assert mid[lines[q].at + c] == lines[q].px[c];
      }
    }
    forall i | 0 <= i < |after| && (forall q :: 0 <= q < |lines| ==> !Reaches(lines[q], done'[q], i))
      ensures after[i] == before[i]
    {
      assert !Reaches(lines[r], done'[r], i);
      forall q | 0 <= q < |lines| ensures !Reaches(lines[q], done[q], i) {
        assert !Reaches(lines[q], done'[q], i);
      }
    }
  }

  // ---------- the lines of a scaled frame ----------

  function PixelAt(src: seq<Pixel>, i: nat): Pixel { if i < |src| then src[i] else 0 }

  /** The width of the output of `n` source pixels. */
  function Wide(k: Kernel, n: nat): nat { Along(0, k.w, n) }

  /** The number of the output row that is row `ry` of the band of source row `y`. */
  function RowNo(k: Kernel, y: nat, ry: nat): nat { Along(0, k.h, y) + ry }

  /** `px` is row `ry` of the output of the `n` source pixels from `from` on: columns x * w to
      x * w + w - 1 are the shades of source pixel x. */
  predicate OutRow(px: seq<Pixel>, k: Kernel, ry: nat, src: seq<Pixel>, from: nat, n: nat) {
    && |px| == Wide(k, n)
    && (forall x, rx :: 0 <= x < n && 0 <= rx < k.w ==> Column(px, k, x, rx) == k.shade(rx, ry, PixelAt(src, from + x)))
  }

  function Column(px: seq<Pixel>, k: Kernel, x: nat, rx: nat): Pixel { PixelAt(px, Wide(k, x) + rx) }

  predicate FrameLines(lines: seq<Line>, k: Kernel, at: nat, dp: nat,
                       src: seq<Pixel>, from: nat, sp: nat, sw: nat, sh: nat) {
    && |lines| == RowNo(k, sh, 0)
    && (forall r :: 0 <= r < |lines| ==> lines[r].at == Along(at, dp, r) && |lines[r].px| == Wide(k, sw))
    && (forall y, ry :: 0 <= y < sh && 0 <= ry < k.h ==>
          RowNo(k, y, ry) < |lines| && OutRow(lines[RowNo(k, y, ry)].px, k, ry, src, Along(from, sp, y), sw))
  }

  lemma WideInside(k: Kernel, n: nat, x: nat, rx: nat)
    requires x < n && rx < k.w
    ensures Wide(k, x) + rx < Wide(k, n)
  {
    AlongMono(0, k.w, x + 1, n);
  }

  lemma {:induction false} MakeRow(k: Kernel, ry: nat, src: seq<Pixel>, from: nat, n: nat) returns (px: seq<Pixel>)
    ensures OutRow(px, k, ry, src, from, n)
    decreases n
  {
    px := [];
    if n > 0 {
      var init := MakeRow(k, ry, src, from, n - 1);
      var p := PixelAt(src, from + n - 1);
      var block := MakeBlock(k, ry, p, k.w);
      px := init + block;
      forall x, rx | 0 <= x < n && 0 <= rx < k.w
        ensures Column(px, k, x, rx) == k.shade(rx, ry, PixelAt(src, from + x))
      {
        if x < n - 1 {
          WideInside(k, n - 1, x, rx);
          assert Column(init, k, x, rx) == k.shade(rx, ry, PixelAt(src, from + x));
        }
      }
    }
  }

  lemma {:induction false} MakeBlock(k: Kernel, ry: nat, p: Pixel, w: nat) returns (px: seq<Pixel>)
    ensures |px| == w && forall rx :: 0 <= rx < w ==> px[rx] == k.shade(rx, ry, p)
  {
    px := [];
    if w > 0 {
      px := MakeBlock(k, ry, p, w - 1);
      px := px + [k.shade(w - 1, ry, p)];
    }
  }

  lemma {:induction false} MakeBand(k: Kernel, at: nat, dp: nat, base: nat,
                                    src: seq<Pixel>, from: nat, sw: nat, h: nat) returns (band: seq<Line>)
    ensures |band| == h
    ensures forall r :: 0 <= r < h ==> band[r].at == Along(at, dp, base + r) && OutRow(band[r].px, k, r, src, from, sw)
  {
    band := [];
    if h > 0 {
      band := MakeBand(k, at, dp, base, src, from, sw, h - 1);
      var px := MakeRow(k, h - 1, src, from, sw);
      band := band + [Line(Along(at, dp, base + h - 1), px)];
    }
  }

  lemma RowNoMono(k: Kernel, y: nat, ry: nat, sh: nat)
    requires y < sh && ry < k.h
    ensures RowNo(k, y, ry) < RowNo(k, sh, 0)
  {
    AlongMono(0, k.h, y + 1, sh);
  }

  lemma {:induction false} MakeLines(k: Kernel, at: nat, dp: nat, src: seq<Pixel>, from: nat, sp: nat, sw: nat, sh: nat)
    returns (lines: seq<Line>)
    ensures FrameLines(lines, k, at, dp, src, from, sp, sw, sh)
    decreases sh
  {
    lines := [];
    if sh > 0 {
      var upper := MakeLines(k, at, dp, src, from, sp, sw, sh - 1);
      var band := MakeBand(k, at, dp, |upper|, src, Along(from, sp, sh - 1), sw, k.h);
      lines := upper + band;
      forall r | 0 <= r < |lines| ensures lines[r].at == Along(at, dp, r) && |lines[r].px| == Wide(k, sw) {
        if r < |upper| { assert lines[r] == upper[r]; } else { assert lines[r] == band[r - |upper|]; }
      }
      forall y, ry | 0 <= y < sh && 0 <= ry < k.h
        ensures RowNo(k, y, ry) < |lines| && OutRow(lines[RowNo(k, y, ry)].px, k, ry, src, Along(from, sp, y), sw)
      {
        if y < sh - 1 {
          RowNoMono(k, y, ry, sh - 1);
          assert lines[RowNo(k, y, ry)] == upper[RowNo(k, y, ry)];
        } else {
          assert lines[RowNo(k, y, ry)] == band[ry];
        }
      }
    }
  }

  /** The frame of `sh` rows lies inside memories of these sizes, and its rows do not overlap. */
  predicate Fits(k: Kernel, at: nat, dp: nat, size: nat, from: nat, sp: nat, srcSize: nat, sw: nat, sh: nat) {
    && k.w * sw <= dp
    && (sh > 0 ==> from + sp * (sh - 1) + sw <= srcSize)
    && (k.h * sh > 0 ==> at + dp * (k.h * sh - 1) + k.w * sw <= size)
  }

  lemma FitsBound(k: Kernel, at: nat, dp: nat, size: nat, from: nat, sp: nat, srcSize: nat, sw: nat, sh: nat)
    requires Fits(k, at, dp, size, from, sp, srcSize, sw, sh)
    ensures Wide(k, sw) <= dp
    ensures RowNo(k, sh, 0) > 0 ==> Along(at, dp, RowNo(k, sh, 0) - 1) + Wide(k, sw) <= size
  {
    AlongIs(0, k.w, sw);
    AlongIs(0, k.h, sh);
    if RowNo(k, sh, 0) > 0 { AlongIs(at, dp, RowNo(k, sh, 0) - 1); }
  }

  lemma FitsApart(lines: seq<Line>, k: Kernel, at: nat, dp: nat, size: nat,
                  src: seq<Pixel>, from: nat, sp: nat, sw: nat, sh: nat)
    requires Fits(k, at, dp, size, from, sp, |src|, sw, sh)
    requires FrameLines(lines, k, at, dp, src, from, sp, sw, sh)
    ensures Apart(lines, size)
  {
    FitsBound(k, at, dp, size, from, sp, |src|, sw, sh);
    forall r | 0 <= r < |lines| ensures lines[r].at + |lines[r].px| <= size {
      AlongMono(at, dp, r, |lines| - 1);
    }
    forall r, q | 0 <= r < q < |lines| ensures lines[r].at + |lines[r].px| <= lines[q].at {
      AlongMono(at, dp, r + 1, q);
    }
  }

  lemma FitsSource(k: Kernel, at: nat, dp: nat, size: nat, srcSize: nat, from: nat, sp: nat, sw: nat, sh: nat, y: nat)
    requires Fits(k, at, dp, size, from, sp, srcSize, sw, sh) && y < sh
    ensures Along(from, sp, y) + sw <= srcSize
  {
    AlongMono(from, sp, y, sh - 1);
    AlongIs(from, sp, sh - 1);
  }

  // ---------- what a written frame is, pixel by pixel ----------

  /** The address of the pixel at column `rx` and row `ry` of the block of source pixel (x, y). */
  function Spot(k: Kernel, at: nat, dp: nat, y: nat, ry: nat, x: nat, rx: nat): nat {
    Along(at, dp, RowNo(k, y, ry)) + Wide(k, x) + rx
  }

  predicate InRow(k: Kernel, at: nat, dp: nat, sw: nat, y: nat, ry: nat, i: int) {
    Along(at, dp, RowNo(k, y, ry)) <= i < Along(at, dp, RowNo(k, y, ry)) + Wide(k, sw)
  }

  /** Every source pixel has become its block of shades, and no other destination pixel has changed. */
  predicate IsFrame(k: Kernel, before: seq<Pixel>, after: seq<Pixel>, at: nat, dp: nat,
                    src: seq<Pixel>, from: nat, sp: nat, sw: nat, sh: nat) {
    && |after| == |before|
    && (forall y, ry, x, rx :: 0 <= y < sh && 0 <= ry < k.h && 0 <= x < sw && 0 <= rx < k.w ==>
          PixelAt(after, Spot(k, at, dp, y, ry, x, rx)) == k.shade(rx, ry, PixelAt(src, Along(from, sp, y) + x)))
    && (forall i :: 0 <= i < |after|
          && (forall y, ry :: 0 <= y < sh && 0 <= ry < k.h ==> !InRow(k, at, dp, sw, y, ry, i))
          ==> after[i] == before[i])
  }

  predicate AllDone(lines: seq<Line>, done: seq<nat>) {
    |done| == |lines| && forall r :: 0 <= r < |lines| ==> done[r] == |lines[r].px|
  }

  lemma FrameShown(k: Kernel, before: seq<Pixel>, after: seq<Pixel>, lines: seq<Line>, done: seq<nat>,
                   at: nat, dp: nat, src: seq<Pixel>, from: nat, sp: nat, sw: nat, sh: nat)
    requires FrameLines(lines, k, at, dp, src, from, sp, sw, sh)
    requires Shows(before, after, lines, done) && AllDone(lines, done)
    ensures IsFrame(k, before, after, at, dp, src, from, sp, sw, sh)
  {
    forall y, ry, x, rx | 0 <= y < sh && 0 <= ry < k.h && 0 <= x < sw && 0 <= rx < k.w
      ensures PixelAt(after, Spot(k, at, dp, y, ry, x, rx)) == k.shade(rx, ry, PixelAt(src, Along(from, sp, y) + x))
    {
      var line := lines[RowNo(k, y, ry)];
      WideInside(k, sw, x, rx);
      assert after[line.at + (Wide(k, x) + rx)] == line.px[Wide(k, x) + rx];
      assert Column(line.px, k, x, rx) == k.shade(rx, ry, PixelAt(src, Along(from, sp, y) + x));
    }
    forall i | 0 <= i < |after| && (forall y, ry :: 0 <= y < sh && 0 <= ry < k.h ==> !InRow(k, at, dp, sw, y, ry, i))
      ensures after[i] == before[i]
    {
      forall r | 0 <= r < |lines| ensures !Reaches(lines[r], done[r], i) {
        var y, ry := SplitRow(k, sh, r);
        assert !InRow(k, at, dp, sw, y, ry, i);
      }
    }
  }

  /** Every output row belongs to one band. */
  lemma {:induction false} SplitRow(k: Kernel, sh: nat, r: nat) returns (y: nat, ry: nat)
    requires r < RowNo(k, sh, 0)
    ensures y < sh && ry < k.h && r == RowNo(k, y, ry)
    decreases sh
  {
    if r < RowNo(k, sh - 1, 0) {
      y, ry := SplitRow(k, sh - 1, r);
    } else {
      y, ry := sh - 1, r - RowNo(k, sh - 1, 0);
    }
  }

  lemma {:induction false} SplitColumn(k: Kernel, sw: nat, c: nat) returns (x: nat, rx: nat)
    requires c < Wide(k, sw)
    ensures x < sw && rx < k.w && c == Wide(k, x) + rx
    decreases sw
  {
    if c < Wide(k, sw - 1) {
      x, rx := SplitColumn(k, sw - 1, c);
    } else {
      x, rx := sw - 1, c - Wide(k, sw - 1);
    }
  }

  /** The frame determines the memory: two programs that write it agree on every pixel. */
  lemma FrameUnique(k: Kernel, before: seq<Pixel>, a: seq<Pixel>, b: seq<Pixel>, at: nat, dp: nat,
                    src: seq<Pixel>, from: nat, sp: nat, sw: nat, sh: nat)
    requires IsFrame(k, before, a, at, dp, src, from, sp, sw, sh)
    requires IsFrame(k, before, b, at, dp, src, from, sp, sw, sh)
    ensures a == b
  {
    forall i | 0 <= i < |a| ensures a[i] == b[i] {
      if y, ry :| 0 <= y < sh && 0 <= ry < k.h && InRow(k, at, dp, sw, y, ry, i) {
        var x, rx := SplitColumn(k, sw, i - Along(at, dp, RowNo(k, y, ry)));
        assert i == Spot(k, at, dp, y, ry, x, rx);
        assert PixelAt(a, i) == PixelAt(b, i);
      }
    }
  }

  /** The same in closed form: source pixel (x, y) becomes the block of destination pixels from
      column x * w and row y * h on. */
  lemma FramePixel(k: Kernel, before: seq<Pixel>, after: seq<Pixel>, at: nat, dp: nat,
                   src: seq<Pixel>, from: nat, sp: nat, sw: nat, sh: nat,
                   x: nat, y: nat, rx: nat, ry: nat, i: int, s: int)
    requires Fits(k, at, dp, |before|, from, sp, |src|, sw, sh)
    requires IsFrame(k, before, after, at, dp, src, from, sp, sw, sh)
    requires x < sw && y < sh && rx < k.w && ry < k.h
    requires i == at + dp * (k.h * y + ry) + (k.w * x + rx) && s == from + sp * y + x
    ensures 0 <= i < |after| && 0 <= s < |src| && after[i] == k.shade(rx, ry, src[s])
  {
    assert i == Spot(k, at, dp, y, ry, x, rx) && s == Along(from, sp, y) + x by {
      AlongIs(0, k.h, y);
      AlongIs(at, dp, RowNo(k, y, ry));
      AlongIs(0, k.w, x);
      AlongIs(from, sp, y);
    }
    FitsSource(k, at, dp, |before|, |src|, from, sp, sw, sh, y);
    assert i < |after| by {
      FitsBound(k, at, dp, |before|, from, sp, |src|, sw, sh);
      RowNoMono(k, y, ry, sh);
      AlongMono(at, dp, RowNo(k, y, ry), RowNo(k, sh, 0) - 1);
      WideInside(k, sw, x, rx);
    }
  }

  // ---------- the same in bytes ----------

  /** Replicating `sh` rows of `w` pixels `n` by `h` times, with pitches in bytes: every source pixel arrives at
      each of its places, and no pixel outside the rows changes. */
  ghost predicate Replicated(n: nat, h: nat, before: seq<Pixel>, after: seq<Pixel>, dAt: nat, dBytes: nat,
                             src: seq<Pixel>, sAt: nat, sBytes: nat, w: nat, sh: nat) {
    && |after| == |before|
    && (forall x: nat, y: nat, rx: nat, ry: nat :: x < w && y < sh && rx < n && ry < h ==>
          Moved(n, h, after, dAt, dBytes, src, sAt, sBytes, x, y, rx, ry))
    && (forall i: nat :: i < |after| && after[i] != before[i] ==>
          exists y: nat, ry: nat :: y < sh && ry < h && InBytes(h, dAt, dBytes, 2 * (n * w), y, ry, i))
  }

  predicate Moved(n: nat, h: nat, after: seq<Pixel>, dAt: nat, dBytes: nat, src: seq<Pixel>, sAt: nat, sBytes: nat,
                  x: nat, y: nat, rx: nat, ry: nat) {
    var i, s := 2 * dAt + dBytes * (h * y + ry) + 2 * (n * x + rx), 2 * sAt + sBytes * y + 2 * x;
    i % 2 == 0 && s % 2 == 0 && i / 2 < |after| && s / 2 < |src| && after[i / 2] == src[s / 2]
  }

  /** Pixel `i` lies in the first `bytes` bytes of row `ry` of the band of source row `y`. */
  predicate InBytes(h: nat, dAt: nat, dBytes: nat, bytes: nat, y: nat, ry: nat, i: nat) {
    var row := 2 * dAt + dBytes * (h * y + ry);
    row <= 2 * i < row + bytes
  }

  /** The rows lie inside memories of these sizes, and those of the destination do not overlap. */
  predicate FitsBytes(n: nat, h: nat, dAt: nat, dBytes: nat, size: nat, sAt: nat, sBytes: nat, srcSize: nat, w: nat, sh: nat) {
    && 2 * (n * w) <= dBytes
    && (sh > 0 ==> 2 * sAt + sBytes * (sh - 1) + 2 * w <= 2 * srcSize)
    && (h * sh > 0 ==> 2 * dAt + dBytes * (h * sh - 1) + 2 * (n * w) <= 2 * size)
  }

  lemma FitsHalved(n: nat, h: nat, dAt: nat, dp: nat, size: nat, sAt: nat, sp: nat, srcSize: nat, w: nat, sh: nat)
    requires FitsBytes(n, h, dAt, 2 * dp, size, sAt, 2 * sp, srcSize, w, sh)
    ensures Fits(Plain(n, h), dAt, dp, size, sAt, sp, srcSize, w, sh)
  {
    if sh > 0 { Doubled(sAt, sp, sh - 1, w); }
    if h * sh > 0 { Doubled(dAt, dp, h * sh - 1, n * w); }
  }

  /** Pitches in pixels are half those in bytes. */
  lemma {:induction false} FrameReplicated(n: nat, h: nat, before: seq<Pixel>, after: seq<Pixel>, at: nat, dp: nat,
                        src: seq<Pixel>, from: nat, sp: nat, sw: nat, sh: nat, dBytes: nat, sBytes: nat)
    requires Fits(Plain(n, h), at, dp, |before|, from, sp, |src|, sw, sh)
    requires IsFrame(Plain(n, h), before, after, at, dp, src, from, sp, sw, sh)
    requires dBytes == 2 * dp && sBytes == 2 * sp
    ensures Replicated(n, h, before, after, at, dBytes, src, from, sBytes, sw, sh)
  {
    forall x: nat, y: nat, rx: nat, ry: nat | x < sw && y < sh && rx < n && ry < h
      ensures Moved(n, h, after, at, dBytes, src, from, sBytes, x, y, rx, ry)
    {
      PixelMoved(n, h, before, after, at, dp, src, from, sp, sw, sh, x, y, rx, ry);
    }
    forall i: nat | i < |after| && after[i] != before[i]
      ensures exists y: nat, ry: nat :: y < sh && ry < h && InBytes(h, at, dBytes, 2 * (n * sw), y, ry, i)
    {
      var y: nat, ry: nat :| y < sh && ry < h && InRow(Plain(n, h), at, dp, sw, y, ry, i);
      RowInBytes(n, h, at, dp, sw, y, ry, i);
    }
  }

  lemma {:induction false} PixelMoved(n: nat, h: nat, before: seq<Pixel>, after: seq<Pixel>, at: nat, dp: nat,
                   src: seq<Pixel>, from: nat, sp: nat, sw: nat, sh: nat, x: nat, y: nat, rx: nat, ry: nat)
    requires Fits(Plain(n, h), at, dp, |before|, from, sp, |src|, sw, sh)
    requires IsFrame(Plain(n, h), before, after, at, dp, src, from, sp, sw, sh)
    requires x < sw && y < sh && rx < n && ry < h
    ensures Moved(n, h, after, at, 2 * dp, src, from, 2 * sp, x, y, rx, ry)
  {
    var i, s := at + dp * (h * y + ry) + (n * x + rx), from + sp * y + x;
    assert after[i] == src[s] by { FramePixel(Plain(n, h), before, after, at, dp, src, from, sp, sw, sh, x, y, rx, ry, i, s); }
    Doubled(at, dp, h * y + ry, n * x + rx);
    Doubled(from, sp, y, x);
    MovedTo(n, h, after, at, 2 * dp, src, from, 2 * sp, x, y, rx, ry, i, s);
  }

  lemma MovedTo(n: nat, h: nat, after: seq<Pixel>, dAt: nat, dBytes: nat, src: seq<Pixel>, sAt: nat, sBytes: nat,
                x: nat, y: nat, rx: nat, ry: nat, i: nat, s: nat)
    requires 2 * i == 2 * dAt + dBytes * (h * y + ry) + 2 * (n * x + rx) && 2 * s == 2 * sAt + sBytes * y + 2 * x
    requires i < |after| && s < |src| && after[i] == src[s]
    ensures Moved(n, h, after, dAt, dBytes, src, sAt, sBytes, x, y, rx, ry)
  {
  }

  lemma {:induction false} RowInBytes(n: nat, h: nat, at: nat, dp: nat, sw: nat, y: nat, ry: nat, i: nat)
    requires InRow(Plain(n, h), at, dp, sw, y, ry, i)
    ensures InBytes(h, at, 2 * dp, 2 * (n * sw), y, ry, i)
  {
    AlongIs(0, h, y);
    AlongIs(at, dp, RowNo(Plain(n, h), y, ry));
    AlongIs(0, n, sw);
    Doubled(at, dp, h * y + ry, 0);
  }

  lemma Doubled(at: nat, pitch: nat, row: nat, column: nat)
    ensures 2 * (at + pitch * row + column) == 2 * at + 2 * pitch * row + 2 * column
  {
  }

  // ---------- what the programs use to build lines ----------

  /** A correct piece of output is the continuation of the line it belongs to. */
  lemma PieceFits(px: seq<Pixel>, run: seq<Pixel>, k: Kernel, ry: nat, src: seq<Pixel>, from: nat, sw: nat, x: nat, n: nat)
    requires OutRow(px, k, ry, src, from, sw) && x + n <= sw
    requires OutRow(run, k, ry, src, from + x, n)
    ensures Wide(k, x) + |run| == Wide(k, x + n) <= |px|
    ensures forall c :: 0 <= c < |run| ==> run[c] == px[Wide(k, x) + c]
  {
    AlongAdd(0, k.w, x, n);
    AlongMono(0, k.w, x + n, sw);
    forall c | 0 <= c < |run| ensures run[c] == px[Wide(k, x) + c] {
      var j, rx := SplitColumn(k, n, c);
      AlongAdd(0, k.w, x, j);
      assert Column(run, k, j, rx) == Column(px, k, x + j, rx);
    }
  }

  /** Without an effect all rows of a band are equal. */
  lemma PlainRowsEqual(a: seq<Pixel>, b: seq<Pixel>, k: Kernel, ra: nat, rb: nat, src: seq<Pixel>, from: nat, sw: nat)
    requires k.shade == Same
    requires OutRow(a, k, ra, src, from, sw) && OutRow(b, k, rb, src, from, sw)
    ensures a == b
  {
    forall c | 0 <= c < |a| ensures a[c] == b[c] {
      var x, rx := SplitColumn(k, sw, c);
      assert Column(a, k, x, rx) == Column(b, k, x, rx);
    }
  }

  /** The first `p` lines are complete and the others not begun. */
  predicate DoneUpTo(lines: seq<Line>, done: seq<nat>, p: nat) {
    |done| == |lines| && forall r :: 0 <= r < |lines| ==> done[r] == if r < p then |lines[r].px| else 0
  }

  lemma NothingDone(n: nat) returns (done: seq<nat>)
    ensures |done| == n && forall r :: 0 <= r < n ==> done[r] == 0
  {
    done := [];
    if n > 0 {
      done := NothingDone(n - 1);
      done := done + [0];
    }
  }

  /** Writes the next pixels of line `r`. */
  method Store(dst: array<Pixel>, at: nat, run: seq<Pixel>,
               ghost before: seq<Pixel>, ghost lines: seq<Line>, ghost done: seq<nat>, ghost r: nat)
    returns (ghost done': seq<nat>)
    requires Shows(before, dst[..], lines, done)
    requires r < |lines| && at == lines[r].at + done[r] && done[r] + |run| <= |lines[r].px|
    requires forall c :: 0 <= c < |run| ==> run[c] == lines[r].px[done[r] + c]
    modifies dst
    ensures done' == done[r := done[r] + |run|] && Shows(before, dst[..], lines, done')
  {
    ghost var mid := dst[..];
    forall c | 0 <= c < |run| { dst[at + c] := run[c]; }
    ShowsStep(before, mid, dst[..], lines, done, r, run);
    done' := done[r := done[r] + |run|];
  }

  /** Writes the output of `n` more source pixels on line `r`, which already shows `x` of them. */
  method StorePiece(dst: array<Pixel>, at: nat, run: seq<Pixel>,
                    ghost k: Kernel, ghost ry: nat, ghost src: seq<Pixel>, ghost from: nat, ghost sw: nat,
                    ghost x: nat, ghost n: nat,
                    ghost before: seq<Pixel>, ghost lines: seq<Line>, ghost done: seq<nat>, ghost r: nat)
    returns (ghost done': seq<nat>)
    requires Shows(before, dst[..], lines, done) && r < |lines| && OutRow(lines[r].px, k, ry, src, from, sw)
    requires x + n <= sw && done[r] == Wide(k, x) && at == lines[r].at + done[r]
    requires OutRow(run, k, ry, src, from + x, n)
    modifies dst
    ensures done' == done[r := Wide(k, x + n)] && Shows(before, dst[..], lines, done')
  {
    PieceFits(lines[r].px, run, k, ry, src, from, sw, x, n);
    done' := Store(dst, at, run, before, lines, done, r);
  }

  // ---------- one band of a frame ----------

  predicate BandLine(line: Line, k: Kernel, i: nat, d: nat, dp: nat, src: seq<Pixel>, s: nat, sw: nat) {
    line.at == Along(d, dp, i) && OutRow(line.px, k, i, src, s, sw)
  }

  /** Lines p, p + 1, ... are the rows of the band of the source row at `s`, from address `d` on. */
  predicate Band(lines: seq<Line>, p: nat, k: Kernel, d: nat, dp: nat, src: seq<Pixel>, s: nat, sw: nat) {
    p + k.h <= |lines| && forall r :: p <= r < p + k.h ==> BandLine(lines[r], k, r - p, d, dp, src, s, sw)
  }

  lemma FrameBand(lines: seq<Line>, k: Kernel, at: nat, dp: nat, src: seq<Pixel>, from: nat, sp: nat, sw: nat, sh: nat, y: nat)
    requires FrameLines(lines, k, at, dp, src, from, sp, sw, sh) && y < sh
    ensures Band(lines, RowNo(k, y, 0), k, Along(at, dp, RowNo(k, y, 0)), dp, src, Along(from, sp, y), sw)
  {
    AlongMono(0, k.h, y + 1, sh);
    var p := RowNo(k, y, 0);
    forall r | p <= r < p + k.h
      ensures BandLine(lines[r], k, r - p, Along(at, dp, p), dp, src, Along(from, sp, y), sw)
    {
      assert r == RowNo(k, y, r - p);
      AlongSplit(at, dp, p, r - p);
    }
  }

  /** The lines of a frame whose source rows all lie inside the source. */
  predicate Ready(lines: seq<Line>, k: Kernel, at: nat, dp: nat, src: seq<Pixel>, from: nat, sp: nat, sw: nat, sh: nat) {
    && FrameLines(lines, k, at, dp, src, from, sp, sw, sh)
    && forall y :: 0 <= y < sh ==> Along(from, sp, y) + sw <= |src|
  }

  /** Everything a loop over the source rows needs to know about band y, and where it goes next. */
  lemma NextBand(lines: seq<Line>, k: Kernel, at: nat, dp: nat, src: seq<Pixel>, from: nat, sp: nat,
                 sw: nat, sh: nat, y: nat, p: nat, s: nat, d: nat)
    requires Ready(lines, k, at, dp, src, from, sp, sw, sh)
    requires y < sh && p == RowNo(k, y, 0) && s == Along(from, sp, y) && d == Along(at, dp, p)
    ensures Band(lines, p, k, d, dp, src, s, sw) && s + sw <= |src|
    ensures p + k.h == RowNo(k, y + 1, 0) && s + sp == Along(from, sp, y + 1)
    ensures Along(d, dp, k.h) == Along(at, dp, p + k.h)
  {
    FrameBand(lines, k, at, dp, src, from, sp, sw, sh, y);
    AlongSplit(at, dp, p, k.h);
  }

  // ---------- rows of a band written together ----------

  /** Lines p to p + h - 1 each show the output of the first x source pixels. */
  predicate Level(lines: seq<Line>, done: seq<nat>, p: nat, k: Kernel, x: nat) {
    && |done| == |lines| && p + k.h <= |lines|
    && forall r :: 0 <= r < |lines| ==>
         done[r] == if r < p then |lines[r].px| else if r < p + k.h then Wide(k, x) else 0
  }

  lemma LevelDone(lines: seq<Line>, done: seq<nat>, p: nat, k: Kernel, d: nat, dp: nat, src: seq<Pixel>, s: nat, sw: nat)
    requires Level(lines, done, p, k, sw) && Band(lines, p, k, d, dp, src, s, sw)
    ensures DoneUpTo(lines, done, p + k.h)
  {
    forall r | 0 <= r < |lines| ensures done[r] == if r < p + k.h then |lines[r].px| else 0 {
      if p <= r < p + k.h { assert BandLine(lines[r], k, r - p, d, dp, src, s, sw); }
    }
  }

  // ---------- frames, band by band ----------

  /** The bands of the first `y` source rows are complete and nothing else has been written. */
  predicate BandsDone(k: Kernel, before: seq<Pixel>, after: seq<Pixel>, lines: seq<Line>, done: seq<nat>, y: nat) {
    Shows(before, after, lines, done) && DoneUpTo(lines, done, RowNo(k, y, 0))
  }

  lemma StartFrame(k: Kernel, before: seq<Pixel>, at: nat, dp: nat, src: seq<Pixel>, from: nat, sp: nat, sw: nat, sh: nat)
    returns (lines: seq<Line>, done: seq<nat>)
    requires Fits(k, at, dp, |before|, from, sp, |src|, sw, sh)
    ensures Ready(lines, k, at, dp, src, from, sp, sw, sh) && BandsDone(k, before, before, lines, done, 0)
  {
    lines := MakeLines(k, at, dp, src, from, sp, sw, sh);
    FitsApart(lines, k, at, dp, |before|, src, from, sp, sw, sh);
    done := NothingDone(|lines|);
    forall y | 0 <= y < sh ensures Along(from, sp, y) + sw <= |src| {
      FitsSource(k, at, dp, |before|, |src|, from, sp, sw, sh, y);
    }
  }

  lemma EndFrame(k: Kernel, before: seq<Pixel>, after: seq<Pixel>, lines: seq<Line>, done: seq<nat>,
                 at: nat, dp: nat, src: seq<Pixel>, from: nat, sp: nat, sw: nat, sh: nat)
    requires Ready(lines, k, at, dp, src, from, sp, sw, sh) && BandsDone(k, before, after, lines, done, sh)
    ensures IsFrame(k, before, after, at, dp, src, from, sp, sw, sh)
  {
    FrameShown(k, before, after, lines, done, at, dp, src, from, sp, sw, sh);
  }
}
