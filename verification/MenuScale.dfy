/** The menu's picture of the game: nearest-neighbour scaling in 16.16 fixed point, where a destination
    row that shows the same source row as the one above it is copied as a whole. */
module MenuScale {
  import opened Basics
  import opened ScalerSpec

  /** The part of the source that is shown, the target rectangle, and both pitches in pixels. */
  datatype Geometry = Geometry(srcX: nat, srcY: nat, sw: nat, sh: nat, sp: nat, rx: nat, ry: nat, rw: nat, rh: nat, dp: nat)

  /** The rectangle has an extent, lies inside a row, and so does the source. */
  predicate Sound(g: Geometry, source: nat, dest: nat) {
    && g.rw > 0 && g.rh > 0 && g.sw > 0 && g.sh > 0 && g.rx + g.rw <= g.dp && g.srcX + g.sw <= g.sp
    && Along(0, g.sp, g.srcY + g.sh) <= source && Along(0, g.dp, g.ry + g.rh) <= dest
  }

  // ---------- the coordinates ----------

  /** How far one destination pixel moves in the source, in 1/65536. */
  function Ratio(n: nat, r: nat): (m: nat)
    requires r > 0
  {
    RatioNat(n * 65536, r);
    n * 65536 / r
  }

  lemma RatioNat(a: nat, b: nat)
    requires b > 0
    ensures 0 <= a / b && a / b * b <= a < (a / b + 1) * b
  {
    var q := a / b;
    assert a == q * b + a % b;
    assert (q + 1) * b == q * b + b;
  }

  /** The source coordinate of destination coordinate `k`. */
  function Pick(o: nat, m: nat, k: nat): nat { o + Along(0, m, k) / 65536 }

  lemma PickShift(o: nat, x: nat)
    ensures (o * 65536 + x) / 65536 == o + x / 65536
  {
  }

  /** Along as a product, both ways round. */
  lemma AlongProduct(m: nat, k: nat)
    ensures Along(0, m, k) == k * m
  {
    AlongIs(0, m, k);
    assert m * k == k * m;
  }

  /** Every coordinate stays inside the part of the source that is shown. */
  lemma PickInside(o: nat, n: nat, r: nat, k: nat)
    requires k < r && n > 0
    ensures Pick(o, Ratio(n, r), k) < o + n
  {
    var m := Ratio(n, r);
    AlongProduct(m, k);
    RatioNat(n * 65536, r);
    MulMono(k, r - 1, m);
    assert r * m == (r - 1) * m + m && r * m == m * r;
  }

  /** The fixed-point coordinate is the exact one, floor(k * n / r), or at most one less, as long as there
      are no more than 65536 destination pixels. */
  lemma PickNearExact(n: nat, r: nat, k: nat)
    requires k < r <= 65536
    ensures Pick(0, Ratio(n, r), k) <= k * n / r <= Pick(0, Ratio(n, r), k) + 1
  {
    var m := Ratio(n, r);
    AlongProduct(m, k);
    RatioNat(n * 65536, r);
    Scaled(m, n, r, k);
    ExactBelow(k * m, k * n, r);
    ExactAbove(k * m, k * n, r, k);
  }

  lemma Scaled(m: nat, n: nat, r: nat, k: nat)
    requires m * r <= n * 65536 < (m + 1) * r
    ensures k * m * r <= k * n * 65536 <= (k * m + k) * r
  {
    MulMono(m * r, n * 65536, k);
    MulMono(n * 65536, (m + 1) * r, k);
    Commute(m, r, k);
    Commute(n, 65536, k);
    Commute(m + 1, r, k);
    assert (m + 1) * k == k * m + k;
  }

  lemma Commute(a: nat, b: nat, k: nat)
    ensures a * b * k == k * a * b == a * k * b
  {
    assert a * b * k == a * (b * k) == a * (k * b) == a * k * b;
    assert a * k == k * a;
  }

  lemma ExactBelow(a: nat, b: nat, r: nat)
    requires r > 0 && a * r <= b * 65536
    ensures a / 65536 <= b / r
  {
    var p := a / 65536;
    MulMono(p * 65536, a, r);
    assert p * 65536 * r == p * r * 65536;
    RatioNat(b, r);
    if p > b / r { MulMono(b / r + 1, p, r); }
  }

  lemma ExactAbove(a: nat, b: nat, r: nat, k: nat)
    requires r > 0 && k < 65536 && b * 65536 <= (a + k) * r
    ensures b / r <= a / 65536 + 1
  {
    var e := b / r;
    RatioNat(b, r);
    MulMono(e * r, b, 65536);
    assert e * r * 65536 == e * 65536 * r;
    assert (a + k + 1) * r == (a + k) * r + r;
    if e * 65536 > a + k { MulMono(a + k + 1, e * 65536, r); }
  }

  // ---------- the picture ----------

  function StepX(g: Geometry): nat { if g.rw > 0 then Ratio(g.sw, g.rw) else 0 }

  function StepY(g: Geometry): nat { if g.rh > 0 then Ratio(g.sh, g.rh) else 0 }

  /** The source row, and the source address, shown at a destination coordinate of the rectangle. */
  function SourceRow(g: Geometry, dy: nat): nat { Pick(g.srcY, StepY(g), dy) }

  function SourceAt(g: Geometry, dy: nat, dx: nat): nat { Along(0, g.sp, SourceRow(g, dy)) + Pick(g.srcX, StepX(g), dx) }

  function DestRow(g: Geometry, dy: nat): nat { Along(0, g.dp, g.ry + dy) }

  /** The row a destination row was copied from, directly or not. */
  function Base(g: Geometry, dy: nat): nat {
    if dy > 0 && SourceRow(g, dy) == SourceRow(g, dy - 1) then Base(g, dy - 1) else dy
  }

  /** Inside the rectangle the sampled source pixel; beside it what stood beside the row it was copied from. */
  function Want(g: Geometry, s: seq<Pixel>, before: seq<Pixel>, dy: nat, x: nat): Pixel {
    if g.rx <= x < g.rx + g.rw then PixelAt(s, SourceAt(g, dy, x - g.rx))
    else PixelAt(before, DestRow(g, Base(g, dy)) + x)
  }

  predicate RowShows(d: seq<Pixel>, g: Geometry, s: seq<Pixel>, before: seq<Pixel>, dy: nat) {
    forall x :: 0 <= x < g.dp ==> PixelAt(d, DestRow(g, dy) + x) == Want(g, s, before, dy, x)
  }

  /** The first `n` rows of the rectangle are done; nothing else has changed. */
  predicate Done(d: seq<Pixel>, g: Geometry, s: seq<Pixel>, before: seq<Pixel>, n: nat) {
    && |d| == |before|
    && (forall y :: 0 <= y < n ==> RowShows(d, g, s, before, y))
    && (forall i :: 0 <= i < |d| && (i < DestRow(g, 0) || i >= DestRow(g, n)) ==> d[i] == before[i])
  }

  lemma DoneStep(d: seq<Pixel>, d': seq<Pixel>, g: Geometry, s: seq<Pixel>, before: seq<Pixel>, n: nat)
    requires Done(d, g, s, before, n) && |d'| == |d| && RowShows(d', g, s, before, n)
    requires forall i :: 0 <= i < |d| && (i < DestRow(g, n) || i >= DestRow(g, n + 1)) ==> d'[i] == d[i]
    ensures Done(d', g, s, before, n + 1)
  {
    AlongMono(0, g.dp, g.ry, g.ry + n);
    forall y | 0 <= y < n ensures RowShows(d', g, s, before, y) {
      AlongMono(0, g.dp, g.ry + y + 1, g.ry + n);
      assert RowShows(d, g, s, before, y);
      forall x | 0 <= x < g.dp ensures PixelAt(d', DestRow(g, y) + x) == Want(g, s, before, y, x) {
        assert PixelAt(d', DestRow(g, y) + x) == PixelAt(d, DestRow(g, y) + x);
      }
    }
  }

  lemma SourceInside(g: Geometry, source: nat, dest: nat, dy: nat, dx: nat)
    requires Sound(g, source, dest) && dy < g.rh && dx < g.rw
    ensures SourceRow(g, dy) < g.srcY + g.sh && Pick(g.srcX, StepX(g), dx) < g.srcX + g.sw
    ensures SourceAt(g, dy, dx) < source
  {
    PickInside(g.srcY, g.sh, g.rh, dy);
    PickInside(g.srcX, g.sw, g.rw, dx);
    AlongMono(0, g.sp, SourceRow(g, dy) + 1, g.srcY + g.sh);
  }

  lemma DestInside(g: Geometry, source: nat, dest: nat, dy: nat)
    requires Sound(g, source, dest) && dy < g.rh
    ensures DestRow(g, dy) + g.dp == DestRow(g, dy + 1) <= dest
  {
    AlongMono(0, g.dp, g.ry + dy + 1, g.ry + g.rh);
  }

  /** A row sampled pixel by pixel. */
  method SampleRow(s: array<Pixel>, d: array<Pixel>, g: Geometry, dy: nat, sr: nat, dr: nat, mx: nat, ox: nat,
                   ghost before: seq<Pixel>)
    requires s != d && Sound(g, s.Length, d.Length) && dy < g.rh && mx == StepX(g) && ox == g.srcX * 65536
    requires sr == Along(0, g.sp, SourceRow(g, dy)) && dr == DestRow(g, dy)
    requires Base(g, dy) == dy && |before| == d.Length && forall i :: dr <= i < |before| ==> d[i] == before[i]
    modifies d
    ensures RowShows(d[..], g, s[..], before, dy)
    ensures forall i :: 0 <= i < d.Length && (i < dr || i >= dr + g.dp) ==> d[i] == old(d[i])
  {
    DestInside(g, s.Length, d.Length, dy);
    var sx := ox;
    for dx := 0 to g.rw
      invariant sx == ox + Along(0, mx, dx)
      invariant forall i :: 0 <= i < d.Length && (i < dr + g.rx || i >= dr + g.rx + dx) ==> d[i] == old(d[i])
      invariant forall k :: 0 <= k < dx ==> d[dr + g.rx + k] == PixelAt(s[..], SourceAt(g, dy, k))
    {
      SourceInside(g, s.Length, d.Length, dy, dx);
      PickShift(g.srcX, Along(0, mx, dx));
      d[dr + g.rx + dx] := s[sr + sx / 65536];
      sx := sx + mx;
    }
    forall x | 0 <= x < g.dp ensures PixelAt(d[..], dr + x) == Want(g, s[..], before, dy, x) {
      if g.rx <= x < g.rx + g.rw { assert d[dr + g.rx + (x - g.rx)] == PixelAt(s[..], SourceAt(g, dy, x - g.rx)); }
    }
  }

  /** memcpy of the whole row above, margins included. */
  method CopyRow(d: array<Pixel>, dr: nat, dp: nat)
    requires dp <= dr && dr + dp <= d.Length
    modifies d
    ensures forall i :: dr <= i < dr + dp ==> d[i] == old(d[i - dp])
    ensures forall i :: 0 <= i < d.Length && (i < dr || i >= dr + dp) ==> d[i] == old(d[i])
  {
    forall x | 0 <= x < dp { d[dr + x] := d[dr - dp + x]; }
  }

  /** One row: copied if it shows the same source row as the last, sampled otherwise. */
  method ScaleRow(s: array<Pixel>, d: array<Pixel>, g: Geometry, dy: nat, sr: nat, lr: int, dr: nat, mx: nat, ox: nat,
                  ghost before: seq<Pixel>)
    requires s != d && Sound(g, s.Length, d.Length) && dy < g.rh && mx == StepX(g) && ox == g.srcX * 65536
    requires sr == Along(0, g.sp, SourceRow(g, dy)) && dr == DestRow(g, dy)
    requires lr == if dy == 0 then -1 else Along(0, g.sp, SourceRow(g, dy - 1))
    requires Done(d[..], g, s[..], before, dy)
    modifies d
    ensures Done(d[..], g, s[..], before, dy + 1)
  {
    ghost var was := d[..];
    DestInside(g, s.Length, d.Length, dy);
    if sr == lr {
      SameRow(g, dy);
      CopyRow(d, dr, g.dp);
      CopiedShows(was, d[..], g, s[..], before, dy);
    } else {
      SampleRow(s, d, g, dy, sr, dr, mx, ox, before);
    }
    DoneStep(was, d[..], g, s[..], before, dy);
  }

  /** Menu_scale's two loops. */
  method Scale(s: array<Pixel>, d: array<Pixel>, g: Geometry)
    requires s != d && Sound(g, s.Length, d.Length)
    modifies d
    ensures Done(d[..], g, s[..], old(d[..]), g.rh)
  {
    ghost var before := d[..];
    var mx, my := g.sw * 65536 / g.rw, g.sh * 65536 / g.rh;
    var ox, sy := g.srcX * 65536, g.srcY * 65536;
    var lr: int := -1;
    AlongProduct(g.dp, g.ry);
    var dr := g.ry * g.dp;
    for dy := 0 to g.rh
      invariant mx == StepX(g) && my == StepY(g) && ox == g.srcX * 65536
      invariant sy == g.srcY * 65536 + Along(0, my, dy) && dr == DestRow(g, dy)
      invariant lr == if dy == 0 then -1 else Along(0, g.sp, SourceRow(g, dy - 1))
      invariant Done(d[..], g, s[..], before, dy)
    {
      PickShift(g.srcY, Along(0, my, dy));
      AlongProduct(g.sp, SourceRow(g, dy));
      var sr := sy / 65536 * g.sp;
      ScaleRow(s, d, g, dy, sr, lr, dr, mx, ox, before);
      lr := sr;
      sy := sy + my;
      dr := dr + g.dp;
    }
  }

  /** Equal row offsets are equal rows. */
  lemma SameRow(g: Geometry, dy: nat)
    requires dy > 0 && g.sp > 0 && Along(0, g.sp, SourceRow(g, dy)) == Along(0, g.sp, SourceRow(g, dy - 1))
    ensures SourceRow(g, dy) == SourceRow(g, dy - 1)
  {
    var a, b := SourceRow(g, dy), SourceRow(g, dy - 1);
    if b < a { AlongMono(0, g.sp, b + 1, a); }
  }

  lemma CopiedShows(d: seq<Pixel>, d': seq<Pixel>, g: Geometry, s: seq<Pixel>, before: seq<Pixel>, dy: nat)
    requires dy > 0 && RowShows(d, g, s, before, dy - 1) && SourceRow(g, dy) == SourceRow(g, dy - 1)
    requires |d| == |d'| && DestRow(g, dy) + g.dp <= |d|
    requires forall i :: DestRow(g, dy) <= i < DestRow(g, dy) + g.dp ==> d'[i] == d[i - g.dp]
    ensures RowShows(d', g, s, before, dy)
  {
    forall x | 0 <= x < g.dp ensures PixelAt(d', DestRow(g, dy) + x) == Want(g, s, before, dy, x) {
      assert PixelAt(d, DestRow(g, dy - 1) + x) == Want(g, s, before, dy - 1, x);
    }
  }

  /** On a cleared destination the picture is direct sampling in the rectangle and nothing around it. */
  lemma ClearedPicture(d: seq<Pixel>, g: Geometry, s: seq<Pixel>, before: seq<Pixel>, y: nat, x: nat)
    requires Done(d, g, s, before, g.rh) && Sound(g, |s|, |d|) && x < g.dp && Along(0, g.dp, y) + x < |d|
    requires forall i :: 0 <= i < |before| ==> before[i] == 0
    ensures d[Along(0, g.dp, y) + x] ==
            if g.ry <= y < g.ry + g.rh && g.rx <= x < g.rx + g.rw then PixelAt(s, SourceAt(g, y - g.ry, x - g.rx)) else 0
  {
    if y < g.ry { AlongMono(0, g.dp, y + 1, g.ry); }
    else if y < g.ry + g.rh {
      assert RowShows(d, g, s, before, y - g.ry);
      assert PixelAt(d, DestRow(g, y - g.ry) + x) == Want(g, s, before, y - g.ry, x);
    } else { AlongMono(0, g.dp, g.ry + g.rh, y); }
  }

  /** The exact coordinate, or one less, and inside. */
  predicate Near(v: nat, k: nat, n: nat, r: nat)
    requires r > 0
  {
    v <= k * n / r <= v + 1 && v < n
  }

  /** The pixel at these coordinates. */
  predicate ShownAt(d: seq<Pixel>, to: nat, s: seq<Pixel>, from: nat) { to < |d| && from < |s| && d[to] == s[from] }

  /** A pixel of the rectangle is the source pixel whose offsets are those of exact scaling, or one less. */
  lemma {:induction false} NearestPixel(d: seq<Pixel>, g: Geometry, s: seq<Pixel>, before: seq<Pixel>, dy: nat, dx: nat)
      returns (v: nat, u: nat)
    requires Done(d, g, s, before, g.rh) && Sound(g, |s|, |d|) && dy < g.rh <= 65536 && dx < g.rw <= 65536
    ensures Near(v, dy, g.sh, g.rh) && Near(u, dx, g.sw, g.rw)
    ensures ShownAt(d, g.dp * (g.ry + dy) + (g.rx + dx), s, g.sp * (g.srcY + v) + (g.srcX + u))
  {
    v, u := Pick(0, StepY(g), dy), Pick(0, StepX(g), dx);
    PickNear(g.sh, g.rh, dy, v);
    PickNear(g.sw, g.rw, dx, u);
    SourceAddress(g, dy, dx, v, u);
    SampledPixel(d, g, s, before, dy, dx);
    DestAddress(g, dy);
  }

  lemma PickNear(n: nat, r: nat, k: nat, v: nat)
    requires k < r <= 65536 && n > 0 && v == Pick(0, Ratio(n, r), k)
    ensures Near(v, k, n, r)
  {
    PickNearExact(n, r, k);
    PickInside(0, n, r, k);
  }

  lemma DestAddress(g: Geometry, dy: nat)
    ensures DestRow(g, dy) == g.dp * (g.ry + dy)
  {
    AlongIs(0, g.dp, g.ry + dy);
  }

  lemma SourceAddress(g: Geometry, dy: nat, dx: nat, v: nat, u: nat)
    requires v == Pick(0, StepY(g), dy) && u == Pick(0, StepX(g), dx)
    ensures SourceAt(g, dy, dx) == g.sp * (g.srcY + v) + (g.srcX + u)
  {
    AlongIs(0, g.sp, g.srcY + v);
  }

  lemma {:induction false} SampledPixel(d: seq<Pixel>, g: Geometry, s: seq<Pixel>, before: seq<Pixel>, dy: nat, dx: nat)
    requires Done(d, g, s, before, g.rh) && Sound(g, |s|, |d|) && dy < g.rh && dx < g.rw
    ensures ShownAt(d, DestRow(g, dy) + (g.rx + dx), s, SourceAt(g, dy, dx))
  {
    SourceInside(g, |s|, |d|, dy, dx);
    DestInside(g, |s|, |d|, dy);
    assert RowShows(d, g, s, before, dy);
    assert PixelAt(d, DestRow(g, dy) + (g.rx + dx)) == Want(g, s, before, dy, g.rx + dx);
  }
}
