/**
 * Palette quantization: `nearest_color` (integer squared-distance argmin,
 * earliest minimum wins) and `floyd_steinberg_dither`, which rewrites the
 * pixel buffer in place in row-major order while filling a grid of names.
 */
module Quantizer {
  import opened HexColor
  import opened PaletteLoader

  /** Squared RGB distance, as `nearest_color` computes it. */
  function Dist(c: Color, p: Color): int
  {
    (c.r - p.r) * (c.r - p.r) + (c.g - p.g) * (c.g - p.g) + (c.b - p.b) * (c.b - p.b)
  }

  /**
   * The index `nearest_color` settles on: a scan from the front that replaces
   * its candidate only on a strictly smaller distance.
   */
  function NearestIndex(c: Color, palette: Palette): (k: nat)
    requires |palette| > 0
    ensures k < |palette|
    ensures forall j :: 0 <= j < |palette| ==> Dist(c, palette[k].color) <= Dist(c, palette[j].color)
    ensures forall j :: 0 <= j < k ==> Dist(c, palette[j].color) > Dist(c, palette[k].color)
    decreases |palette|
  {
    if |palette| == 1 then 0
    else
      var k := NearestIndex(c, palette[..|palette| - 1]);
      if Dist(c, palette[|palette| - 1].color) < Dist(c, palette[k].color) then |palette| - 1 else k
  }

  /** `nearest_color`: the loop over the palette with `best` and `best_dist`. */
  method NearestColor(c: Color, palette: Palette) returns (best: Entry)
    requires |palette| > 0
    ensures best == palette[NearestIndex(c, palette)]
    ensures best in palette
    ensures forall e :: e in palette ==> Dist(c, best.color) <= Dist(c, e.color)
  {
    best := palette[0];
    var bestDist := 0;
    var bestIsInfinite := true;  // `best_dist = float("inf")`
    var i := 0;
    while i < |palette|
      invariant 0 <= i <= |palette|
      invariant bestIsInfinite <==> i == 0
      invariant i > 0 ==> best == palette[NearestIndex(c, palette[..i])]
      invariant i > 0 ==> bestDist == Dist(c, best.color)
      invariant i == 0 ==> best == palette[0]
    {
      var e := palette[i];
      var dist := Dist(c, e.color);
      assert palette[..i + 1][..i] == palette[..i];
      assert i > 0 ==> palette[..i][NearestIndex(c, palette[..i])] == palette[NearestIndex(c, palette[..i])];
      if bestIsInfinite || dist < bestDist {
        best := e;
        bestDist := dist;
        bestIsInfinite := false;
      }
      i := i + 1;
    }
    assert palette[..i] == palette;
  }

  // ---------------------------------------------------------------------
  // Error diffusion on a width x height grid of pixels, rows first.
  // ---------------------------------------------------------------------

  /** A grid of `h` rows of `w` cells: `g[y][x]`. */
  predicate IsGrid<T>(g: seq<seq<T>>, w: nat, h: nat)
  {
    |g| == h && forall y :: 0 <= y < h ==> |g[y]| == w
  }

  predicate GridInRange(img: seq<seq<Color>>, w: nat, h: nat)
    requires IsGrid(img, w, h)
  {
    forall y, x :: 0 <= y < h && 0 <= x < w ==> InRange(img[y][x])
  }

  /** Cell `(j, i)` comes before cell `(y, x)` in row-major order. */
  predicate Precedes(j: int, i: int, y: int, x: int)
  {
    j < y || (j == y && i < x)
  }

  /** `min(255, max(0, v))` */
  function Clamp(v: int): (c: int)
    ensures 0 <= c <= 255
    ensures 0 <= v <= 255 ==> c == v
    ensures v < 0 ==> c == 0
    ensures v > 255 ==> c == 255
  {
    if v < 0 then 0 else if v > 255 then 255 else v
  }

  /** Python's `int(n / 16)`: division that truncates toward zero. */
  function TruncDiv16(n: int): (q: int)
    ensures n >= 0 ==> 0 <= 16 * q <= n < 16 * q + 16
    ensures n < 0 ==> 16 * q - 16 < n <= 16 * q <= 0
  {
    if n >= 0 then n / 16 else -((-n) / 16)
  }

  /**
   * After the clamp, truncating and flooring the sixteenths agree: they
   * differ only for negative sums, which both clamp to 0.
   */
  lemma TruncationInvisible(n: int)
    ensures Clamp(TruncDiv16(n)) == Clamp(n / 16)
    ensures n < 0 ==> Clamp(TruncDiv16(n)) == 0
  {
  }

  /**
   * One channel of `add_error`: `min(255, max(0, int(p + e * k / 16)))`.
   * The error and the weights are integers over 16, so `p + e * k / 16` is
   * exactly `(16 * p + k * e) / 16` and `int` truncates it.
   */
  function Diffuse(p: int, e: int, k: int): (v: int)
    ensures 0 <= v <= 255
    ensures 0 <= 16 * p + k * e < 4096 ==> v == (16 * p + k * e) / 16
    ensures 16 * p + k * e < 16 ==> v == 0
    ensures 16 * p + k * e >= 4096 ==> v == 255
  {
    Clamp(TruncDiv16(16 * p + k * e))
  }

  /** `add_error(px, py, ...)` with weight `k`/16 applied to `err`. */
  function AddErrorAt(img: seq<seq<Color>>, w: nat, h: nat, px: int, py: int, err: Color, k: int): (r: seq<seq<Color>>)
    requires IsGrid(img, w, h)
    ensures IsGrid(r, w, h)
    ensures !(0 <= px < w && 0 <= py < h) ==> r == img
    ensures 0 <= px < w && 0 <= py < h ==> InRange(r[py][px])
  {
    if 0 <= px < w && 0 <= py < h then
      var p := img[py][px];
      var q := Color(Diffuse(p.r, err.r, k), Diffuse(p.g, err.g, k), Diffuse(p.b, err.b, k));
      img[py := img[py][px := q]]
    else img
  }

  /**
   * `add_error` leaves the pixels alone when the target is out of bounds,
   * and otherwise changes only the target, whose channels end in [0, 255].
   */
  lemma AddErrorAtEffect(img: seq<seq<Color>>, w: nat, h: nat, px: int, py: int, err: Color, k: int)
    requires IsGrid(img, w, h)
    ensures var r := AddErrorAt(img, w, h, px, py, err, k);
            && (!(0 <= px < w && 0 <= py < h) ==> r == img)
            && (forall y, x :: 0 <= y < h && 0 <= x < w && (y != py || x != px) ==> r[y][x] == img[y][x])
            && (0 <= px < w && 0 <= py < h ==> InRange(r[py][px]))
  {
  }

  /** One `add_error` call of a step: the neighbour's offset and its weight over 16. */
  datatype Share = Share(dx: int, dy: int, k: int)

  /** The four calls, in order: right 7/16, below-left 3/16, below 5/16, below-right 1/16. */
  const Shares: seq<Share> := [Share(1, 0, 7), Share(-1, 1, 3), Share(0, 1, 5), Share(1, 1, 1)]

  /** The pixels after the first `n` `add_error` calls for the cell `(x, y)`. */
  function SpreadError(img: seq<seq<Color>>, w: nat, h: nat, x: int, y: int, err: Color, n: nat): (r: seq<seq<Color>>)
    requires IsGrid(img, w, h) && n <= |Shares|
    ensures IsGrid(r, w, h)
  {
    if n == 0 then img
    else
      var d := Shares[n - 1];
      AddErrorAt(SpreadError(img, w, h, x, y, err, n - 1), w, h, x + d.dx, y + d.dy, err, d.k)
  }

  /** The pixels and the grid of names while the dither runs. */
  datatype DitherState = DitherState(img: seq<seq<Color>>, names: seq<seq<string>>)

  predicate WellShaped(s: DitherState, w: nat, h: nat)
  {
    IsGrid(s.img, w, h) && IsGrid(s.names, w, h)
  }

  /**
   * The body of the inner loop at `(x, y)`: the pixel becomes its nearest
   * palette colour, the cell gets that colour's name, and the residual is
   * spread 7/16 right, 3/16 below-left, 5/16 below and 1/16 below-right.
   */
  function QuantizeCell(s: DitherState, palette: Palette, w: nat, h: nat, x: nat, y: nat): (r: DitherState)
    requires WellShaped(s, w, h) && |palette| > 0
    requires x < w && y < h
    ensures WellShaped(r, w, h)
    ensures r.names[y][x] == palette[NearestIndex(s.img[y][x], palette)].name
  {
    var was := s.img[y][x];
    var best := palette[NearestIndex(was, palette)];
    var img1 := s.img[y := s.img[y][x := best.color]];
    var err := Color(was.r - best.color.r, was.g - best.color.g, was.b - best.color.b);
    DitherState(SpreadError(img1, w, h, x, y, err, |Shares|), s.names[y := s.names[y][x := best.name]])
  }

  /**
   * Spreading the error from `(x, y)` reaches only cells after `(x, y)` in
   * row-major order, and keeps channels in [0, 255].
   */
  lemma {:induction false} SpreadErrorEffect(img: seq<seq<Color>>, w: nat, h: nat, x: nat, y: nat, err: Color, n: nat)
    requires IsGrid(img, w, h) && n <= |Shares|
    ensures var r := SpreadError(img, w, h, x, y, err, n);
            && (forall j, i :: 0 <= j < h && 0 <= i < w && (Precedes(j, i, y, x) || (j == y && i == x)) ==>
                  r[j][i] == img[j][i])
            && (GridInRange(img, w, h) ==> GridInRange(r, w, h))
  {
    if n > 0 {
      SpreadErrorEffect(img, w, h, x, y, err, n - 1);
      var d := Shares[n - 1];
      assert d.dy == 1 || (d.dy == 0 && d.dx == 1);
      AddErrorAtEffect(SpreadError(img, w, h, x, y, err, n - 1), w, h, x + d.dx, y + d.dy, err, d.k);
    }
  }

  /**
   * What one step settles: cell `(x, y)` now holds a palette entry's name and
   * colour, and every cell before it is unchanged, because every neighbour
   * the error reaches comes after `(x, y)` in row-major order.
   */
  lemma QuantizeCellEffect(s: DitherState, palette: Palette, w: nat, h: nat, x: nat, y: nat)
    requires WellShaped(s, w, h) && |palette| > 0
    requires x < w && y < h
    ensures var r := QuantizeCell(s, palette, w, h, x, y);
            && Entry(r.names[y][x], r.img[y][x]) in palette
            && (forall j, i :: 0 <= j < h && 0 <= i < w && Precedes(j, i, y, x) ==>
                  r.img[j][i] == s.img[j][i] && r.names[j][i] == s.names[j][i])
  {
    var was := s.img[y][x];
    var best := palette[NearestIndex(was, palette)];
    var img1 := s.img[y := s.img[y][x := best.color]];
    var err := Color(was.r - best.color.r, was.g - best.color.g, was.b - best.color.b);
    SpreadErrorEffect(img1, w, h, x, y, err, |Shares|);
  }

  /** One step keeps every channel in [0, 255] when the palette's are. */
  lemma QuantizeCellKeepsRange(s: DitherState, palette: Palette, w: nat, h: nat, x: nat, y: nat)
    requires WellShaped(s, w, h) && |palette| > 0
    requires x < w && y < h
    requires AllInRange(palette) && GridInRange(s.img, w, h)
    ensures GridInRange(QuantizeCell(s, palette, w, h, x, y).img, w, h)
  {
    var was := s.img[y][x];
    var best := palette[NearestIndex(was, palette)];
    var img1 := s.img[y := s.img[y][x := best.color]];
    var err := Color(was.r - best.color.r, was.g - best.color.g, was.b - best.color.b);
    assert GridInRange(img1, w, h);
    SpreadErrorEffect(img1, w, h, x, y, err, |Shares|);
  }

  /** The state once every cell before `(x, y)` in row-major order is done. */
  function ScanUpTo(s0: DitherState, palette: Palette, w: nat, h: nat, y: nat, x: nat): (r: DitherState)
    requires WellShaped(s0, w, h) && |palette| > 0
    requires (y < h && x <= w) || (y == h && x == 0)
    ensures WellShaped(r, w, h)
    decreases y, x
  {
    if x > 0 then QuantizeCell(ScanUpTo(s0, palette, w, h, y, x - 1), palette, w, h, x - 1, y)
    else if y > 0 then ScanUpTo(s0, palette, w, h, y - 1, w)
    else s0
  }

  /** `[["" for _ in range(width)] for _ in range(height)]` */
  function BlankNames(w: nat, h: nat): (g: seq<seq<string>>)
    ensures IsGrid(g, w, h)
  {
    seq(h, _ => seq(w, _ => ""))
  }

  /** The pixels and names `floyd_steinberg_dither` ends with. */
  function Dither(img: seq<seq<Color>>, palette: Palette, w: nat, h: nat): (d: DitherState)
    requires IsGrid(img, w, h) && |palette| > 0
    ensures WellShaped(d, w, h)
  {
    ScanUpTo(DitherState(img, BlankNames(w, h)), palette, w, h, h, 0)
  }

  /** Every cell before `(x, y)` holds the name and colour of one palette entry. */
  ghost predicate Settled(s: DitherState, palette: Palette, w: nat, h: nat, y: nat, x: nat)
    requires WellShaped(s, w, h)
  {
    forall j, i :: 0 <= j < h && 0 <= i < w && Precedes(j, i, y, x) ==>
      Entry(s.names[j][i], s.img[j][i]) in palette
  }

  lemma SettledStep(s: DitherState, palette: Palette, w: nat, h: nat, x: nat, y: nat)
    requires WellShaped(s, w, h) && |palette| > 0
    requires x < w && y < h
    requires Settled(s, palette, w, h, y, x)
    ensures Settled(QuantizeCell(s, palette, w, h, x, y), palette, w, h, y, x + 1)
  {
    QuantizeCellEffect(s, palette, w, h, x, y);
  }

  lemma SettledRowEnd(s: DitherState, palette: Palette, w: nat, h: nat, y: nat)
    requires WellShaped(s, w, h) && y < h
    requires Settled(s, palette, w, h, y, w)
    ensures Settled(s, palette, w, h, y + 1, 0)
  {
  }

  lemma {:induction false} ScanKeepsRange(s0: DitherState, palette: Palette, w: nat, h: nat, y: nat, x: nat)
    requires WellShaped(s0, w, h) && |palette| > 0
    requires (y < h && x <= w) || (y == h && x == 0)
    requires AllInRange(palette) && GridInRange(s0.img, w, h)
    ensures GridInRange(ScanUpTo(s0, palette, w, h, y, x).img, w, h)
    decreases y, x
  {
    if x > 0 {
      ScanKeepsRange(s0, palette, w, h, y, x - 1);
      QuantizeCellKeepsRange(ScanUpTo(s0, palette, w, h, y, x - 1), palette, w, h, x - 1, y);
    } else if y > 0 {
      ScanKeepsRange(s0, palette, w, h, y - 1, w);
    }
  }

  ghost predicate ScanSettled(s0: DitherState, palette: Palette, w: nat, h: nat, y: nat, x: nat)
    requires WellShaped(s0, w, h) && |palette| > 0
    requires (y < h && x <= w) || (y == h && x == 0)
  {
    Settled(ScanUpTo(s0, palette, w, h, y, x), palette, w, h, y, x)
  }

  lemma {:induction false} ScanSettles(s0: DitherState, palette: Palette, w: nat, h: nat, y: nat, x: nat)
    requires WellShaped(s0, w, h) && |palette| > 0
    requires (y < h && x <= w) || (y == h && x == 0)
    ensures ScanSettled(s0, palette, w, h, y, x)
    decreases y, x
  {
    if x > 0 {
      ScanSettles(s0, palette, w, h, y, x - 1);
      ScanSettledStep(s0, palette, w, h, y, x);
    } else if y > 0 {
      ScanSettles(s0, palette, w, h, y - 1, w);
      ScanSettledRowEnd(s0, palette, w, h, y);
    }
  }

  lemma ScanSettledStep(s0: DitherState, palette: Palette, w: nat, h: nat, y: nat, x: nat)
    requires WellShaped(s0, w, h) && |palette| > 0 && y < h && 0 < x <= w
    requires ScanSettled(s0, palette, w, h, y, x - 1)
    ensures ScanSettled(s0, palette, w, h, y, x)
  {
    SettledStep(ScanUpTo(s0, palette, w, h, y, x - 1), palette, w, h, x - 1, y);
  }

  lemma ScanSettledRowEnd(s0: DitherState, palette: Palette, w: nat, h: nat, y: nat)
    requires WellShaped(s0, w, h) && |palette| > 0 && 0 < y <= h
    requires ScanSettled(s0, palette, w, h, y - 1, w)
    ensures ScanSettled(s0, palette, w, h, y, 0)
  {
    SettledRowEnd(ScanUpTo(s0, palette, w, h, y - 1, w), palette, w, h, y - 1);
  }

  /**
   * After the dither every cell holds a palette name, every pixel is the
   * colour of a palette entry with that name, and every channel is in range.
   */
  lemma DitherCorrect(img: seq<seq<Color>>, palette: Palette, w: nat, h: nat)
    requires IsGrid(img, w, h) && |palette| > 0
    requires AllInRange(palette) && GridInRange(img, w, h)
    ensures var d := Dither(img, palette, w, h);
            && WellShaped(d, w, h)
            && GridInRange(d.img, w, h)
            && forall y, x :: 0 <= y < h && 0 <= x < w ==> Entry(d.names[y][x], d.img[y][x]) in palette
  {
    var s0 := DitherState(img, BlankNames(w, h));
    assert WellShaped(s0, w, h);
    ScanKeepsRange(s0, palette, w, h, h, 0);
    ScanSettles(s0, palette, w, h, h, 0);
    var d := ScanUpTo(s0, palette, w, h, h, 0);
    forall y, x | 0 <= y < h && 0 <= x < w
      ensures Entry(d.names[y][x], d.img[y][x]) in palette
    {
      assert Precedes(y, x, h, 0);
    }
  }

  // ---------------------------------------------------------------------
  // The in-place algorithm on the pixel buffer `pixels[x, y]`.
  // ---------------------------------------------------------------------

  /** The buffer as rows: `Rows(a)[y][x] == a[x, y]`. */
  ghost function Rows(a: array2<Color>): (g: seq<seq<Color>>)
    reads a
    ensures IsGrid(g, a.Length0, a.Length1)
    ensures forall y, x :: 0 <= y < a.Length1 && 0 <= x < a.Length0 ==> g[y][x] == a[x, y]
  {
    seq(a.Length1, y requires 0 <= y < a.Length1 reads a =>
      seq(a.Length0, x requires 0 <= x < a.Length0 reads a => a[x, y]))
  }

  /** `pixels[x, y] = v` */
  method SetPixel(pixels: array2<Color>, x: nat, y: nat, v: Color)
    requires x < pixels.Length0 && y < pixels.Length1
    modifies pixels
    ensures Rows(pixels) == old(Rows(pixels))[y := old(Rows(pixels))[y][x := v]]
  {
    ghost var before := Rows(pixels);
    pixels[x, y] := v;
    ghost var want := before[y := before[y][x := v]];
    assert IsGrid(want, pixels.Length0, pixels.Length1);
    forall j | 0 <= j < pixels.Length1
      ensures Rows(pixels)[j] == want[j]
    {
      assert |Rows(pixels)[j]| == |want[j]|;
    }
  }

  /** The nested `add_error`: one neighbour, dropped when out of bounds. */
  method AddError(pixels: array2<Color>, px: int, py: int, err: Color, k: int)
    modifies pixels
    ensures Rows(pixels) == AddErrorAt(old(Rows(pixels)), pixels.Length0, pixels.Length1, px, py, err, k)
  {
    if 0 <= px < pixels.Length0 && 0 <= py < pixels.Length1 {
      var p := pixels[px, py];
      SetPixel(pixels, px, py, Color(Diffuse(p.r, err.r, k), Diffuse(p.g, err.g, k), Diffuse(p.b, err.b, k)));
    }
  }

  /** The buffer and the name grid are the scan's state after the cells before `(x, y)`. */
  ghost predicate ScanReached(s0: DitherState, palette: Palette, w: nat, h: nat, y: nat, x: nat, s: DitherState)
    requires WellShaped(s0, w, h) && |palette| > 0
    requires (y < h && x <= w) || (y == h && x == 0)
  {
    ScanUpTo(s0, palette, w, h, y, x) == s
  }

  /** One pass of the inner loop body, on the buffer and the grid of names. */
  method DitherCell(pixels: array2<Color>, palette: Palette, x: nat, y: nat, grid: seq<seq<string>>)
    returns (grid': seq<seq<string>>)
    requires |palette| > 0 && x < pixels.Length0 && y < pixels.Length1
    requires IsGrid(grid, pixels.Length0, pixels.Length1)
    modifies pixels
    ensures DitherState(Rows(pixels), grid') ==
            QuantizeCell(DitherState(old(Rows(pixels)), grid), palette, pixels.Length0, pixels.Length1, x, y)
  {
    ghost var before := Rows(pixels);
    var was := pixels[x, y];
    assert was == before[y][x];
    var best := NearestColor(was, palette);
    SetPixel(pixels, x, y, best.color);
    grid' := grid[y := grid[y][x := best.name]];
    var err := Color(was.r - best.color.r, was.g - best.color.g, was.b - best.color.b);
    SpreadErrorAround(pixels, x, y, err);
  }

  /** The four nested `add_error` calls of one pass, on the buffer. */
  method SpreadErrorAround(pixels: array2<Color>, x: int, y: int, err: Color)
    modifies pixels
    ensures Rows(pixels) == SpreadError(old(Rows(pixels)), pixels.Length0, pixels.Length1, x, y, err, |Shares|)
  {
    ghost var before := Rows(pixels);
    AddShare(pixels, x, y, err, 0, before);
    AddShare(pixels, x, y, err, 1, before);
    AddShare(pixels, x, y, err, 2, before);
    AddShare(pixels, x, y, err, 3, before);
  }

  /** The `n`-th `add_error` call of a pass: `Shares[n]` of the error to its neighbour. */
  method AddShare(pixels: array2<Color>, x: int, y: int, err: Color, n: nat, ghost before: seq<seq<Color>>)
    requires n < |Shares| && IsGrid(before, pixels.Length0, pixels.Length1)
    requires Rows(pixels) == SpreadError(before, pixels.Length0, pixels.Length1, x, y, err, n)
    modifies pixels
    ensures Rows(pixels) == SpreadError(before, pixels.Length0, pixels.Length1, x, y, err, n + 1)
  {
    var d := Shares[n];
    AddError(pixels, x + d.dx, y + d.dy, err, d.k);
    SpreadErrorNext(before, Rows(pixels), pixels.Length0, pixels.Length1, x, y, err, n);
  }

  /** The `n`-th `add_error` call extends the first `n`. */
  lemma SpreadErrorNext(img: seq<seq<Color>>, r: seq<seq<Color>>, w: nat, h: nat, x: int, y: int, err: Color, n: nat)
    requires IsGrid(img, w, h) && n < |Shares|
    requires r == AddErrorAt(SpreadError(img, w, h, x, y, err, n), w, h, x + Shares[n].dx, y + Shares[n].dy, err, Shares[n].k)
    ensures r == SpreadError(img, w, h, x, y, err, n + 1)
  {
  }

  /**
   * `floyd_steinberg_dither` on the converted image's buffer: the buffer ends
   * as `Dither` of its old contents, and the returned names are the grid
   * `Dither` builds.
   */
  method FloydSteinbergDither(pixels: array2<Color>, palette: Palette) returns (colorGrid: seq<seq<string>>)
    requires |palette| > 0
    modifies pixels
    ensures Rows(pixels) == Dither(old(Rows(pixels)), palette, pixels.Length0, pixels.Length1).img
    ensures colorGrid == Dither(old(Rows(pixels)), palette, pixels.Length0, pixels.Length1).names
  {
    var width, height := pixels.Length0, pixels.Length1;
    ghost var s0 := DitherState(Rows(pixels), BlankNames(width, height));
    colorGrid := BlankNames(width, height);
    var y := 0;
    while y < height
      invariant 0 <= y <= height
      invariant ScanReached(s0, palette, width, height, y, 0, DitherState(Rows(pixels), colorGrid))
    {
      var x := 0;
      while x < width
        invariant 0 <= x <= width
        invariant ScanReached(s0, palette, width, height, y, x, DitherState(Rows(pixels), colorGrid))
      {
        ghost var before := DitherState(Rows(pixels), colorGrid);
        colorGrid := DitherCell(pixels, palette, x, y, colorGrid);
        ReachedStep(s0, palette, width, height, y, x, before, DitherState(Rows(pixels), colorGrid));
        x := x + 1;
      }
      ReachedRowEnd(s0, palette, width, height, y, DitherState(Rows(pixels), colorGrid));
      y := y + 1;
    }
  }

  lemma ReachedStep(s0: DitherState, palette: Palette, w: nat, h: nat, y: nat, x: nat, before: DitherState, after: DitherState)
    requires WellShaped(s0, w, h) && |palette| > 0 && y < h && x < w
    requires ScanReached(s0, palette, w, h, y, x, before)
    requires WellShaped(before, w, h) && after == QuantizeCell(before, palette, w, h, x, y)
    ensures ScanReached(s0, palette, w, h, y, x + 1, after)
  {
  }

  lemma ReachedRowEnd(s0: DitherState, palette: Palette, w: nat, h: nat, y: nat, s: DitherState)
    requires WellShaped(s0, w, h) && |palette| > 0 && y < h
    requires ScanReached(s0, palette, w, h, y, w, s)
    ensures ScanReached(s0, palette, w, h, y + 1, 0, s)
  {
  }
}
