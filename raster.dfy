// `rayTracer` in main.ts: paint one square block of the canvas, column by
// column, each pixel the average of a grid of sub-rays cast through it.
//
// The canvas widget is a class whose pixel store the engine writes through
// `setPixel`; the model keeps the store as a map from coordinates to colours
// and, as ghost state, the log of every write in order.
module Raster {
  import opened Vectors
  import opened Scene
  import opened Config
  import opened Tracer

  class Canvas {
    var width: int
    var height: int
    var pixels: map<(int, int), Color>
    ghost var writes: seq<(int, int)>

    constructor (w: int, h: int)
      ensures width == w && height == h && pixels == map[] && writes == []
    {
      width, height := w, h;
      pixels := map[];
      writes := [];
    }

    /** `changeDimensions`: resize; the pixel store is left to `ClearCanvas`. */
    method ChangeDimensions(w: int, h: int)
      modifies this
      ensures width == w && height == h
      ensures pixels == old(pixels) && writes == old(writes)
    {
      width, height := w, h;
    }

    /** `clearCanvas`: forget every pixel (and start a fresh write log). */
    method ClearCanvas()
      modifies this
      ensures width == old(width) && height == old(height)
      ensures pixels == map[] && writes == []
    {
      pixels := map[];
      writes := [];
    }

    /** `setPixel`: store `c` at `(x, y)`, whether or not it lies inside the canvas. */
    method SetPixel(x: int, y: int, c: Color)
      modifies this
      ensures width == old(width) && height == old(height)
      ensures pixels == old(pixels)[(x, y) := c]
      ensures writes == old(writes) + [(x, y)]
    {
      pixels := pixels[(x, y) := c];
      writes := writes + [(x, y)];
    }
  }

  /** The pixels of the `w` by `h` block with top-left corner `(x0, y0)`, in the
      order two nested loops with `x` outside visit them. */
  function ColumnMajor(x0: int, y0: int, w: nat, h: nat): seq<(int, int)>
    decreases w
  {
    if w == 0 then [] else ColumnMajor(x0, y0, w - 1, h) + Column(x0 + w - 1, y0, h)
  }

  function Column(x: int, y0: int, h: nat): seq<(int, int)> {
    seq(h, j requires 0 <= j < h => (x, y0 + j))
  }

  predicate InBlock(p: (int, int), x0: int, y0: int, w: int, h: int) {
    x0 <= p.0 < x0 + w && y0 <= p.1 < y0 + h
  }

  predicate Distinct(ps: seq<(int, int)>) {
    forall i, j :: 0 <= i < j < |ps| ==> ps[i] != ps[j]
  }

  lemma ColumnExactlyOnce(x: int, y0: int, h: nat)
    ensures |Column(x, y0, h)| == h && Distinct(Column(x, y0, h))
    ensures forall p :: p in Column(x, y0, h) <==> InBlock(p, x, y0, 1, h)
  {
    var col := Column(x, y0, h);
    forall p | InBlock(p, x, y0, 1, h) ensures p in col {
      assert col[p.1 - y0] == p;
    }
  }

  /** Every pixel of the block is visited, exactly once, and nothing else is:
      the block's `w * h` pixels each get one write. */
  lemma {:induction false} ColumnMajorExactlyOnce(x0: int, y0: int, w: nat, h: nat)
    ensures |ColumnMajor(x0, y0, w, h)| == w * h
    ensures forall p :: p in ColumnMajor(x0, y0, w, h) <==> InBlock(p, x0, y0, w, h)
    ensures Distinct(ColumnMajor(x0, y0, w, h))
  {
    if w > 0 {
      var init := ColumnMajor(x0, y0, w - 1, h);
      var col := Column(x0 + w - 1, y0, h);
      ColumnMajorExactlyOnce(x0, y0, w - 1, h);
      ColumnExactlyOnce(x0 + w - 1, y0, h);
      assert (w - 1) * h + h == w * h;
      DistinctAppend(init, col);
    }
  }

  /** Two duplicate-free sequences with no element in common concatenate to
      a duplicate-free sequence. */
  lemma DistinctAppend(a: seq<(int, int)>, b: seq<(int, int)>)
    requires Distinct(a) && Distinct(b)
    requires forall p :: p in a ==> p !in b
    ensures Distinct(a + b)
  {
    var all := a + b;
    forall i, j | 0 <= i < j < |all| ensures all[i] != all[j] {
      if j >= |a| && i < |a| {
        assert all[i] in a && all[j] == b[j - |a|];
      } else if i >= |a| {
        assert all[i] == b[i - |a|] && all[j] == b[j - |a|];
      } else {
        assert all[i] == a[i] && all[j] == a[j];
      }
    }
  }

  /** The distance between successive sub-rays: `1 / subsamples`. It is never
      used when `subsamples` is 0, since then no sub-ray is cast. */
  function SubStep(n: int): real {
    if n == 0 then 0.0 else 1.0 / n as real
  }

  function SubOffset(sub: int, n: int): real {
    sub as real * SubStep(n)
  }

  /** Canvas coordinates to normalised device coordinates (`y` points up).
      main.ts divides the coordinate by the canvas size and then doubles it;
      the model multiplies by `2 / size`, which `NdcAsWritten` shows equal. */
  function NdcX(px: real, width: int): real
    requires width != 0
  {
    px * (2.0 / width as real) - 1.0
  }

  function NdcY(py: real, height: int): real
    requires height != 0
  {
    1.0 - py * (2.0 / height as real)
  }

  lemma NdcAsWritten(px: real, py: real, width: int, height: int)
    requires width != 0 && height != 0
    ensures NdcX(px, width) == (px / width as real) * 2.0 - 1.0
    ensures NdcY(py, height) == -(py / height as real) * 2.0 + 1.0
  {
  }

  /** A point of the canvas lands in the camera's view square: `x` in `[-1, 1)`
      from left to right and `y` in `(-1, 1]` from top to bottom. */
  lemma NdcInView(px: real, py: real, width: int, height: int)
    requires 0 < width && 0 < height
    requires 0.0 <= px < width as real && 0.0 <= py < height as real
    ensures -1.0 <= NdcX(px, width) < 1.0
    ensures -1.0 < NdcY(py, height) <= 1.0
  {
    var kx := 2.0 / width as real;
    var ky := 2.0 / height as real;
    assert kx * width as real == 2.0 && ky * height as real == 2.0;
    MulNonNegative(px, kx);
    MulNonNegative(py, ky);
    MulPositive(width as real - px, kx);
    MulPositive(height as real - py, ky);
  }

  /** `shade` is `pixelColor(ray, maxDepth)` as a function of the ray. The
      raster is specified in terms of such a function rather than of
      `TracedColor` itself, so that reasoning about pixels and sub-rays does
      not unfold the tracer; the link is made once, where a sub-ray is traced. */
  ghost predicate Traces(s: Settings, env: Env, shade: Ray -> Color) {
    forall ray {:trigger TracedColor(s, env, ray, s.maxDepth)} :: shade(ray) == TracedColor(s, env, ray, s.maxDepth)
  }

  /** The tracer itself is such a function. */
  lemma TracerTraces(s: Settings, env: Env)
    ensures Traces(s, env, ray => TracedColor(s, env, ray, s.maxDepth))
  {
  }

  /** The colour of sub-ray `sub` of pixel `(x, y)`. */
  function SampleColor(s: Settings, env: Env, shade: Ray -> Color, width: int, height: int, x: int, y: int, sub: (int, int)): Color
    requires width != 0 && height != 0
  {
    var subPixelX := x as real + SubOffset(sub.0, s.subsamples);
    var subPixelY := y as real + SubOffset(sub.1, s.subsamples);
    shade(env.CameraRay(NdcX(subPixelX, width), NdcY(subPixelY, height)))
  }

  /** The colours of the sub-rays `subs`, in order. */
  function SubRayColors(s: Settings, env: Env, shade: Ray -> Color, width: int, height: int, x: int, y: int, subs: seq<(int, int)>)
    : (cs: seq<Color>)
    requires width != 0 && height != 0
    ensures |cs| == |subs|
  {
    seq(|subs|, i requires 0 <= i < |subs| => SampleColor(s, env, shade, width, height, x, y, subs[i]))
  }

  /** Colours added onto black in order. */
  function Sum(cs: seq<Color>): Color {
    if cs == [] then Black else AddC(Sum(cs[..|cs| - 1]), cs[|cs| - 1])
  }

  /** The sub-rays of one pixel: `subsamples` by `subsamples` of them, none for
      a count below 1. */
  function SubsampleGrid(n: int): seq<(int, int)> {
    if n > 0 then ColumnMajor(0, 0, n, n) else []
  }

  /** Each pixel casts `subsamples²` sub-rays, one per grid point, and each
      lands inside the pixel: its offsets lie in `[0, 1)` on both axes. */
  lemma SubRaysInsidePixel(n: int)
    requires 1 <= n
    ensures |SubsampleGrid(n)| == n * n && Distinct(SubsampleGrid(n))
    ensures forall sub :: sub in SubsampleGrid(n) <==> 0 <= sub.0 < n && 0 <= sub.1 < n
    ensures forall sub :: sub in SubsampleGrid(n) ==>
              0.0 <= SubOffset(sub.0, n) < 1.0 && 0.0 <= SubOffset(sub.1, n) < 1.0
  {
    ColumnMajorExactlyOnce(0, 0, n, n);
    forall sub | sub in SubsampleGrid(n)
      ensures 0.0 <= SubOffset(sub.0, n) < 1.0 && 0.0 <= SubOffset(sub.1, n) < 1.0
    {
      OffsetBelowOne(sub.0, n);
      OffsetBelowOne(sub.1, n);
    }
  }

  lemma OffsetBelowOne(sub: int, n: int)
    requires 0 <= sub < n
    ensures 0.0 <= SubOffset(sub, n) < 1.0
  {
    var k := 1.0 / n as real;
    assert k * n as real == 1.0;
    MulNonNegative(sub as real, k);
    assert (n as real - sub as real) * k > 0.0 by {
      MulPositive(n as real - sub as real, k);
    }
  }

  /** `2^n` as `Math.pow(2, n)` computes it. */
  function Pow2(n: nat): (r: nat)
    ensures 1 <= r
  {
    if n == 0 then 1 else 2 * Pow2(n - 1)
  }

  function TwoToThe(n: int): real {
    if n >= 0 then Pow2(n) as real else 1.0 / Pow2(-n) as real
  }

  /** The factor main.ts applies to the sum of the sub-ray colours:
      `1 / 2^subsamples`, skipped when `subsamples` is 1. */
  function AsWrittenScale(n: int): real {
    if n != 1 then 1.0 / TwoToThe(n) else 1.0
  }

  /** The factor that averages the `n²` sub-ray colours. With no sub-rays the
      sum is black and any factor does. */
  function MeanScale(n: int): (k: real)
    ensures n != 0 ==> k * (n * n) as real == 1.0
  {
    if n == 0 then 1.0 else 1.0 / (n * n) as real
  }

  /** The colour `rayTracer` stores for pixel `(x, y)`, with the averaging factor. */
  function PixelValue(s: Settings, env: Env, shade: Ray -> Color, width: int, height: int, x: int, y: int): Color
    requires width != 0 && height != 0
  {
    var sum := Sum(SubRayColors(s, env, shade, width, height, x, y, SubsampleGrid(s.subsamples)));
    if s.subsamples != 1 then ScaleC(sum, MeanScale(s.subsamples)) else sum
  }

  /** Colours that are all `c` add up to their number times `c`. */
  lemma {:induction false} UniformSum(cs: seq<Color>, c: Color)
    requires forall i :: 0 <= i < |cs| ==> cs[i] == c
    ensures Sum(cs) == ScaleC(c, |cs| as real)
  {
    if cs != [] {
      UniformSum(cs[..|cs| - 1], c);
    }
  }

  /** Scaling a colour by `m` and then by `k` with `k * m == 1` gives it back. */
  lemma ScaleInverse(c: Color, m: real, k: real)
    requires k * m == 1.0
    ensures ScaleC(ScaleC(c, m), k) == c
  {
    assert c.r * m * k == c.r * (k * m);
    assert c.g * m * k == c.g * (k * m);
    assert c.b * m * k == c.b * (k * m);
  }

  lemma ScaleTwice(c: Color, a: real, b: real)
    ensures ScaleC(ScaleC(c, a), b) == ScaleC(c, a * b)
  {
    assert c.r * a * b == c.r * (a * b);
    assert c.g * a * b == c.g * (a * b);
    assert c.b * a * b == c.b * (a * b);
  }

  /** With the mean factor, a pixel whose sub-rays all see the same colour
      gets exactly that colour, for every sub-ray count. */
  lemma UniformPixelIsMean(s: Settings, env: Env, shade: Ray -> Color, width: int, height: int, x: int, y: int, c: Color)
    requires width != 0 && height != 0 && 1 <= s.subsamples
    requires forall sub :: sub in SubsampleGrid(s.subsamples) ==> SampleColor(s, env, shade, width, height, x, y, sub) == c
    ensures PixelValue(s, env, shade, width, height, x, y) == c
  {
    var n := s.subsamples;
    var grid := SubsampleGrid(n);
    var cs := SubRayColors(s, env, shade, width, height, x, y, grid);
    assert forall i :: 0 <= i < |cs| ==> cs[i] == c by {
      forall i | 0 <= i < |cs| ensures cs[i] == c {
        assert grid[i] in grid;
      }
    }
    UniformSum(cs, c);
    SubRaysInsidePixel(n);
    AverageOfCopies(c, n);
  }

  /** `n²` copies of `c`, averaged, give `c` back. */
  lemma AverageOfCopies(c: Color, n: int)
    requires 1 <= n
    ensures n != 1 ==> ScaleC(ScaleC(c, (n * n) as real), MeanScale(n)) == c
    ensures n == 1 ==> ScaleC(c, (n * n) as real) == c
  {
    ScaleInverse(c, (n * n) as real, MeanScale(n));
  }

  lemma {:induction false} Pow2AboveSquare(n: nat)
    requires 5 <= n
    ensures n * n < Pow2(n)
  {
    if n > 5 {
      Pow2AboveSquare(n - 1);
      var m := n - 1;
      assert n * n == m * m + 2 * m + 1;
      assert 2 * m + 1 < m * m by {
        assert m * m >= 5 * m by { MulMonotonic(m); }
      }
    }
  }

  lemma MulMonotonic(m: nat)
    requires 5 <= m
    ensures m * m >= 5 * m
  {
  }

  /** The factor main.ts uses is the averaging factor exactly for 1, 2 and 4
      sub-rays per axis; in the slider's range 1..4 it is wrong only for 3. */
  lemma AsWrittenScaleIsMeanOnlyFor124(n: int)
    requires 1 <= n
    ensures AsWrittenScale(n) == MeanScale(n) <==> n == 1 || n == 2 || n == 4
  {
    if n >= 5 {
      Pow2AboveSquare(n);
      var p := Pow2(n) as real;
      var m := (n * n) as real;
      ReciprocalDecreasing(m, p);
    }
  }

  lemma ReciprocalDecreasing(m: real, p: real)
    requires 0.0 < m < p
    ensures 1.0 / p < 1.0 / m
  {
    assert 1.0 / p * p == 1.0 && 1.0 / m * m == 1.0;
    MulPositive(1.0 / p, p - m);
  }

  /** With 3 sub-rays per axis the nine sub-ray colours are scaled by 1/8, so a
      uniformly coloured pixel comes out 9/8 as bright. */
  lemma AsWrittenBrightensThree(s: Settings, env: Env, shade: Ray -> Color, width: int, height: int, x: int, y: int, c: Color)
    requires width != 0 && height != 0 && s.subsamples == 3
    requires forall sub :: sub in SubsampleGrid(3) ==> SampleColor(s, env, shade, width, height, x, y, sub) == c
    ensures ScaleC(Sum(SubRayColors(s, env, shade, width, height, x, y, SubsampleGrid(3))), AsWrittenScale(3))
              == ScaleC(c, 9.0 / 8.0)
  {
    var grid := SubsampleGrid(3);
    var cs := SubRayColors(s, env, shade, width, height, x, y, grid);
    assert forall i :: 0 <= i < |cs| ==> cs[i] == c by {
      forall i | 0 <= i < |cs| ensures cs[i] == c {
        assert grid[i] in grid;
      }
    }
    UniformSum(cs, c);
    SubRaysInsidePixel(3);
    assert |cs| == 9;
    assert AsWrittenScale(3) == 1.0 / 8.0;
    ScaleTwice(c, 9.0, 1.0 / 8.0);
  }

  /** The colour main.ts stores for pixel `(x, y)`: the sub-ray sum scaled by
      its own factor `AsWrittenScale`. */
  function AsWrittenPixelValue(s: Settings, env: Env, shade: Ray -> Color, width: int, height: int, x: int, y: int): Color
    requires width != 0 && height != 0
  {
    ScaleC(Sum(SubRayColors(s, env, shade, width, height, x, y, SubsampleGrid(s.subsamples))),
           AsWrittenScale(s.subsamples))
  }

  /** For 1, 2 and 4 sub-rays per axis the stored colour is the one main.ts
      stores; only there do the two factors agree. */
  lemma PixelValueAsWrittenFor124(s: Settings, env: Env, shade: Ray -> Color, width: int, height: int, x: int, y: int)
    requires width != 0 && height != 0
    requires s.subsamples == 1 || s.subsamples == 2 || s.subsamples == 4
    ensures PixelValue(s, env, shade, width, height, x, y) == AsWrittenPixelValue(s, env, shade, width, height, x, y)
  {
    AsWrittenScaleIsMeanOnlyFor124(s.subsamples);
    var sum := Sum(SubRayColors(s, env, shade, width, height, x, y, SubsampleGrid(s.subsamples)));
    assert ScaleC(sum, 1.0) == sum;
  }

  /** The subsample loops for one pixel. */
  method ShadePixel(s: Settings, env: Env, ghost shade: Ray -> Color, width: int, height: int, x: int, y: int) returns (pixCol: Color)
    requires width != 0 && height != 0
    requires Traces(s, env, shade)
    ensures pixCol == PixelValue(s, env, shade, width, height, x, y)
  {
    var n := s.subsamples;
    ghost var side: nat := if n > 0 then n else 0;
    ghost var done: seq<(int, int)> := [];
    pixCol := Black;
    var subX := 0;
    while subX < n
      invariant 0 <= subX <= side
      invariant done == ColumnMajor(0, 0, subX, side)
      invariant pixCol == Sum(SubRayColors(s, env, shade, width, height, x, y, done))
    {
      pixCol := ShadeSubColumn(s, env, shade, width, height, x, y, subX, done, pixCol);
      ColumnMajorSnoc(0, 0, subX, side);
      done := done + Column(subX, 0, side);
      subX := subX + 1;
    }
    assert done == SubsampleGrid(n);
    if n != 1 {
      pixCol := ScaleC(pixCol, MeanScale(n));
    }
  }

  /** The inner `subY` loop for one pixel: add the colours of the sub-rays of
      column `subX` to `sum`, the colours of the sub-rays `done` before it. */
  method ShadeSubColumn(s: Settings, env: Env, ghost shade: Ray -> Color, width: int, height: int, x: int, y: int,
                        subX: int, ghost done: seq<(int, int)>, sum: Color) returns (pixCol: Color)
    requires width != 0 && height != 0
    requires Traces(s, env, shade)
    requires sum == Sum(SubRayColors(s, env, shade, width, height, x, y, done))
    ensures pixCol == Sum(SubRayColors(s, env, shade, width, height, x, y,
                                       done + Column(subX, 0, if s.subsamples > 0 then s.subsamples else 0)))
  {
    var n := s.subsamples;
    ghost var side: nat := if n > 0 then n else 0;
    pixCol := sum;
    ghost var cast := done;
    var subY := 0;
    assert done + Column(subX, 0, subY) == done;
    while subY < n
      invariant 0 <= subY <= side
      invariant cast == done + Column(subX, 0, subY)
      invariant pixCol == Sum(SubRayColors(s, env, shade, width, height, x, y, cast))
    {
      var subPixCol := ShadeSubRay(s, env, shade, width, height, x, y, subX, subY);
      NextSubRay(s, env, shade, width, height, x, y, cast, (subX, subY));
      SubColumnSnoc(done, subX, subY);
      pixCol := AddC(pixCol, subPixCol);
      cast := cast + [(subX, subY)];
      subY := subY + 1;
    }
  }

  /** One sub-ray: its canvas position, the camera ray through it, and its colour. */
  method ShadeSubRay(s: Settings, env: Env, ghost shade: Ray -> Color, width: int, height: int, x: int, y: int, subX: int, subY: int)
    returns (subPixCol: Color)
    requires width != 0 && height != 0
    requires Traces(s, env, shade)
    ensures subPixCol == SampleColor(s, env, shade, width, height, x, y, (subX, subY))
  {
    var subPixelX := x as real + SubOffset(subX, s.subsamples);   // x + subX * subStep
    var subPixelY := y as real + SubOffset(subY, s.subsamples);
    var ray := env.CameraRay(NdcX(subPixelX, width), NdcY(subPixelY, height));
    subPixCol := PixelColor(s, env, ray, s.maxDepth);
  }

  /** One more sub-ray adds its colour to the running sum. */
  lemma NextSubRay(s: Settings, env: Env, shade: Ray -> Color, width: int, height: int, x: int, y: int, done: seq<(int, int)>, sub: (int, int))
    requires width != 0 && height != 0
    ensures Sum(SubRayColors(s, env, shade, width, height, x, y, done + [sub]))
              == AddC(Sum(SubRayColors(s, env, shade, width, height, x, y, done)), SampleColor(s, env, shade, width, height, x, y, sub))
  {
    SubRayColorsSnoc(s, env, shade, width, height, x, y, done, sub);
    SumSnoc(SubRayColors(s, env, shade, width, height, x, y, done), SampleColor(s, env, shade, width, height, x, y, sub));
  }

  lemma AppendAssociative<T>(a: seq<T>, b: seq<T>, c: seq<T>)
    ensures a + (b + c) == (a + b) + c
  {
  }

  lemma SubRayColorsSnoc(s: Settings, env: Env, shade: Ray -> Color, width: int, height: int, x: int, y: int, done: seq<(int, int)>, sub: (int, int))
    requires width != 0 && height != 0
    ensures SubRayColors(s, env, shade, width, height, x, y, done + [sub])
              == SubRayColors(s, env, shade, width, height, x, y, done) + [SampleColor(s, env, shade, width, height, x, y, sub)]
  {
  }

  /** The sub-rays cast so far, one more down column `subX`. */
  lemma SubColumnSnoc(done: seq<(int, int)>, subX: int, subY: nat)
    ensures done + Column(subX, 0, subY + 1) == (done + Column(subX, 0, subY)) + [(subX, subY)]
  {
    ColumnSnoc(subX, 0, subY);
    AppendAssociative(done, Column(subX, 0, subY), [(subX, subY)]);
  }

  /** A column from `y0`, one row further down to `y`. */
  lemma ColumnSnocAt(x: int, y0: int, y: int)
    requires y0 <= y
    ensures Column(x, y0, y + 1 - y0) == Column(x, y0, y - y0) + [(x, y)]
  {
    ColumnSnoc(x, y0, y - y0);
  }

  lemma ColumnSnoc(x: int, y0: int, h: nat)
    ensures Column(x, y0, h + 1) == Column(x, y0, h) + [(x, y0 + h)]
  {
  }

  lemma SumSnoc(cs: seq<Color>, c: Color)
    ensures Sum(cs + [c]) == AddC(Sum(cs), c)
  {
    assert (cs + [c])[..|cs|] == cs;
  }

  /** The pixel store after `setPixel` has written, in the order of `ps`, the
      colour `rayTracer` computes for each pixel, starting from `before`. */
  function PaintAll(s: Settings, env: Env, shade: Ray -> Color, width: int, height: int,
                    before: map<(int, int), Color>, ps: seq<(int, int)>): map<(int, int), Color>
    requires width != 0 && height != 0
  {
    if ps == [] then before
    else
      var p := ps[|ps| - 1];
      PaintAll(s, env, shade, width, height, before, ps[..|ps| - 1])[p := PixelValue(s, env, shade, width, height, p.0, p.1)]
  }

  lemma PaintAllSnoc(s: Settings, env: Env, shade: Ray -> Color, width: int, height: int,
                     before: map<(int, int), Color>, ps: seq<(int, int)>, p: (int, int))
    requires width != 0 && height != 0
    ensures PaintAll(s, env, shade, width, height, before, ps + [p])
              == PaintAll(s, env, shade, width, height, before, ps)[p := PixelValue(s, env, shade, width, height, p.0, p.1)]
  {
    assert (ps + [p])[..|ps|] == ps;
  }

  /** Writing the pixels `ps` adds exactly those pixels, each with its colour,
      and leaves every other pixel as it was. */
  lemma {:induction false} PaintAllEffect(s: Settings, env: Env, shade: Ray -> Color, width: int, height: int,
                                          before: map<(int, int), Color>, ps: seq<(int, int)>)
    requires width != 0 && height != 0
    ensures forall p :: p in PaintAll(s, env, shade, width, height, before, ps) <==> p in before || p in ps
    ensures forall p :: p in ps ==>
              PaintAll(s, env, shade, width, height, before, ps)[p] == PixelValue(s, env, shade, width, height, p.0, p.1)
    ensures forall p :: p in before && p !in ps ==> PaintAll(s, env, shade, width, height, before, ps)[p] == before[p]
  {
    if ps != [] {
      var init := ps[..|ps| - 1];
      PaintAllEffect(s, env, shade, width, height, before, init);
      assert ps == init + [ps[|ps| - 1]];
    }
  }

  /** `rayTracer(canvas, horizontalChunk, verticalChunk, chunk)`. */
  method RayTracer(canvas: Canvas, s: Settings, env: Env, ghost shade: Ray -> Color,
                   horizontalChunk: int, verticalChunk: int, chunk: nat)
    requires canvas.width != 0 && canvas.height != 0
    requires Traces(s, env, shade)
    modifies canvas
    ensures canvas.width == old(canvas.width) && canvas.height == old(canvas.height)
    ensures canvas.writes == old(canvas.writes) + ColumnMajor(horizontalChunk, verticalChunk, chunk, chunk)
    ensures canvas.pixels == PaintAll(s, env, shade, canvas.width, canvas.height, old(canvas.pixels),
                                      ColumnMajor(horizontalChunk, verticalChunk, chunk, chunk))
  {
    var hc, vc := horizontalChunk, verticalChunk;
    var width, height := canvas.width, canvas.height;
    ghost var before := canvas.pixels;
    ghost var done: seq<(int, int)> := [];
    var x := hc;
    while x < hc + chunk
      invariant hc <= x <= hc + chunk
      invariant canvas.width == width && canvas.height == height
      invariant done == ColumnMajor(hc, vc, x - hc, chunk)
      invariant canvas.writes == old(canvas.writes) + done
      invariant canvas.pixels == PaintAll(s, env, shade, width, height, before, done)
    {
      PaintColumn(canvas, s, env, shade, x, vc, chunk, before, done);
      ColumnMajorSnoc(hc, vc, x, chunk);
      AppendAssociative(old(canvas.writes), done, Column(x, vc, chunk));
      done := done + Column(x, vc, chunk);
      x := x + 1;
    }
  }

  /** The inner `y` loop of `rayTracer`: one column of the block, top to
      bottom, after the pixels `done` were painted onto `before`. */
  method PaintColumn(canvas: Canvas, s: Settings, env: Env, ghost shade: Ray -> Color, x: int, vc: int, chunk: nat,
                     ghost before: map<(int, int), Color>, ghost done: seq<(int, int)>)
    requires canvas.width != 0 && canvas.height != 0
    requires Traces(s, env, shade)
    requires canvas.pixels == PaintAll(s, env, shade, canvas.width, canvas.height, before, done)
    modifies canvas
    ensures canvas.width == old(canvas.width) && canvas.height == old(canvas.height)
    ensures canvas.writes == old(canvas.writes) + Column(x, vc, chunk)
    ensures canvas.pixels == PaintAll(s, env, shade, canvas.width, canvas.height, before, done + Column(x, vc, chunk))
  {
    var width, height := canvas.width, canvas.height;
    ghost var painted := done;
    var y := vc;
    while y < vc + chunk
      invariant vc <= y <= vc + chunk
      invariant canvas.width == width && canvas.height == height
      invariant painted == done + Column(x, vc, y - vc)
      invariant canvas.writes == old(canvas.writes) + Column(x, vc, y - vc)
      invariant canvas.pixels == PaintAll(s, env, shade, width, height, before, painted)
    {
      var pixCol := ShadePixel(s, env, shade, width, height, x, y);
      PaintAllSnoc(s, env, shade, width, height, before, painted, (x, y));
      ColumnSnocAt(x, vc, y);
      AppendAssociative(done, Column(x, vc, y - vc), [(x, y)]);
      AppendAssociative(old(canvas.writes), Column(x, vc, y - vc), [(x, y)]);
      canvas.SetPixel(x, y, pixCol);
      painted := painted + [(x, y)];
      y := y + 1;
    }
  }

  /** After `rayTracer`, the block's pixels were added, each with its colour,
      and every other pixel kept its colour. */
  lemma BlockPainted(s: Settings, env: Env, shade: Ray -> Color, width: int, height: int,
                     before: map<(int, int), Color>, x0: int, y0: int, chunk: nat)
    requires width != 0 && height != 0
    ensures var after := PaintAll(s, env, shade, width, height, before, ColumnMajor(x0, y0, chunk, chunk));
            && (forall p :: p in after <==> p in before || InBlock(p, x0, y0, chunk, chunk))
            && (forall p :: InBlock(p, x0, y0, chunk, chunk) ==>
                  after[p] == PixelValue(s, env, shade, width, height, p.0, p.1))
            && (forall p :: p in before && !InBlock(p, x0, y0, chunk, chunk) ==> after[p] == before[p])
  {
    ColumnMajorExactlyOnce(x0, y0, chunk, chunk);
    PaintAllEffect(s, env, shade, width, height, before, ColumnMajor(x0, y0, chunk, chunk));
  }

  /** The pixels of a block up to column `x`, and then column `x`. */
  lemma ColumnMajorSnoc(x0: int, y0: int, x: int, h: nat)
    requires x0 <= x
    ensures ColumnMajor(x0, y0, x + 1 - x0, h) == ColumnMajor(x0, y0, x - x0, h) + Column(x, y0, h)
  {
  }
}
