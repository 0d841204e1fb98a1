/**
 * FastHessianFeatureIntensity: the determinant-of-Hessian response of the
 * Fast-Hessian (SURF) detector, computed from an integral image on a grid
 * sampled every `skip` pixels.  Output cell (x, y) is centred on integral
 * pixel (x * skip, y * skip).
 *
 * Three code paths fill the output map:
 *  - Naive: the reference, every cell by evaluating the three box kernels;
 *  - Border: the same per-cell evaluation on a band `Border` cells wide;
 *  - Inner: the rest of the map, reading the integral image through eight
 *    flat indexes that advance by `skip` per cell.
 * Intensity runs Border then Inner, and the result is the Naive map.
 */
module FastHessian {
  import opened Images

  // ---------------------------------------------------------------------------
  // Box geometry of a feature of the given size

  function Radius(size: int): int { size / 2 }                      // radiusFeature
  function BlockSmall(size: int): int { size / 3 }
  function BlockLarge(size: int): int { size - size / 3 - 1 }
  function RadiusSkinny(size: int): int { BlockLarge(size) / 2 }

  /** Smallest multiple of `skip` strictly above `Radius(size) + 1`. */
  function BorderOrig(size: int, skip: int): int
    requires 0 < skip
  {
    Radius(size) + 1 + (skip - (Radius(size) + 1) % skip)
  }

  /** Width, in output cells, of the band the incremental pass leaves to Border. */
  function Border(size: int, skip: int): int
    requires 0 < skip
  {
    BorderOrig(size, skip) / skip
  }

  /** Integral column (and row) of the first read of the first inner cell. */
  function LostPixel(size: int, skip: int): int
    requires 0 < skip
  {
    BorderOrig(size, skip) - Radius(size) - 1
  }

  /**
   * The border is a whole number of cells, its first integral pixel lies
   * strictly beyond the feature radius, and the lost pixels are between 1
   * and `skip`.
   */
  lemma BorderGeometry(size: int, skip: int)
    requires 0 <= size && 0 < skip
    ensures BorderOrig(size, skip) % skip == 0
    ensures Border(size, skip) * skip == BorderOrig(size, skip)
    ensures BorderOrig(size, skip) > Radius(size) + 1
    ensures 1 <= LostPixel(size, skip) <= skip
    ensures 1 <= Border(size, skip)
  {
    var m := Radius(size) + 1;
    var q := m / skip;
    assert BorderOrig(size, skip) == (q + 1) * skip;
    RowColDecode(q + 1, skip, 0);
  }

  // ---------------------------------------------------------------------------
  // Integral image sums and sparse kernels

  /** Integral image sample at (x, y); reads outside the image give 0. */
  function At(ii: IntegralImage, x: int, y: int): int
    requires ii.Valid()
  {
    if 0 <= x < ii.width && 0 <= y < ii.height then ii.Get(x, y) else 0
  }

  /** Sum of the source pixels in (x0, x1] x (y0, y1], from four integral samples. */
  function BlockSum(ii: IntegralImage, x0: int, y0: int, x1: int, y1: int): int
    requires ii.Valid()
  {
    At(ii, x1, y1) - At(ii, x0, y1) - At(ii, x1, y0) + At(ii, x0, y0)
  }

  /** A rectangle relative to the evaluation point. */
  datatype Rect = Rect(x0: int, y0: int, x1: int, y1: int)

  /** IntegralKernel: weighted rectangles. */
  datatype IntegralKernel = IntegralKernel(blocks: seq<Rect>, scales: seq<int>)
  {
    predicate Valid() { |blocks| == |scales| }
  }

  function SparseSum(ii: IntegralImage, k: IntegralKernel, x: int, y: int, n: nat): int
    requires ii.Valid() && n <= |k.blocks| && n <= |k.scales|
  {
    if n == 0 then 0
    else
      var b := k.blocks[n - 1];
      SparseSum(ii, k, x, y, n - 1) + BlockSum(ii, x + b.x0, y + b.y0, x + b.x1, y + b.y1) * k.scales[n - 1]
  }

  /** IntegralImageOps.convolveSparse: the kernel evaluated at (x, y). */
  function ConvolveSparse(ii: IntegralImage, k: IntegralKernel, x: int, y: int): int
    requires ii.Valid() && k.Valid()
  {
    SparseSum(ii, k, x, y, |k.blocks|)
  }

  /**
   * Second derivative in x: the 3*blockSmall x blockLarge box minus three
   * times its middle blockSmall-wide strip.
   */
  function KernelXX(size: int): (k: IntegralKernel)
    ensures k.Valid()
  {
    ColumnStripKernel(Radius(size), RadiusSkinny(size), BlockSmall(size), BlockLarge(size))
  }

  /** KernelXX's rectangles for a given radius, skinny radius and block sizes. */
  function ColumnStripKernel(r: int, rs: int, bs: int, bl: int): (k: IntegralKernel)
    ensures k.Valid()
  {
    IntegralKernel([Rect(-r - 1, -rs - 1, -r - 1 + 3 * bs, -rs - 1 + bl),
                    Rect(-r - 1 + bs, -rs - 1, -r - 1 + 2 * bs, -rs - 1 + bl)],
                   [1, -3])
  }

  /** Second derivative in y: the transpose of KernelXX. */
  function KernelYY(size: int): (k: IntegralKernel)
    ensures k.Valid()
  {
    RowStripKernel(Radius(size), RadiusSkinny(size), BlockSmall(size), BlockLarge(size))
  }

  /** KernelYY's rectangles for a given radius, skinny radius and block sizes. */
  function RowStripKernel(r: int, rs: int, bs: int, bl: int): (k: IntegralKernel)
    ensures k.Valid()
  {
    IntegralKernel([Rect(-rs - 1, -r - 1, -rs - 1 + bl, -r - 1 + 3 * bs),
                    Rect(-rs - 1, -r - 1 + bs, -rs - 1 + bl, -r - 1 + 2 * bs)],
                   [1, -3])
  }

  /**
   * Mixed derivative: four blockSmall x blockSmall quadrants around the point,
   * separated by one pixel, weighted top-left - top-right + bottom-right - bottom-left.
   */
  function KernelXY(size: int): (k: IntegralKernel)
    ensures k.Valid()
  {
    var bs := BlockSmall(size);
    IntegralKernel([Rect(-bs - 1, -bs - 1, -1, -1), Rect(0, -bs - 1, bs, -1),
                    Rect(0, 0, bs, bs), Rect(-bs - 1, 0, -1, bs)],
                   [1, -1, 1, -1])
  }

  // ---------------------------------------------------------------------------
  // The per-point response

  /** Each derivative scaled by 1/size², then Dxx * Dyy - 0.81 * Dxy². */
  function Response(dxx: int, dyy: int, dxy: int, size: int): real
    requires size != 0
  {
    var norm := 1.0 / ((size * size) as real);
    (dxx as real * norm) * (dyy as real * norm) - 0.81 * (dxy as real * norm) * (dxy as real * norm)
  }

  /**
   * The response is the determinant of the normalised Hessian
   * [[Dxx, 0.9 Dxy], [0.9 Dxy, Dyy]] / size².
   */
  lemma ResponseIsDeterminant(dxx: int, dyy: int, dxy: int, size: int)
    requires size != 0
    ensures var n := (size * size) as real;
            Response(dxx, dyy, dxy, size) == (dxx as real / n) * (dyy as real / n) - (0.9 * dxy as real / n) * (0.9 * dxy as real / n)
  {
  }

  /** Fast-Hessian response with the feature centred on integral pixel (xx, yy). */
  function HessianAt(ii: IntegralImage, size: int, xx: int, yy: int): real
    requires ii.Valid() && size != 0
  {
    Response(ConvolveSparse(ii, KernelXX(size), xx, yy),
             ConvolveSparse(ii, KernelYY(size), xx, yy),
             ConvolveSparse(ii, KernelXY(size), xx, yy), size)
  }

  /** The value every path writes into output cell (x, y). */
  function CellResponse(ii: IntegralImage, size: int, skip: int, x: int, y: int): real
    requires ii.Valid() && size != 0
  {
    HessianAt(ii, size, x * skip, y * skip)
  }

  // ---------------------------------------------------------------------------
  // Which cells each path writes

  /** Cells written by the first loop of Border (all rows). */
  predicate InColumnBands(w: int, b: int, x: int) { x < b || w - b <= x }
  /** Cells written by the second loop of Border (remaining columns). */
  predicate InRowBands(w: int, h: int, b: int, x: int, y: int) {
    b <= x < w - b && (y < b || h - b <= y)
  }
  predicate InBorder(w: int, h: int, b: int, x: int, y: int) {
    InColumnBands(w, b, x) || InRowBands(w, h, b, x, y)
  }
  /** Cells written by Inner. */
  predicate InInner(w: int, h: int, b: int, x: int, y: int) {
    b <= x < w - b && b <= y < h - b
  }

  /** How many of Border's four loops and Inner's loop write cell (x, y). */
  function Writes(w: int, h: int, b: int, x: int, y: int): nat {
    (if x < b then 1 else 0) + (if w - b <= x then 1 else 0) +
    (if b <= x < w - b && y < b then 1 else 0) + (if b <= x < w - b && h - b <= y then 1 else 0) +
    (if InInner(w, h, b, x, y) then 1 else 0)
  }

  /**
   * Border and Inner together write every cell; when the map is at least two
   * borders wide and high, every cell is written exactly once.
   */
  lemma CellsCovered(w: int, h: int, b: int, x: int, y: int)
    requires 0 <= x < w && 0 <= y < h
    ensures InBorder(w, h, b, x, y) || InInner(w, h, b, x, y)
    ensures Writes(w, h, b, x, y) >= 1
    ensures 2 * b <= w && 2 * b <= h ==> Writes(w, h, b, x, y) == 1
    ensures InBorder(w, h, b, x, y) && InInner(w, h, b, x, y) ==> false
  {
  }

  // ---------------------------------------------------------------------------
  // The output map, as a sequence

  /** The response map: output cell (x, y) holds the response at its sample. */
  ghost function ResponseMap(ii: IntegralImage, size: int, skip: int): (int, int) -> real
    requires ii.Valid() && size != 0
  {
    (x, y) => CellResponse(ii, size, skip, x, y)
  }

  /**
   * `s` holds the response at every cell of `img` that `done` selects and
   * the value of `before` at every other index.
   */
  ghost predicate Filled(img: GrayF32, s: seq<real>, before: seq<real>, ii: IntegralImage,
                         size: int, skip: int, done: (int, int) -> bool)
    reads img
    requires ii.Valid() && size != 0
  {
    Painted(img, s, before, ResponseMap(ii, size, skip), done)
  }

  lemma FilledStart(img: GrayF32, s: seq<real>, ii: IntegralImage, size: int, skip: int)
    requires ii.Valid() && size != 0 && |s| == img.data.Length
    ensures Filled(img, s, s, ii, size, skip, (a, b) => false)
  {
    PaintedStart(img, s, ResponseMap(ii, size, skip));
  }

  /** Writing the response of cell (x, y) adds (x, y) to the filled cells. */
  lemma FilledStep(img: GrayF32, s: seq<real>, before: seq<real>, ii: IntegralImage, size: int, skip: int,
                   done: (int, int) -> bool, done2: (int, int) -> bool, x: int, y: int)
    requires ii.Valid() && size != 0 && img.Valid()
    requires 0 <= x < img.width && 0 <= y < img.height
    requires Filled(img, s, before, ii, size, skip, done)
    requires forall a, b :: done2(a, b) == (done(a, b) || (a == x && b == y))
    ensures 0 <= img.Index(x, y) < |s|
    ensures Filled(img, s[img.Index(x, y) := CellResponse(ii, size, skip, x, y)], before, ii, size, skip, done2)
  {
    PaintedStep(img, s, before, ResponseMap(ii, size, skip), done, done2, x, y);
  }

  /** Filled regions that select the same cells are interchangeable. */
  lemma FilledSame(img: GrayF32, s: seq<real>, before: seq<real>, ii: IntegralImage, size: int, skip: int,
                   done: (int, int) -> bool, done2: (int, int) -> bool)
    requires ii.Valid() && size != 0 && img.Valid()
    requires Filled(img, s, before, ii, size, skip, done)
    requires forall a, b :: 0 <= a < img.width && 0 <= b < img.height ==> done2(a, b) == done(a, b)
    ensures Filled(img, s, before, ii, size, skip, done2)
  {
    PaintedSame(img, s, before, ResponseMap(ii, size, skip), done, done2);
  }

  /** What Filled says about the cells of the image. */
  lemma FilledCells(img: GrayF32, s: seq<real>, before: seq<real>, ii: IntegralImage, size: int, skip: int,
                    done: (int, int) -> bool, x: int, y: int)
    requires ii.Valid() && size != 0 && img.Valid()
    requires Filled(img, s, before, ii, size, skip, done)
    requires 0 <= x < img.width && 0 <= y < img.height
    ensures 0 <= img.Index(x, y) < |s|
    ensures s[img.Index(x, y)] == if done(x, y) then CellResponse(ii, size, skip, x, y) else before[img.Index(x, y)]
  {
    PaintedCell(img, s, before, ResponseMap(ii, size, skip), done, x, y);
  }

  /** A map filled everywhere holds the response at every cell. */
  lemma FilledEverywhere(img: GrayF32, s: seq<real>, before: seq<real>, ii: IntegralImage, size: int, skip: int)
    requires ii.Valid() && size != 0 && img.Valid()
    requires Filled(img, s, before, ii, size, skip, (a, b) => true)
    ensures forall x, y :: 0 <= x < img.width && 0 <= y < img.height ==>
      0 <= img.Index(x, y) < |s| && s[img.Index(x, y)] == CellResponse(ii, size, skip, x, y)
  {
    forall x, y | 0 <= x < img.width && 0 <= y < img.height
      ensures 0 <= img.Index(x, y) < |s| && s[img.Index(x, y)] == CellResponse(ii, size, skip, x, y)
    {
      FilledCells(img, s, before, ii, size, skip, (a, b) => true, x, y);
    }
  }

  // ---------------------------------------------------------------------------
  // The brute-force paths

  /** computeIntensity: the response at integral pixel (xx, yy) stored at output cell (x, y). */
  method ComputeIntensity(ii: IntegralImage, intensity: GrayF32, size: int, x: int, y: int, xx: int, yy: int)
    requires ii.Valid() && size != 0 && intensity.Valid()
    requires 0 <= x < intensity.width && 0 <= y < intensity.height
    modifies intensity.data
    ensures 0 <= intensity.Index(x, y) < intensity.data.Length
    ensures intensity.data[..] == old(intensity.data[..])[intensity.Index(x, y) := HessianAt(ii, size, xx, yy)]
  {
    var dxx := ConvolveSparse(ii, KernelXX(size), xx, yy);
    var dyy := ConvolveSparse(ii, KernelYY(size), xx, yy);
    var dxy := ConvolveSparse(ii, KernelXY(size), xx, yy);
    intensity.CellIndex(x, y);
    intensity.data[intensity.Index(x, y)] := Response(dxx, dyy, dxy, size);
  }

  /** naive: every cell of the map from the three kernels. */
  method Naive(ii: IntegralImage, skip: int, size: int, intensity: GrayF32)
    requires ii.Valid() && intensity.Valid() && 0 < size
    modifies intensity.data
    ensures Filled(intensity, intensity.data[..], old(intensity.data[..]), ii, size, skip, (a, b) => true)
    ensures forall x, y :: 0 <= x < intensity.width && 0 <= y < intensity.height ==>
      intensity.Get(x, y) == HessianAt(ii, size, x * skip, y * skip)
  {
    var w, h := intensity.width, intensity.height;
    FilledStart(intensity, intensity.data[..], ii, size, skip);
    FilledSame(intensity, intensity.data[..], old(intensity.data[..]), ii, size, skip,
               (a, b) => false, (a, b) => b < 0);
    for y := 0 to h
      invariant Filled(intensity, intensity.data[..], old(intensity.data[..]), ii, size, skip, (a, b) => b < y)
    {
      FilledSame(intensity, intensity.data[..], old(intensity.data[..]), ii, size, skip,
                 (a, b) => b < y, (a, b) => b < y || (b == y && a < 0));
      for x := 0 to w
        invariant Filled(intensity, intensity.data[..], old(intensity.data[..]), ii, size, skip,
                         (a, b) => b < y || (b == y && a < x))
      {
        var xx := x * skip;
        var yy := y * skip;
        ghost var s := intensity.data[..];
        FilledStep(intensity, s, old(intensity.data[..]), ii, size, skip,
                   (a, b) => b < y || (b == y && a < x), (a, b) => b < y || (b == y && a < x + 1), x, y);
        ComputeIntensity(ii, intensity, size, x, y, xx, yy);
      }
      FilledSame(intensity, intensity.data[..], old(intensity.data[..]), ii, size, skip,
                 (a, b) => b < y || (b == y && a < w), (a, b) => b < y + 1);
    }
    FilledSame(intensity, intensity.data[..], old(intensity.data[..]), ii, size, skip,
               (a, b) => b < h, (a, b) => true);
    FilledEverywhere(intensity, intensity.data[..], old(intensity.data[..]), ii, size, skip);
  }

  /**
   * What `border` asks of the map: when it has rows, it is at least one
   * border wide, and when columns remain between the two column bands, it is
   * at least one border high.
   */
  predicate BorderFits(w: int, h: int, b: int) {
    (0 < h ==> b <= w) && (b < w - b ==> b <= h)
  }

  /** border: the cells within `Border` cells of an edge, by brute force. */
  method BorderPass(ii: IntegralImage, skip: int, size: int, intensity: GrayF32)
    requires ii.Valid() && intensity.Valid() && 0 < skip && 0 < size
    requires BorderFits(intensity.width, intensity.height, Border(size, skip))
    modifies intensity.data
    ensures var w, h := intensity.width, intensity.height;
            Filled(intensity, intensity.data[..], old(intensity.data[..]), ii, size, skip,
                   (a, b) => InBorder(w, h, Border(size, skip), a, b))
  {
    var border := BorderOrig(size, skip) / skip;
    BorderGeometry(size, skip);
    ghost var before := intensity.data[..];
    ColumnBands(ii, skip, size, intensity, border);
    RowBands(ii, skip, size, intensity, border, before);
  }

  /** The first loop of `border`: in every row, the first and last `border` cells. */
  method ColumnBands(ii: IntegralImage, skip: int, size: int, intensity: GrayF32, border: int)
    requires ii.Valid() && intensity.Valid() && 0 < skip && 0 < size
    requires 0 <= border && (0 < intensity.height ==> border <= intensity.width)
    modifies intensity.data
    ensures var w := intensity.width;
            Filled(intensity, intensity.data[..], old(intensity.data[..]), ii, size, skip,
                   (a, b) => a < border || w - border <= a)
  {
    var w, h := intensity.width, intensity.height;
    ghost var before := intensity.data[..];
    FilledStart(intensity, before, ii, size, skip);
    FilledSame(intensity, before, before, ii, size, skip, (a, b) => false, (a, b) => b < 0 && (a < border || w - border <= a));
    for y := 0 to h
      invariant Filled(intensity, intensity.data[..], before, ii, size, skip,
                       (a, b) => b < y && (a < border || w - border <= a))
    {
      ghost var rows := (a, b) => b < y && (a < border || w - border <= a);
      FillRow(ii, skip, size, intensity, y, 0, border, before, rows);
      ghost var left := (a, b) => rows(a, b) || (b == y && 0 <= a < border);
      FillRow(ii, skip, size, intensity, y, w - border, w, before, left);
      FilledSame(intensity, intensity.data[..], before, ii, size, skip,
                 (a, b) => left(a, b) || (b == y && w - border <= a < w),
                 (a, b) => b < y + 1 && (a < border || w - border <= a));
    }
    FilledSame(intensity, intensity.data[..], before, ii, size, skip,
               (a, b) => b < h && (a < border || w - border <= a),
               (a, b) => a < border || w - border <= a);
  }

  /** The second loop of `border`: for the remaining columns, the first and last `border` rows. */
  method RowBands(ii: IntegralImage, skip: int, size: int, intensity: GrayF32, border: int, ghost before: seq<real>)
    requires ii.Valid() && intensity.Valid() && 0 < skip && 0 < size
    requires 0 <= border && (border < intensity.width - border ==> border <= intensity.height)
    requires var w := intensity.width;
             Filled(intensity, intensity.data[..], before, ii, size, skip, (a, b) => a < border || w - border <= a)
    modifies intensity.data
    ensures var w, h := intensity.width, intensity.height;
            Filled(intensity, intensity.data[..], before, ii, size, skip, (a, b) => InBorder(w, h, border, a, b))
  {
    var w, h := intensity.width, intensity.height;
    FilledSame(intensity, intensity.data[..], before, ii, size, skip,
               (a, b) => a < border || w - border <= a,
               (a, b) => (a < border || w - border <= a) || (border <= a < border && (b < border || h - border <= b)));
    var x := border;
    while x < w - border
      invariant border <= x && (border <= w - border ==> x <= w - border)
      invariant Filled(intensity, intensity.data[..], before, ii, size, skip,
                       (a, b) => (a < border || w - border <= a) || (border <= a < x && (b < border || h - border <= b)))
    {
      ghost var cols := (a, b) => (a < border || w - border <= a) || (border <= a < x && (b < border || h - border <= b));
      FillColumn(ii, skip, size, intensity, x, 0, border, before, cols);
      ghost var top := (a, b) => cols(a, b) || (a == x && 0 <= b < border);
      FillColumn(ii, skip, size, intensity, x, h - border, h, before, top);
      FilledSame(intensity, intensity.data[..], before, ii, size, skip,
                 (a, b) => top(a, b) || (a == x && h - border <= b < h),
                 (a, b) => (a < border || w - border <= a) || (border <= a < x + 1 && (b < border || h - border <= b)));
      x := x + 1;
    }
    FilledSame(intensity, intensity.data[..], before, ii, size, skip,
               (a, b) => (a < border || w - border <= a) || (border <= a < x && (b < border || h - border <= b)),
               (a, b) => InBorder(w, h, border, a, b));
  }

  /** Cells x0 .. x1 - 1 of row y, computed one by one and added to `done`. */
  method FillRow(ii: IntegralImage, skip: int, size: int, intensity: GrayF32, y: int, x0: int, x1: int,
                 ghost before: seq<real>, ghost done: (int, int) -> bool)
    requires ii.Valid() && intensity.Valid() && 0 < skip && 0 < size
    requires 0 <= y < intensity.height && 0 <= x0 <= x1 <= intensity.width
    requires Filled(intensity, intensity.data[..], before, ii, size, skip, done)
    modifies intensity.data
    ensures Filled(intensity, intensity.data[..], before, ii, size, skip, (a, b) => done(a, b) || (b == y && x0 <= a < x1))
  {
    var yy := y * skip;
    FilledSame(intensity, intensity.data[..], before, ii, size, skip, done, (a, b) => done(a, b) || (b == y && x0 <= a < x0));
    for x := x0 to x1
      invariant Filled(intensity, intensity.data[..], before, ii, size, skip, (a, b) => done(a, b) || (b == y && x0 <= a < x))
    {
      var xx := x * skip;
      FilledStep(intensity, intensity.data[..], before, ii, size, skip,
                 (a, b) => done(a, b) || (b == y && x0 <= a < x), (a, b) => done(a, b) || (b == y && x0 <= a < x + 1), x, y);
      ComputeIntensity(ii, intensity, size, x, y, xx, yy);
    }
  }

  /** Cells y0 .. y1 - 1 of column x, computed one by one and added to `done`. */
  method FillColumn(ii: IntegralImage, skip: int, size: int, intensity: GrayF32, x: int, y0: int, y1: int,
                    ghost before: seq<real>, ghost done: (int, int) -> bool)
    requires ii.Valid() && intensity.Valid() && 0 < skip && 0 < size
    requires 0 <= x < intensity.width && 0 <= y0 <= y1 <= intensity.height
    requires Filled(intensity, intensity.data[..], before, ii, size, skip, done)
    modifies intensity.data
    ensures Filled(intensity, intensity.data[..], before, ii, size, skip, (a, b) => done(a, b) || (a == x && y0 <= b < y1))
  {
    var xx := x * skip;
    FilledSame(intensity, intensity.data[..], before, ii, size, skip, done, (a, b) => done(a, b) || (a == x && y0 <= b < y0));
    for y := y0 to y1
      invariant Filled(intensity, intensity.data[..], before, ii, size, skip, (a, b) => done(a, b) || (a == x && y0 <= b < y))
    {
      var yy := y * skip;
      FilledStep(intensity, intensity.data[..], before, ii, size, skip,
                 (a, b) => done(a, b) || (a == x && y0 <= b < y), (a, b) => done(a, b) || (a == x && y0 <= b < y + 1), x, y);
      ComputeIntensity(ii, intensity, size, x, y, xx, yy);
    }
  }

  // ---------------------------------------------------------------------------
  // The incremental pass

  /** Every integral pixel the three kernels read around (xx, yy) lies inside the image. */
  predicate KernelsInside(ii: IntegralImage, size: int, xx: int, yy: int) {
    0 <= xx - Radius(size) - 1 && xx + Radius(size) < ii.width &&
    0 <= yy - Radius(size) - 1 && yy + Radius(size) < ii.height
  }

  /** The kernels' rectangles all fit in [-radius-1, radius] in both directions. */
  lemma KernelExtent(size: int)
    requires 1 <= size
    ensures 0 <= BlockSmall(size) <= Radius(size) && 3 * BlockSmall(size) <= 2 * Radius(size) + 1
    ensures 0 <= RadiusSkinny(size) <= Radius(size) && 0 <= BlockLarge(size)
    ensures BlockLarge(size) - RadiusSkinny(size) - 1 <= Radius(size)
  {
  }

  /** Every cell of the inner block has all its kernel reads inside the integral image. */
  lemma InnerCellInside(ii: IntegralImage, size: int, skip: int, w: int, h: int, x: int, y: int)
    requires 1 <= size && 0 < skip
    requires w * skip <= ii.width && h * skip <= ii.height
    requires InInner(w, h, Border(size, skip), x, y)
    ensures KernelsInside(ii, size, x * skip, y * skip)
  {
    var b := Border(size, skip);
    BorderGeometry(size, skip);
    MulMono(b, x, skip);
    MulMono(x, w - b - 1, skip);
    assert (w - b - 1) * skip == w * skip - b * skip - skip;
    MulMono(b, y, skip);
    MulMono(y, h - b - 1, skip);
    assert (h - b - 1) * skip == h * skip - b * skip - skip;
  }

  /** Inside the image, a rectangle of the integral image is four stored samples. */
  lemma BlockFromStore(ii: IntegralImage, x0: int, y0: int, x1: int, y1: int)
    requires ii.Valid() && 0 <= x0 <= x1 < ii.width && 0 <= y0 <= y1 < ii.height
    ensures 0 <= ii.Index(x0, y0) < |ii.data| && 0 <= ii.Index(x1, y0) < |ii.data|
    ensures 0 <= ii.Index(x0, y1) < |ii.data| && 0 <= ii.Index(x1, y1) < |ii.data|
    ensures BlockSum(ii, x0, y0, x1, y1) ==
      ii.data[ii.Index(x1, y1)] - ii.data[ii.Index(x0, y1)] - ii.data[ii.Index(x1, y0)] + ii.data[ii.Index(x0, y0)]
  {
    ii.IndexInData(x0, y0);
    ii.IndexInData(x1, y0);
    ii.IndexInData(x0, y1);
    ii.IndexInData(x1, y1);
  }

  /** BlockFromStore with the four corner indexes already known. */
  lemma BlockRead(ii: IntegralImage, x0: int, y0: int, x1: int, y1: int, i00: int, i10: int, i01: int, i11: int)
    requires ii.Valid() && 0 <= x0 <= x1 < ii.width && 0 <= y0 <= y1 < ii.height
    requires i00 == ii.Index(x0, y0) && i10 == ii.Index(x1, y0) && i01 == ii.Index(x0, y1) && i11 == ii.Index(x1, y1)
    ensures 0 <= i00 < |ii.data| && 0 <= i10 < |ii.data| && 0 <= i01 < |ii.data| && 0 <= i11 < |ii.data|
    ensures BlockSum(ii, x0, y0, x1, y1) == ii.data[i11] - ii.data[i01] - ii.data[i10] + ii.data[i00]
  {
    BlockFromStore(ii, x0, y0, x1, y1);
  }

  /** Columns [top, top + 3bs] and [bottom, bottom + 3bs] are inside the store. */
  predicate DxxReadable(data: seq<int>, top: int, bottom: int, bs: int) {
    0 <= bs && 0 <= top && 0 <= bottom && top + 3 * bs < |data| && bottom + 3 * bs < |data|
  }

  /** Dxx from the samples at the running indexes `top` and `bottom`. */
  function DxxRead(data: seq<int>, top: int, bottom: int, bs: int): int
    requires DxxReadable(data, top, bottom, bs)
  {
    data[bottom + 3 * bs] - data[top + 3 * bs] - data[bottom] + data[top]
    - 3 * (data[bottom + 2 * bs] - data[top + 2 * bs] - data[bottom + bs] + data[top + bs])
  }

  /** Indexes left and right, and three row offsets below each, are inside the store. */
  predicate DyyReadable(data: seq<int>, left: int, right: int, rowOff: int) {
    0 <= rowOff && 0 <= left && 0 <= right && left + 3 * rowOff < |data| && right + 3 * rowOff < |data|
  }

  /** Dyy from the samples at the running indexes `left` and `right`, `rowOff` being blockSmall rows. */
  function DyyRead(data: seq<int>, left: int, right: int, rowOff: int): int
    requires DyyReadable(data, left, right, rowOff)
  {
    data[right + 3 * rowOff] - data[left + 3 * rowOff] - data[right] + data[left]
    - 3 * (data[right + 2 * rowOff] - data[left + 2 * rowOff] - data[right + rowOff] + data[left + rowOff])
  }

  /** Columns [yi, yi + 2bs + 1] of the four rows are inside the store. */
  predicate DxyReadable(data: seq<int>, y1: int, y2: int, y3: int, y4: int, bs: int) {
    0 <= bs && 0 <= y1 && 0 <= y2 && 0 <= y3 && 0 <= y4 &&
    y1 + 2 * bs + 1 < |data| && y2 + 2 * bs + 1 < |data| &&
    y3 + 2 * bs + 1 < |data| && y4 + 2 * bs + 1 < |data|
  }

  /** Dxy from the samples at the four running row indexes. */
  function DxyRead(data: seq<int>, y1: int, y2: int, y3: int, y4: int, bs: int): int
    requires DxyReadable(data, y1, y2, y3, y4, bs)
  {
    var x3 := bs + 1;
    var x4 := x3 + bs;
    data[y2 + bs] - data[y1 + bs] - data[y2] + data[y1]
    - (data[y2 + x4] - data[y1 + x4] - data[y2 + x3] + data[y1 + x3])
    + (data[y4 + x4] - data[y3 + x4] - data[y4 + x3] + data[y3 + x3])
    - (data[y4 + bs] - data[y3 + bs] - data[y4] + data[y3])
  }

  /** Block `i` of kernel `k` at (x, y), weighted by its scale. */
  function Weighted(ii: IntegralImage, k: IntegralKernel, x: int, y: int, i: nat): int
    requires ii.Valid() && i < |k.blocks| && i < |k.scales|
  {
    var b := k.blocks[i];
    BlockSum(ii, x + b.x0, y + b.y0, x + b.x1, y + b.y1) * k.scales[i]
  }

  /** A kernel of two rectangles is the sum of its two weighted blocks. */
  lemma TwoBlocks(ii: IntegralImage, k: IntegralKernel, x: int, y: int)
    requires ii.Valid() && |k.blocks| == 2 && |k.scales| == 2
    ensures ConvolveSparse(ii, k, x, y) == Weighted(ii, k, x, y, 0) + Weighted(ii, k, x, y, 1)
  {
    assert SparseSum(ii, k, x, y, 1) == Weighted(ii, k, x, y, 0);
  }

  /** A kernel of four rectangles is the sum of its four weighted blocks. */
  lemma FourBlocks(ii: IntegralImage, k: IntegralKernel, x: int, y: int)
    requires ii.Valid() && |k.blocks| == 4 && |k.scales| == 4
    ensures ConvolveSparse(ii, k, x, y) ==
      Weighted(ii, k, x, y, 0) + Weighted(ii, k, x, y, 1) + Weighted(ii, k, x, y, 2) + Weighted(ii, k, x, y, 3)
  {
    assert SparseSum(ii, k, x, y, 1) == Weighted(ii, k, x, y, 0);
    assert SparseSum(ii, k, x, y, 2) == SparseSum(ii, k, x, y, 1) + Weighted(ii, k, x, y, 1);
    assert SparseSum(ii, k, x, y, 3) == SparseSum(ii, k, x, y, 2) + Weighted(ii, k, x, y, 2);
  }

  /**
   * The 3bs x bl box with top-left corner (c, t), minus three times its middle
   * bs-wide strip.
   */
  function ColumnStrips(ii: IntegralImage, c: int, t: int, bs: int, bl: int): int
    requires ii.Valid()
  {
    BlockSum(ii, c, t, c + 3 * bs, t + bl) - 3 * BlockSum(ii, c + bs, t, c + 2 * bs, t + bl)
  }

  /** The transpose of ColumnStrips: a bl x 3bs box minus three times its middle bs-high strip. */
  function RowStrips(ii: IntegralImage, l: int, t: int, bs: int, bl: int): int
    requires ii.Valid()
  {
    BlockSum(ii, l, t, l + bl, t + 3 * bs) - 3 * BlockSum(ii, l, t + bs, l + bl, t + 2 * bs)
  }

  /** KernelXX at (xx, yy): the whole box minus three times the middle strip. */
  lemma KernelXXSum(ii: IntegralImage, size: int, xx: int, yy: int)
    requires ii.Valid()
    ensures ConvolveSparse(ii, KernelXX(size), xx, yy) ==
      ColumnStrips(ii, xx - Radius(size) - 1, yy - RadiusSkinny(size) - 1, BlockSmall(size), BlockLarge(size))
  {
    ColumnStripKernelSum(ii, Radius(size), RadiusSkinny(size), BlockSmall(size), BlockLarge(size), xx, yy);
  }

  /** ColumnStripKernel at (xx, yy) is ColumnStrips from the box's top-left corner. */
  lemma ColumnStripKernelSum(ii: IntegralImage, r: int, rs: int, bs: int, bl: int, xx: int, yy: int)
    requires ii.Valid()
    ensures ConvolveSparse(ii, ColumnStripKernel(r, rs, bs, bl), xx, yy) == ColumnStrips(ii, xx - r - 1, yy - rs - 1, bs, bl)
  {
    TwoBlocks(ii, ColumnStripKernel(r, rs, bs, bl), xx, yy);
  }

  /** KernelYY at (xx, yy): the transpose of KernelXXSum. */
  lemma KernelYYSum(ii: IntegralImage, size: int, xx: int, yy: int)
    requires ii.Valid()
    ensures ConvolveSparse(ii, KernelYY(size), xx, yy) ==
      RowStrips(ii, xx - RadiusSkinny(size) - 1, yy - Radius(size) - 1, BlockSmall(size), BlockLarge(size))
  {
    RowStripKernelSum(ii, Radius(size), RadiusSkinny(size), BlockSmall(size), BlockLarge(size), xx, yy);
  }

  /** RowStripKernel at (xx, yy) is RowStrips from the box's top-left corner. */
  lemma RowStripKernelSum(ii: IntegralImage, r: int, rs: int, bs: int, bl: int, xx: int, yy: int)
    requires ii.Valid()
    ensures ConvolveSparse(ii, RowStripKernel(r, rs, bs, bl), xx, yy) == RowStrips(ii, xx - rs - 1, yy - r - 1, bs, bl)
  {
    TwoBlocks(ii, RowStripKernel(r, rs, bs, bl), xx, yy);
  }

  /** The four bs x bs quadrants around (xx, yy): top-left - top-right + bottom-right - bottom-left. */
  function Quadrants(ii: IntegralImage, xx: int, yy: int, bs: int): int
    requires ii.Valid()
  {
    BlockSum(ii, xx - bs - 1, yy - bs - 1, xx - 1, yy - 1) - BlockSum(ii, xx, yy - bs - 1, xx + bs, yy - 1)
    + BlockSum(ii, xx, yy, xx + bs, yy + bs) - BlockSum(ii, xx - bs - 1, yy, xx - 1, yy + bs)
  }

  /** KernelXY at (xx, yy): top-left - top-right + bottom-right - bottom-left quadrant. */
  lemma KernelXYSum(ii: IntegralImage, size: int, xx: int, yy: int)
    requires ii.Valid()
    ensures ConvolveSparse(ii, KernelXY(size), xx, yy) == Quadrants(ii, xx, yy, BlockSmall(size))
  {
    FourBlocks(ii, KernelXY(size), xx, yy);
  }

  /** The Dxx reads at `top` = (c, t) and `bottom` = (c, t + bl) are the two Dxx boxes. */
  lemma DxxBlocks(ii: IntegralImage, c: int, t: int, bs: int, bl: int, top: int, bottom: int)
    requires ii.Valid() && 0 <= bs && 0 <= bl
    requires 0 <= c && c + 3 * bs < ii.width && 0 <= t && t + bl < ii.height
    requires top == ii.Index(c, t) && bottom == ii.Index(c, t + bl)
    ensures DxxReadable(ii.data, top, bottom, bs)
    ensures DxxRead(ii.data, top, bottom, bs) == ColumnStrips(ii, c, t, bs, bl)
  {
    BlockFromStore(ii, c, t, c + 3 * bs, t + bl);
    BlockFromStore(ii, c + bs, t, c + 2 * bs, t + bl);
  }

  /** Moving down one, two and three blocks of `bs` rows. */
  lemma BlockRowIndexes(ii: IntegralImage, x: int, y: int, bs: int)
    ensures ii.Index(x, y + bs) == ii.Index(x, y) + bs * ii.stride
    ensures ii.Index(x, y + 2 * bs) == ii.Index(x, y) + 2 * (bs * ii.stride)
    ensures ii.Index(x, y + 3 * bs) == ii.Index(x, y) + 3 * (bs * ii.stride)
  {
    assert (y + bs) * ii.stride == y * ii.stride + bs * ii.stride;
    assert (y + 2 * bs) * ii.stride == y * ii.stride + 2 * (bs * ii.stride);
    assert (y + 3 * bs) * ii.stride == y * ii.stride + 3 * (bs * ii.stride);
  }

  /** The Dyy reads at `left` = (l, t) and `right` = (l + bl, t) are the two Dyy boxes. */
  lemma DyyBlocks(ii: IntegralImage, l: int, t: int, bs: int, bl: int, left: int, right: int)
    requires ii.Valid() && 0 <= bs && 0 <= bl
    requires 0 <= l && l + bl < ii.width && 0 <= t && t + 3 * bs < ii.height
    requires left == ii.Index(l, t) && right == ii.Index(l + bl, t)
    ensures DyyReadable(ii.data, left, right, bs * ii.stride)
    ensures DyyRead(ii.data, left, right, bs * ii.stride) == RowStrips(ii, l, t, bs, bl)
  {
    var rowOff := bs * ii.stride;
    BlockRowIndexes(ii, l, t, bs);
    BlockRowIndexes(ii, l + bl, t, bs);
    BlockRead(ii, l, t, l + bl, t + 3 * bs, left, right, left + 3 * rowOff, right + 3 * rowOff);
    BlockRead(ii, l, t + bs, l + bl, t + 2 * bs, left + rowOff, right + rowOff, left + 2 * rowOff, right + 2 * rowOff);
  }

  /**
   * Two of the Dxy quadrants, side by side between rows r0 and r1, read at the
   * running indexes of those rows.
   */
  lemma QuadrantPair(ii: IntegralImage, xx: int, r0: int, r1: int, bs: int)
    requires ii.Valid() && 0 <= bs && 0 <= xx - bs - 1 && xx + bs < ii.width && 0 <= r0 <= r1 < ii.height
    ensures var i, j, x3, x4 := ii.Index(xx - bs - 1, r0), ii.Index(xx - bs - 1, r1), bs + 1, 2 * bs + 1;
            0 <= i && 0 <= j && i + x4 < |ii.data| && j + x4 < |ii.data| &&
            ii.data[j + bs] - ii.data[i + bs] - ii.data[j] + ii.data[i] == BlockSum(ii, xx - bs - 1, r0, xx - 1, r1) &&
            ii.data[j + x4] - ii.data[i + x4] - ii.data[j + x3] + ii.data[i + x3] == BlockSum(ii, xx, r0, xx + bs, r1)
  {
    BlockFromStore(ii, xx - bs - 1, r0, xx - 1, r1);
    BlockFromStore(ii, xx, r0, xx + bs, r1);
  }

  /** The Dxy reads at the four running row indexes are the four quadrants around (xx, yy). */
  lemma DxyBlocks(ii: IntegralImage, xx: int, yy: int, bs: int, y1: int, y2: int, y3: int, y4: int)
    requires ii.Valid() && 0 <= bs
    requires 0 <= xx - bs - 1 && xx + bs < ii.width && 0 <= yy - bs - 1 && yy + bs < ii.height
    requires y1 == ii.Index(xx - bs - 1, yy - bs - 1) && y2 == ii.Index(xx - bs - 1, yy - 1)
    requires y3 == ii.Index(xx - bs - 1, yy) && y4 == ii.Index(xx - bs - 1, yy + bs)
    ensures DxyReadable(ii.data, y1, y2, y3, y4, bs)
    ensures DxyRead(ii.data, y1, y2, y3, y4, bs) == Quadrants(ii, xx, yy, bs)
  {
    QuadrantPair(ii, xx, yy - bs - 1, yy - 1, bs);
    QuadrantPair(ii, xx, yy, yy + bs, bs);
  }

  /** The Dxx reads at the running indexes `top` and `bottom` give KernelXX at (xx, yy). */
  lemma InnerDxx(ii: IntegralImage, size: int, xx: int, yy: int,
                 top: int, bottom: int, left: int, right: int, y1: int, y2: int, y3: int, y4: int)
    requires ii.Valid() && 1 <= size && KernelsInside(ii, size, xx, yy)
    requires RunningIndexes(ii, size, xx, yy, top, bottom, left, right, y1, y2, y3, y4)
    ensures DxxReadable(ii.data, top, bottom, BlockSmall(size))
    ensures DxxRead(ii.data, top, bottom, BlockSmall(size)) == ConvolveSparse(ii, KernelXX(size), xx, yy)
  {
    KernelExtent(size);
    DxxAt(ii, Radius(size), RadiusSkinny(size), BlockSmall(size), BlockLarge(size), xx, yy, top, bottom);
  }

  /** InnerDxx for given radius, skinny radius and block sizes that fit the kernel extent. */
  lemma DxxAt(ii: IntegralImage, r: int, rs: int, bs: int, bl: int, xx: int, yy: int, top: int, bottom: int)
    requires ii.Valid() && 0 <= bs && 3 * bs <= 2 * r + 1 && 0 <= rs <= r && 0 <= bl && bl - rs - 1 <= r
    requires 0 <= xx - r - 1 && xx + r < ii.width && 0 <= yy - r - 1 && yy + r < ii.height
    requires top == ii.Index(xx - r - 1, yy - rs - 1) && bottom == ii.Index(xx - r - 1, yy - rs - 1 + bl)
    ensures DxxReadable(ii.data, top, bottom, bs)
    ensures DxxRead(ii.data, top, bottom, bs) == ConvolveSparse(ii, ColumnStripKernel(r, rs, bs, bl), xx, yy)
  {
    ColumnStripKernelSum(ii, r, rs, bs, bl, xx, yy);
    DxxBlocks(ii, xx - r - 1, yy - rs - 1, bs, bl, top, bottom);
  }

  /** The Dyy reads at the running indexes `left` and `right` give KernelYY at (xx, yy). */
  lemma InnerDyy(ii: IntegralImage, size: int, xx: int, yy: int,
                 top: int, bottom: int, left: int, right: int, y1: int, y2: int, y3: int, y4: int)
    requires ii.Valid() && 1 <= size && KernelsInside(ii, size, xx, yy)
    requires RunningIndexes(ii, size, xx, yy, top, bottom, left, right, y1, y2, y3, y4)
    ensures DyyReadable(ii.data, left, right, BlockSmall(size) * ii.stride)
    ensures DyyRead(ii.data, left, right, BlockSmall(size) * ii.stride) == ConvolveSparse(ii, KernelYY(size), xx, yy)
  {
    KernelExtent(size);
    DyyAt(ii, Radius(size), RadiusSkinny(size), BlockSmall(size), BlockLarge(size), xx, yy, left, right);
  }

  /** InnerDyy for given radius, skinny radius and block sizes that fit the kernel extent. */
  lemma DyyAt(ii: IntegralImage, r: int, rs: int, bs: int, bl: int, xx: int, yy: int, left: int, right: int)
    requires ii.Valid() && 0 <= bs && 3 * bs <= 2 * r + 1 && 0 <= rs <= r && 0 <= bl && bl - rs - 1 <= r
    requires 0 <= xx - r - 1 && xx + r < ii.width && 0 <= yy - r - 1 && yy + r < ii.height
    requires left == ii.Index(xx - rs - 1, yy - r - 1) && right == ii.Index(xx - rs - 1 + bl, yy - r - 1)
    ensures DyyReadable(ii.data, left, right, bs * ii.stride)
    ensures DyyRead(ii.data, left, right, bs * ii.stride) == ConvolveSparse(ii, RowStripKernel(r, rs, bs, bl), xx, yy)
  {
    RowStripKernelSum(ii, r, rs, bs, bl, xx, yy);
    DyyBlocks(ii, xx - rs - 1, yy - r - 1, bs, bl, left, right);
  }

  /** The Dxy reads at the four running row indexes give KernelXY at (xx, yy). */
  lemma InnerDxy(ii: IntegralImage, size: int, xx: int, yy: int,
                 top: int, bottom: int, left: int, right: int, y1: int, y2: int, y3: int, y4: int)
    requires ii.Valid() && 1 <= size && KernelsInside(ii, size, xx, yy)
    requires RunningIndexes(ii, size, xx, yy, top, bottom, left, right, y1, y2, y3, y4)
    ensures DxyReadable(ii.data, y1, y2, y3, y4, BlockSmall(size))
    ensures DxyRead(ii.data, y1, y2, y3, y4, BlockSmall(size)) == ConvolveSparse(ii, KernelXY(size), xx, yy)
  {
    var bs := BlockSmall(size);
    KernelExtent(size);
    DxyBlocks(ii, xx, yy, bs, y1, y2, y3, y4);
    KernelXYSum(ii, size, xx, yy);
  }

  /**
   * The eight running indexes of `inner` for the sample centred at (xx, yy):
   * the top-left corners of the Dxx and Dyy boxes, the corners `bottom` and
   * `right` one large block further, and the four rows the Dxy quadrants read.
   */
  predicate RunningIndexes(ii: IntegralImage, size: int, xx: int, yy: int,
                           top: int, bottom: int, left: int, right: int, y1: int, y2: int, y3: int, y4: int)
  {
    var r, rs, bs, bl := Radius(size), RadiusSkinny(size), BlockSmall(size), BlockLarge(size);
    top == ii.Index(xx - r - 1, yy - rs - 1) && bottom == ii.Index(xx - r - 1, yy - rs - 1 + bl) &&
    left == ii.Index(xx - rs - 1, yy - r - 1) && right == ii.Index(xx - rs - 1 + bl, yy - r - 1) &&
    y1 == ii.Index(xx - bs - 1, yy - bs - 1) && y2 == ii.Index(xx - bs - 1, yy - 1) &&
    y3 == ii.Index(xx - bs - 1, yy) && y4 == ii.Index(xx - bs - 1, yy + bs)
  }

  /** Moving the sample `d` columns right moves every running index by `d`. */
  lemma RunningIndexesStep(ii: IntegralImage, size: int, xx: int, yy: int, d: int,
                           top: int, bottom: int, left: int, right: int, y1: int, y2: int, y3: int, y4: int)
    requires RunningIndexes(ii, size, xx, yy, top, bottom, left, right, y1, y2, y3, y4)
    ensures RunningIndexes(ii, size, xx + d, yy, top + d, bottom + d, left + d, right + d, y1 + d, y2 + d, y3 + d, y4 + d)
  {
  }

  /** The three derivatives read at the running indexes give the response at (xx, yy). */
  lemma InnerResponse(ii: IntegralImage, size: int, xx: int, yy: int,
                      top: int, bottom: int, left: int, right: int, y1: int, y2: int, y3: int, y4: int)
    requires ii.Valid() && 1 <= size && KernelsInside(ii, size, xx, yy)
    requires RunningIndexes(ii, size, xx, yy, top, bottom, left, right, y1, y2, y3, y4)
    ensures var bs := BlockSmall(size);
            DxxReadable(ii.data, top, bottom, bs) && DyyReadable(ii.data, left, right, bs * ii.stride) &&
            DxyReadable(ii.data, y1, y2, y3, y4, bs) &&
            Response(DxxRead(ii.data, top, bottom, bs), DyyRead(ii.data, left, right, bs * ii.stride),
                     DxyRead(ii.data, y1, y2, y3, y4, bs), size) == HessianAt(ii, size, xx, yy)
  {
    InnerDxx(ii, size, xx, yy, top, bottom, left, right, y1, y2, y3, y4);
    InnerDyy(ii, size, xx, yy, top, bottom, left, right, y1, y2, y3, y4);
    InnerDxy(ii, size, xx, yy, top, bottom, left, right, y1, y2, y3, y4);
  }

  /**
   * The response of one inner cell, read from the integral image's store at
   * the running indexes; it is the brute-force response of that cell.
   */
  method InnerCell(ii: IntegralImage, size: int, skip: int, w: int, h: int, x: int, y: int, ghost xx: int, ghost yy: int,
                   top: int, bottom: int, left: int, right: int, y1: int, y2: int, y3: int, y4: int)
    returns (det: real)
    requires ii.Valid() && 1 <= size && 0 < skip
    requires w * skip <= ii.width && h * skip <= ii.height
    requires InInner(w, h, Border(size, skip), x, y) && xx == x * skip && yy == y * skip
    requires RunningIndexes(ii, size, xx, yy, top, bottom, left, right, y1, y2, y3, y4)
    ensures det == CellResponse(ii, size, skip, x, y)
  {
    var bs := BlockSmall(size);
    InnerCellInside(ii, size, skip, w, h, x, y);
    InnerResponse(ii, size, xx, yy, top, bottom, left, right, y1, y2, y3, y4);
    var dxx := DxxRead(ii.data, top, bottom, bs);
    var dyy := DyyRead(ii.data, left, right, bs * ii.stride);
    var dxy := DxyRead(ii.data, y1, y2, y3, y4, bs);
    det := Response(dxx, dyy, dxy, size);
  }

  /** Rows [b, y) and the first x columns of row y, within columns [b, w - b). */
  ghost function RowPrefix(b: int, w: int, y: int, x: int): (int, int) -> bool {
    (p, q) => b <= p < w - b && (b <= q < y || (q == y && p < x))
  }

  /** Stores the response `det` of inner cell (x, y) at its destination index. */
  method StoreInner(ii: IntegralImage, size: int, skip: int, intensity: GrayF32, b: int, x: int, y: int,
                    indexDst: int, det: real, ghost before: seq<real>)
    requires ii.Valid() && intensity.Valid() && 0 < size
    requires b <= x < intensity.width - b && 0 <= b <= y < intensity.height
    requires indexDst == intensity.Index(x, y) && det == CellResponse(ii, size, skip, x, y)
    requires Filled(intensity, intensity.data[..], before, ii, size, skip, RowPrefix(b, intensity.width, y, x))
    modifies intensity.data
    ensures Filled(intensity, intensity.data[..], before, ii, size, skip, RowPrefix(b, intensity.width, y, x + 1))
  {
    ghost var s := intensity.data[..];
    FilledStep(intensity, s, before, ii, size, skip,
               RowPrefix(b, intensity.width, y, x), RowPrefix(b, intensity.width, y, x + 1), x, y);
    intensity.data[indexDst] := det;
    assert intensity.data[..] == s[intensity.Index(x, y) := det];
  }

  /**
   * One row of `inner`: output row y, from column Border to w - Border.  Eight
   * flat indexes into the integral image start at fixed offsets from the
   * first cell's centre, and every cell advances them by `skip`.
   */
  method InnerRow(ii: IntegralImage, skip: int, size: int, intensity: GrayF32, y: int, ghost before: seq<real>)
    requires ii.Valid() && intensity.Valid() && 0 < skip && 0 < size
    requires intensity.width * skip <= ii.width && intensity.height * skip <= ii.height
    requires Border(size, skip) <= y < intensity.height - Border(size, skip)
    requires var w, b := intensity.width, Border(size, skip);
             Filled(intensity, intensity.data[..], before, ii, size, skip, (p, q) => b <= p < w - b && b <= q < y)
    modifies intensity.data
    ensures var w, b := intensity.width, Border(size, skip);
            Filled(intensity, intensity.data[..], before, ii, size, skip, (p, q) => b <= p < w - b && b <= q < y + 1)
  {
    var w, h := intensity.width, intensity.height;
    var border := Border(size, skip);
    var endX := w - border;
    var yy := y * skip;
    var indexDst, indexTop, indexBottom, indexL, indexR, indexY1, indexY2, indexY3, indexY4 :=
      RowStart(ii, intensity, size, skip, y);
    var x := border;
    ghost var xx := BorderOrig(size, skip);
    BorderGeometry(size, skip);
    FilledSame(intensity, intensity.data[..], before, ii, size, skip,
               (p, q) => border <= p < w - border && border <= q < y, RowPrefix(border, w, y, x));
    while x < endX
      invariant x == border || border <= x <= endX
      invariant xx == x * skip
      invariant indexDst == intensity.Index(x, y)
      invariant RunningIndexes(ii, size, xx, yy, indexTop, indexBottom, indexL, indexR, indexY1, indexY2, indexY3, indexY4)
      invariant Filled(intensity, intensity.data[..], before, ii, size, skip, RowPrefix(border, w, y, x))
    {
      InnerStep(ii, size, skip, intensity, x, y, xx, yy, indexDst,
                indexTop, indexBottom, indexL, indexR, indexY1, indexY2, indexY3, indexY4, before);
      RunningIndexesStep(ii, size, xx, yy, skip, indexTop, indexBottom, indexL, indexR, indexY1, indexY2, indexY3, indexY4);
      indexTop, indexBottom := indexTop + skip, indexBottom + skip;
      indexL, indexR := indexL + skip, indexR + skip;
      indexY1, indexY2, indexY3, indexY4 := indexY1 + skip, indexY2 + skip, indexY3 + skip, indexY4 + skip;
      NextMultiple(x, skip);
      x, indexDst := x + 1, indexDst + 1;
      xx := xx + skip;
    }
    FilledSame(intensity, intensity.data[..], before, ii, size, skip,
               RowPrefix(border, w, y, x), (p, q) => border <= p < w - border && border <= q < y + 1);
  }

  /** One iteration of `inner`'s column loop: the response of cell (x, y), stored at `indexDst`. */
  method InnerStep(ii: IntegralImage, size: int, skip: int, intensity: GrayF32, x: int, y: int, ghost xx: int, ghost yy: int,
                   indexDst: int, top: int, bottom: int, left: int, right: int, y1: int, y2: int, y3: int, y4: int,
                   ghost before: seq<real>)
    requires ii.Valid() && intensity.Valid() && 0 < skip && 0 < size
    requires intensity.width * skip <= ii.width && intensity.height * skip <= ii.height
    requires InInner(intensity.width, intensity.height, Border(size, skip), x, y) && xx == x * skip && yy == y * skip
    requires RunningIndexes(ii, size, xx, yy, top, bottom, left, right, y1, y2, y3, y4)
    requires indexDst == intensity.Index(x, y)
    requires Filled(intensity, intensity.data[..], before, ii, size, skip, RowPrefix(Border(size, skip), intensity.width, y, x))
    modifies intensity.data
    ensures Filled(intensity, intensity.data[..], before, ii, size, skip, RowPrefix(Border(size, skip), intensity.width, y, x + 1))
  {
    var det := InnerCell(ii, size, skip, intensity.width, intensity.height, x, y, xx, yy,
                         top, bottom, left, right, y1, y2, y3, y4);
    BorderGeometry(size, skip);
    StoreInner(ii, size, skip, intensity, Border(size, skip), x, y, indexDst, det, before);
  }

  /**
   * The starting values of `inner`'s running indexes for output row y: the
   * destination index of cell (Border, y) and the eight integral-image indexes
   * of its sample (BorderOrig, y * skip), computed from the row offsets and
   * `lostPixel` as the source does.
   */
  method RowStart(ii: IntegralImage, intensity: GrayF32, size: int, skip: int, y: int)
    returns (indexDst: int, indexTop: int, indexBottom: int, indexL: int, indexR: int,
             indexY1: int, indexY2: int, indexY3: int, indexY4: int)
    requires 0 < skip && 0 < size
    ensures indexDst == intensity.Index(Border(size, skip), y)
    ensures RunningIndexes(ii, size, BorderOrig(size, skip), y * skip,
                           indexTop, indexBottom, indexL, indexR, indexY1, indexY2, indexY3, indexY4)
  {
    var blockSmall := BlockSmall(size);
    var blockLarge := BlockLarge(size);
    var radiusFeature := Radius(size);
    var radiusSkinny := RadiusSkinny(size);
    var borderOrig := BorderOrig(size, skip);
    var lostPixel := LostPixel(size, skip);
    BorderGeometry(size, skip);
    var yy := y * skip;
    indexDst := intensity.startIndex + y * intensity.stride + Border(size, skip);
    indexTop := ii.startIndex + (yy - radiusSkinny - 1) * ii.stride + lostPixel;
    indexBottom := indexTop + blockLarge * ii.stride;
    indexL := ii.startIndex + (yy - radiusFeature - 1) * ii.stride + (radiusFeature - radiusSkinny) + lostPixel;
    indexR := indexL + blockLarge;
    indexY1 := ii.startIndex + (yy - blockSmall - 1) * ii.stride + (radiusFeature - blockSmall) + lostPixel;
    indexY2 := indexY1 + blockSmall * ii.stride;
    indexY3 := indexY2 + ii.stride;
    indexY4 := indexY3 + blockSmall * ii.stride;
    RowShift(ii.startIndex, ii.stride, lostPixel, yy - radiusSkinny - 1, 0, blockLarge);
    RowShift(ii.startIndex, ii.stride, borderOrig - blockSmall - 1, yy - blockSmall - 1, 0, blockSmall);
    RowShift(ii.startIndex, ii.stride, borderOrig - blockSmall - 1, yy - 1, 0, 1);
    RowShift(ii.startIndex, ii.stride, borderOrig - blockSmall - 1, yy, 0, blockSmall);
  }

  /** inner: every cell at least `Border` cells from each edge, row by row. */
  method Inner(ii: IntegralImage, skip: int, size: int, intensity: GrayF32)
    requires ii.Valid() && intensity.Valid() && 0 < skip && 0 < size
    requires intensity.width * skip <= ii.width && intensity.height * skip <= ii.height
    modifies intensity.data
    ensures var w, h := intensity.width, intensity.height;
            Filled(intensity, intensity.data[..], old(intensity.data[..]), ii, size, skip,
                   (a, b) => InInner(w, h, Border(size, skip), a, b))
  {
    var w, h := intensity.width, intensity.height;
    var border := Border(size, skip);
    var endY := h - border;
    ghost var before := intensity.data[..];
    FilledStart(intensity, before, ii, size, skip);
    FilledSame(intensity, before, before, ii, size, skip,
               (a, b) => false, (a, b) => border <= a < w - border && border <= b < border);
    var y := border;
    while y < endY
      invariant y == border || border <= y <= endY
      invariant Filled(intensity, intensity.data[..], before, ii, size, skip,
                       (a, b) => border <= a < w - border && border <= b < y)
    {
      InnerRow(ii, skip, size, intensity, y, before);
      y := y + 1;
    }
    FilledSame(intensity, intensity.data[..], before, ii, size, skip,
               (a, b) => border <= a < w - border && border <= b < y,
               (a, b) => InInner(w, h, border, a, b));
  }

  /**
   * intensity: `border` then `inner`.  The map it leaves is the one `naive`
   * computes: every cell holds the response at its sample.
   */
  method Intensity(ii: IntegralImage, skip: int, size: int, intensity: GrayF32)
    requires ii.Valid() && intensity.Valid() && 0 < skip && 0 < size
    requires BorderFits(intensity.width, intensity.height, Border(size, skip))
    requires intensity.width * skip <= ii.width && intensity.height * skip <= ii.height
    modifies intensity.data
    ensures Filled(intensity, intensity.data[..], old(intensity.data[..]), ii, size, skip, (a, b) => true)
    ensures forall x, y :: 0 <= x < intensity.width && 0 <= y < intensity.height ==>
      intensity.Get(x, y) == HessianAt(ii, size, x * skip, y * skip)
  {
    var w, h, b := intensity.width, intensity.height, Border(size, skip);
    ghost var s0 := intensity.data[..];
    BorderPass(ii, skip, size, intensity);
    ghost var s1 := intensity.data[..];
    Inner(ii, skip, size, intensity);
    PaintedCompose(intensity, s0, s1, intensity.data[..], ResponseMap(ii, size, skip),
                   (p, q) => InBorder(w, h, b, p, q), (p, q) => InInner(w, h, b, p, q));
    forall p, q | 0 <= p < w && 0 <= q < h
      ensures InBorder(w, h, b, p, q) || InInner(w, h, b, p, q)
    {
      CellsCovered(w, h, b, p, q);
    }
    FilledSame(intensity, intensity.data[..], s0, ii, size, skip,
               (p, q) => InBorder(w, h, b, p, q) || InInner(w, h, b, p, q), (p, q) => true);
    FilledEverywhere(intensity, intensity.data[..], s0, ii, size, skip);
  }
}
