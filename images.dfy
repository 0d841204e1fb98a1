/**
 * Image containers shared by the detectors and filters.
 *
 * Every image is a window onto a flat sample store: pixel (x, y) lives at
 * `startIndex + y * stride + x`, and `stride >= width` lets a sub-image share
 * the store of its parent.  Read-only inputs (8-bit and 16-bit images, integral
 * images) are values of `Raster`; the 32-bit float image that detectors write
 * into and reshape in place is the class `GrayF32`.
 */
module Images {

  /** Outcome of an operation that throws IllegalArgumentException in Java. */
  datatype Result<T> = Ok(value: T) | Failure(error: ImageError)

  datatype ImageError =
    | BandOutOfBounds      // getBand with a band index outside [0, numBands)
    | NegativeCorner       // subimage with x0 < 0 or y0 < 0
    | InvertedCorners      // subimage with x1 < x0 or y1 < y0
    | CornerOutsideImage   // subimage with x1 > width or y1 > height

  // ---------------------------------------------------------------------------
  // Integer arithmetic used by the index proofs

  lemma MulStep(a: int, b: int, s: int)
    requires 0 < s
    ensures a < b ==> a * s + s <= b * s
  {
    if a < b {
      var d := b - a - 1;
      assert d * s >= 0;
      assert b * s == a * s + s + d * s;
    }
  }

  /** The last of h rows of width w ends at w * h. */
  lemma RowsEnd(h: int, w: int)
    ensures (h - 1) * w + w == w * h
  {
  }

  lemma MulMono(a: int, b: int, s: int)
    requires 0 <= s
    ensures a <= b ==> a * s <= b * s
  {
    if a <= b {
      assert (b - a) * s >= 0;
      assert b * s == a * s + (b - a) * s;
    }
  }

  /** A row/column pair with the column inside the stride decodes uniquely. */
  lemma RowColDecode(y: int, s: int, x: int)
    requires 0 <= y && 0 <= x < s
    ensures (y * s + x) / s == y && (y * s + x) % s == x
  {
    var q := (y * s + x) / s;
    MulStep(q, y, s);
    MulStep(y, q, s);
  }

  lemma NatDivNat(n: int, m: int)
    requires 0 <= n && 0 < m
    ensures 0 <= n / m
  {
  }

  lemma NextMultiple(x: int, s: int)
    ensures (x + 1) * s == x * s + s
  {
  }

  /** Moving `dy` rows and `dx` columns moves the flat index by `dy * stride + dx`. */
  lemma RowShift(startIndex: int, stride: int, x: int, y: int, dx: int, dy: int)
    ensures startIndex + y * stride + x + dy * stride + dx
         == startIndex + (y + dy) * stride + (x + dx)
  {
    assert (y + dy) * stride == y * stride + dy * stride;
  }

  // ---------------------------------------------------------------------------
  // Read-only images

  /** Java `byte` and `short`. */
  type Int8 = b: int | -128 <= b < 128
  type Int16 = v: int | -32768 <= v < 32768

  /** `b & 0xFF`: a Java byte read as an unsigned 8-bit sample. */
  function Unsigned(b: Int8): (r: int)
    ensures 0 <= r < 256
    ensures r % 256 == b % 256
    ensures b >= 0 ==> r == b
  {
    if b < 0 then b + 256 else b
  }

  /** A read-only image: geometry plus the flat sample store. */
  datatype Raster<T> = Raster(width: nat, height: nat, stride: nat, startIndex: nat, data: seq<T>)
  {
    /** Every pixel of the width x height window addresses the store. */
    predicate Valid() {
      width <= stride &&
      (0 < width && 0 < height ==> startIndex + (height - 1) * stride + width <= |data|)
    }

    function Index(x: int, y: int): int {
      startIndex + y * stride + x
    }

    lemma IndexInData(x: int, y: int)
      requires Valid() && 0 <= x < width && 0 <= y < height
      ensures 0 <= Index(x, y) < |data|
    {
      MulMono(y, height - 1, stride);
    }

    function Get(x: int, y: int): T
      requires Valid() && 0 <= x < width && 0 <= y < height
    {
      IndexInData(x, y);
      data[Index(x, y)]
    }
  }

  type GrayU8 = Raster<Int8>
  type GrayS16 = Raster<Int16>

  /** An integral image; its sums are exact integers. */
  type IntegralImage = Raster<int>

  // ---------------------------------------------------------------------------
  // The float image detectors write into

  /**
   * ImageFloat32: a single band of 32-bit samples (modelled as reals).
   * Sub-images share `data` with their parent.
   */
  class GrayF32 {
    var width: nat
    var height: nat
    var stride: nat
    var startIndex: nat
    var data: array<real>

    ghost predicate Valid()
      reads this
    {
      width <= stride &&
      (0 < width && 0 < height ==> startIndex + (height - 1) * stride + width <= data.Length)
    }

    function Index(x: int, y: int): int
      reads this
    {
      startIndex + y * stride + x
    }

    /** `k` is the flat index of some pixel of the window. */
    predicate IsCellIndex(k: int)
      reads this
    {
      0 < stride && startIndex <= k &&
      (k - startIndex) / stride < height && (k - startIndex) % stride < width
    }

    function ColOf(k: int): int
      reads this
      requires 0 < stride
    {
      (k - startIndex) % stride
    }

    function RowOf(k: int): int
      reads this
      requires 0 < stride
    {
      (k - startIndex) / stride
    }

    /** Each pixel has its own index in the store, and that index decodes back to it. */
    lemma CellIndex(x: int, y: int)
      requires Valid() && 0 <= x < width && 0 <= y < height
      ensures 0 <= Index(x, y) < data.Length
      ensures IsCellIndex(Index(x, y)) && ColOf(Index(x, y)) == x && RowOf(Index(x, y)) == y
    {
      MulMono(y, height - 1, stride);
      RowColDecode(y, stride, x);
      assert Index(x, y) - startIndex == y * stride + x;
    }

    /** The sample of pixel (x, y). */
    function Get(x: int, y: int): real
      reads this, data
      requires Valid() && 0 <= x < width && 0 <= y < height
    {
      CellIndex(x, y);
      data[Index(x, y)]
    }

    /** An index of the window decodes to a pixel of the window. */
    lemma IndexCell(k: int)
      requires IsCellIndex(k)
      ensures 0 <= ColOf(k) < width && 0 <= RowOf(k) < height
    {
      NatDivNat(k - startIndex, stride);
    }

    /** `new ImageFloat32(width, height)`: a zeroed image whose stride is its width. */
    constructor (width: nat, height: nat)
      ensures Valid() && fresh(data)
      ensures this.width == width && this.height == height
      ensures stride == width && startIndex == 0 && data.Length == width * height
      ensures forall k :: 0 <= k < data.Length ==> data[k] == 0.0
    {
      this.width := width;
      this.height := height;
      this.stride := width;
      this.startIndex := 0;
      data := new real[width * height](_ => 0.0);
      new;
      RowsEnd(height, width);
    }

    /**
     * Changes the shape without declaring new memory when the store is large
     * enough; otherwise a zeroed store of exactly width * height is declared.
     */
    method Reshape(w: nat, h: nat)
      modifies this
      ensures Valid()
      ensures width == w && height == h && stride == w && startIndex == 0
      ensures old(data.Length) >= w * h ==> data == old(data)
      ensures old(data.Length) < w * h ==>
        fresh(data) && data.Length == w * h && forall k :: 0 <= k < data.Length ==> data[k] == 0.0
    {
      if data.Length < w * h {
        data := new real[w * h](_ => 0.0);
      }
      width, height, stride, startIndex := w, h, w, 0;
      RowsEnd(h, w);
    }

    /**
     * The sub-image [x0, x1) x [y0, y1): it shares this image's store and
     * starts at pixel (x0, y0).
     */
    method Subimage(x0: int, y0: int, x1: int, y1: int) returns (r: Result<GrayF32>)
      requires Valid()
      ensures SubimageError(x0, y0, x1, y1, width, height).Some? <==> r.Failure?
      ensures r.Failure? ==> r.error == SubimageError(x0, y0, x1, y1, width, height).value
      ensures r.Ok? ==> fresh(r.value) && r.value.Valid() && r.value.data == data
      ensures r.Ok? ==>
        r.value.width == x1 - x0 && r.value.height == y1 - y0 &&
        r.value.stride == Max(width, stride) && r.value.startIndex == startIndex + y0 * stride + x0
      ensures r.Ok? ==> forall x, y :: 0 <= x < x1 - x0 && 0 <= y < y1 - y0 ==>
        r.value.Index(x, y) == Index(x + x0, y + y0)
    {
      var err := SubimageError(x0, y0, x1, y1, width, height);
      if err.Some? {
        return Failure(err.value);
      }
      var ret := new GrayF32(0, 0);
      ret.data := data;
      ret.stride := Max(width, stride);
      ret.width := x1 - x0;
      ret.height := y1 - y0;
      ret.startIndex := startIndex + y0 * stride + x0;
      SubimageFits(this, ret, x0, y0, x1, y1);
      r := Ok(ret);
    }
  }

  /** A view that starts at pixel (x0, y0) of `img` with the same stride sees `img` shifted by (x0, y0). */
  lemma IndexShift(sub: GrayF32, img: GrayF32, x0: int, y0: int)
    requires sub.stride == img.stride && sub.startIndex == img.startIndex + y0 * img.stride + x0
    ensures forall x, y :: sub.Index(x, y) == img.Index(x + x0, y + y0)
  {
    forall x, y ensures sub.Index(x, y) == img.Index(x + x0, y + y0) {
      RowShift(img.startIndex, img.stride, x, y, x0, y0);
    }
  }

  /** The window of `sub` inside the window of `img` stays inside the store. */
  lemma SubimageFits(img: GrayF32, sub: GrayF32, x0: int, y0: int, x1: int, y1: int)
    requires img.Valid() && SubimageError(x0, y0, x1, y1, img.width, img.height).None?
    requires sub.data == img.data && sub.stride == img.stride
    requires sub.width == x1 - x0 && sub.height == y1 - y0
    requires sub.startIndex == img.startIndex + y0 * img.stride + x0
    ensures sub.Valid()
    ensures forall x, y :: sub.Index(x, y) == img.Index(x + x0, y + y0)
  {
    IndexShift(sub, img, x0, y0);
    if 0 < sub.width && 0 < sub.height {
      assert sub.Index(sub.width - 1, sub.height - 1) == img.Index(x1 - 1, y1 - 1);
      MulMono(y1 - 1, img.height - 1, img.stride);
    }
  }

  // ---------------------------------------------------------------------------
  // Filling an image cell by cell

  /**
   * `s`, a store for `img`, holds `value(x, y)` at every pixel (x, y) that
   * `done` selects and the value of `before` at every other index, pixels
   * outside the window and gaps between rows included.
   */
  ghost predicate Painted(img: GrayF32, s: seq<real>, before: seq<real>,
                          value: (int, int) -> real, done: (int, int) -> bool)
    reads img
  {
    |s| == |before| == img.data.Length &&
    forall k :: 0 <= k < |s| ==>
      s[k] == if img.IsCellIndex(k) && done(img.ColOf(k), img.RowOf(k))
              then value(img.ColOf(k), img.RowOf(k))
              else before[k]
  }

  lemma PaintedStart(img: GrayF32, s: seq<real>, value: (int, int) -> real)
    requires |s| == img.data.Length
    ensures Painted(img, s, s, value, (a, b) => false)
  {
  }

  /** Writing value(x, y) at the index of pixel (x, y) adds that pixel to the painted ones. */
  lemma PaintedStep(img: GrayF32, s: seq<real>, before: seq<real>, value: (int, int) -> real,
                    done: (int, int) -> bool, done2: (int, int) -> bool, x: int, y: int)
    requires img.Valid() && 0 <= x < img.width && 0 <= y < img.height
    requires Painted(img, s, before, value, done)
    requires forall a, b :: done2(a, b) == (done(a, b) || (a == x && b == y))
    ensures 0 <= img.Index(x, y) < |s|
    ensures Painted(img, s[img.Index(x, y) := value(x, y)], before, value, done2)
  {
    img.CellIndex(x, y);
  }

  /** Regions that select the same pixels of the window are interchangeable. */
  lemma PaintedSame(img: GrayF32, s: seq<real>, before: seq<real>, value: (int, int) -> real,
                    done: (int, int) -> bool, done2: (int, int) -> bool)
    requires img.Valid()
    requires Painted(img, s, before, value, done)
    requires forall a, b :: 0 <= a < img.width && 0 <= b < img.height ==> done2(a, b) == done(a, b)
    ensures Painted(img, s, before, value, done2)
  {
    forall k | 0 <= k < |s|
      ensures s[k] == if img.IsCellIndex(k) && done2(img.ColOf(k), img.RowOf(k))
                      then value(img.ColOf(k), img.RowOf(k))
                      else before[k]
    {
      if img.IsCellIndex(k) {
        img.IndexCell(k);
      }
    }
  }

  /** What Painted says about one pixel of the window. */
  lemma PaintedCell(img: GrayF32, s: seq<real>, before: seq<real>, value: (int, int) -> real,
                    done: (int, int) -> bool, x: int, y: int)
    requires img.Valid() && Painted(img, s, before, value, done)
    requires 0 <= x < img.width && 0 <= y < img.height
    ensures 0 <= img.Index(x, y) < |s|
    ensures s[img.Index(x, y)] == if done(x, y) then value(x, y) else before[img.Index(x, y)]
  {
    img.CellIndex(x, y);
  }

  /** A pass over region d2 after a pass over region d1 paints d1 and d2 together. */
  lemma PaintedCompose(img: GrayF32, s0: seq<real>, s1: seq<real>, s2: seq<real>, value: (int, int) -> real,
                       d1: (int, int) -> bool, d2: (int, int) -> bool)
    requires Painted(img, s1, s0, value, d1) && Painted(img, s2, s1, value, d2)
    ensures Painted(img, s2, s0, value, (a, b) => d1(a, b) || d2(a, b))
  {
  }

  function Max(a: int, b: int): int {
    if a >= b then a else b
  }

  datatype Option<T> = None | Some(value: T)

  /** The argument checks of `subimage`, in the order the source makes them. */
  function SubimageError(x0: int, y0: int, x1: int, y1: int, width: int, height: int): (e: Option<ImageError>)
    ensures e.None? <==> 0 <= x0 <= x1 <= width && 0 <= y0 <= y1 <= height
  {
    if x0 < 0 || y0 < 0 then Some(NegativeCorner)
    else if x1 < x0 || y1 < y0 then Some(InvertedCorners)
    else if x1 > width || y1 > height then Some(CornerOutsideImage)
    else None
  }
}
