/**
 * ConvolveImageStandardSparse: a separable integer convolution evaluated at a
 * single pixel (c_x, c_y) and with no border handling.  A horizontal pass
 * stores one weighted sum per row of the width x width window in `storage`,
 * then a vertical pass combines those row sums.  The variants with divisors
 * divide each row sum and the final total with Java's truncating division.
 */
module ConvolveSparse {
  import opened Images

  /** Kernel1D_I32: the first `width` entries of `data` are the weights. */
  datatype Kernel1D = Kernel1D(data: seq<int>, width: nat)
  {
    predicate Valid() {
      width <= |data|
    }
  }

  // ---------------------------------------------------------------------------
  // Java's integer division

  function Abs(a: int): nat {
    if a < 0 then -a else a
  }

  /** Java `a / b` on ints: the quotient rounded toward zero. */
  function JavaDiv(a: int, b: int): (q: int)
    requires b != 0
    ensures Abs(q) == Abs(a) / Abs(b)
  {
    NatDivNat(Abs(a), Abs(b));
    var d := Abs(a) / Abs(b);
    if (a >= 0) == (b > 0) then d else -d
  }

  /**
   * The quotient is truncated: the remainder a - q * b is smaller than the
   * divisor in magnitude and never has the opposite sign of the dividend.
   */
  lemma {:induction false} JavaDivTruncates(a: int, b: int)
    requires b != 0
    ensures Abs(a - JavaDiv(a, b) * b) < Abs(b)
    ensures a >= 0 ==> a - JavaDiv(a, b) * b >= 0
    ensures a <= 0 ==> a - JavaDiv(a, b) * b <= 0
  {
    var q := Abs(a) / Abs(b);
    var m := Abs(a) % Abs(b);
    assert Abs(a) == q * Abs(b) + m;
    if a >= 0 && b > 0 {
      assert JavaDiv(a, b) * b == q * Abs(b);
    } else if a >= 0 {
      assert JavaDiv(a, b) * b == q * Abs(b);
    } else if b > 0 {
      assert JavaDiv(a, b) * b == -(q * Abs(b));
    } else {
      assert JavaDiv(a, b) * b == -(q * Abs(b));
    }
  }

  /** Truncation differs from Dafny's Euclidean division on negative dividends. */
  lemma JavaDivOfNegative()
    ensures JavaDiv(-7, 2) == -3 && -7 / 2 == -4
  {
  }

  // ---------------------------------------------------------------------------
  // The window and the two passes

  /** The width x width window around (cx, cy) lies inside the image. */
  predicate WindowInside<T>(img: Raster<T>, cx: int, cy: int, width: nat) {
    var radius := width / 2;
    width == 0 ||
    (0 <= cx - radius && cx - radius + width <= img.width &&
     0 <= cy - radius && cy - radius + width <= img.height)
  }

  /** Samples of window row i (image row cy - radius + i), read through `read`. */
  function WindowRow<T>(img: Raster<T>, read: T -> int, cx: int, cy: int, width: nat, i: int): (row: seq<int>)
    requires img.Valid() && WindowInside(img, cx, cy, width) && 0 <= i < width
    ensures |row| == width
    ensures forall j :: 0 <= j < width ==> row[j] == read(img.Get(cx - width / 2 + j, cy - width / 2 + i))
  {
    seq(width, j requires 0 <= j < width => read(img.Get(cx - width / 2 + j, cy - width / 2 + i)))
  }

  /** The window, one row per entry. */
  function Window<T>(img: Raster<T>, read: T -> int, cx: int, cy: int, width: nat): (w: seq<seq<int>>)
    requires img.Valid() && WindowInside(img, cx, cy, width)
    ensures |w| == width && forall i :: 0 <= i < width ==> w[i] == WindowRow(img, read, cx, cy, width, i)
  {
    seq(width, i requires 0 <= i < width => WindowRow(img, read, cx, cy, width, i))
  }

  function SignedS16(v: Int16): int {
    v
  }

  /** Σ_{j < n} k[j] * row[j]: one horizontal pass. */
  function Dot(k: seq<int>, row: seq<int>, n: nat): int
    requires n <= |k| && n <= |row|
  {
    if n == 0 then 0 else Dot(k, row, n - 1) + row[n - 1] * k[n - 1]
  }

  /** Σ_{i < n} v[i] * rows[i]: the vertical pass over the stored row sums. */
  function Vertical(rows: seq<int>, v: seq<int>, n: nat): int
    requires n <= |rows| && n <= |v|
  {
    if n == 0 then 0 else Vertical(rows, v, n - 1) + rows[n - 1] * v[n - 1]
  }

  /** The row sums of the horizontal pass, each divided by `dh` when `dh` is given. */
  function RowSums(win: seq<seq<int>>, h: seq<int>, n: nat, dh: Option<int>): (s: seq<int>)
    requires n <= |h| && forall i :: 0 <= i < |win| ==> n <= |win[i]|
    requires dh.Some? ==> dh.value != 0
    ensures |s| == |win|
    ensures forall i :: 0 <= i < |win| ==>
      s[i] == if dh.Some? then JavaDiv(Dot(h, win[i], n), dh.value) else Dot(h, win[i], n)
  {
    seq(|win|, i requires 0 <= i < |win| =>
      if dh.Some? then JavaDiv(Dot(h, win[i], n), dh.value) else Dot(h, win[i], n))
  }

  /**
   * Σ_{i < rows} Σ_{j < cols} v[i] * h[j] * win[i][j]: the two-dimensional
   * kernel v ⊗ h applied to the window.
   */
  function Kernel2D(win: seq<seq<int>>, h: seq<int>, v: seq<int>, rows: nat, cols: nat): int
    requires rows <= |v| && rows <= |win| && cols <= |h|
    requires forall i :: 0 <= i < |win| ==> cols <= |win[i]|
  {
    if rows == 0 then 0 else Kernel2D(win, h, v, rows - 1, cols) + ScaledRow(win[rows - 1], h, v[rows - 1], cols)
  }

  /** Σ_{j < m} c * h[j] * row[j]. */
  function ScaledRow(row: seq<int>, h: seq<int>, c: int, m: nat): int
    requires m <= |row| && m <= |h|
  {
    if m == 0 then 0 else ScaledRow(row, h, c, m - 1) + c * h[m - 1] * row[m - 1]
  }

  lemma {:induction false} ScaledRowIsScaledDot(row: seq<int>, h: seq<int>, c: int, m: nat)
    requires m <= |row| && m <= |h|
    ensures ScaledRow(row, h, c, m) == Dot(h, row, m) * c
  {
    if m > 0 {
      ScaledRowIsScaledDot(row, h, c, m - 1);
      assert (Dot(h, row, m - 1) + row[m - 1] * h[m - 1]) * c
          == Dot(h, row, m - 1) * c + c * h[m - 1] * row[m - 1];
    }
  }

  /**
   * Without divisors the two passes compute the full separable kernel:
   * Σ_i v[i] * (Σ_j h[j] * win[i][j]) == Σ_i Σ_j v[i] * h[j] * win[i][j].
   */
  lemma {:induction false} SeparableIsKernel2D(win: seq<seq<int>>, h: seq<int>, v: seq<int>, rows: nat, cols: nat)
    requires rows <= |v| && rows <= |win| && cols <= |h|
    requires forall i :: 0 <= i < |win| ==> cols <= |win[i]|
    ensures Vertical(RowSums(win, h, cols, None), v, rows) == Kernel2D(win, h, v, rows, cols)
  {
    if rows > 0 {
      SeparableIsKernel2D(win, h, v, rows - 1, cols);
      ScaledRowIsScaledDot(win[rows - 1], h, v[rows - 1], cols);
    }
  }

  // ---------------------------------------------------------------------------
  // The four Kernel1D_I32 overloads

  /**
   * Shared body of the integer overloads: the horizontal pass into `storage`
   * (row sums divided by `dh` when given), then the vertical pass (divided by
   * `dv` when given).
   */
  method ConvolveWith<T>(horizontal: Kernel1D, vertical: Kernel1D, input: Raster<T>, read: T -> int,
                         cx: int, cy: int, storage: array<int>, dh: Option<int>, dv: Option<int>)
    returns (total: int)
    requires horizontal.Valid() && horizontal.width <= |vertical.data|
    requires input.Valid() && WindowInside(input, cx, cy, horizontal.width)
    requires horizontal.width <= storage.Length
    requires dh.Some? ==> dh.value != 0
    requires dv.Some? ==> dv.value != 0
    modifies storage
    ensures storage[..horizontal.width]
         == RowSums(Window(input, read, cx, cy, horizontal.width), horizontal.data, horizontal.width, dh)
    ensures storage[horizontal.width..] == old(storage[horizontal.width..])
    ensures var sum := Vertical(storage[..horizontal.width], vertical.data, horizontal.width);
            total == if dv.Some? then JavaDiv(sum, dv.value) else sum
  {
    var width := horizontal.width;
    var radius := width / 2;
    ghost var win := Window(input, read, cx, cy, width);
    ghost var sums := RowSums(win, horizontal.data, width, dh);

    for i := 0 to width
      invariant forall k :: 0 <= k < i ==> storage[k] == sums[k]
      invariant forall k :: width <= k < storage.Length ==> storage[k] == old(storage[k])
    {
      var rowTotal := RowTotal(horizontal, input, read, cx, cy, i);
      storage[i] := if dh.Some? then JavaDiv(rowTotal, dh.value) else rowTotal;
    }
    assert storage[..width] == sums;

    total := VerticalPass(storage, vertical, width);
    if dv.Some? {
      total := JavaDiv(total, dv.value);
    }
  }

  /** The horizontal pass over window row i: the weighted sum of its samples. */
  method RowTotal<T>(horizontal: Kernel1D, input: Raster<T>, read: T -> int, cx: int, cy: int, i: int)
    returns (rowTotal: int)
    requires horizontal.Valid() && input.Valid() && WindowInside(input, cx, cy, horizontal.width)
    requires 0 <= i < horizontal.width
    ensures rowTotal == Dot(horizontal.data, WindowRow(input, read, cx, cy, horizontal.width, i), horizontal.width)
  {
    var width := horizontal.width;
    var radius := width / 2;
    ghost var row := WindowRow(input, read, cx, cy, width, i);
    var indexImg := input.startIndex + (i + cy - radius) * input.stride + cx - radius;
    rowTotal := 0;
    for j := 0 to width
      invariant indexImg == input.Index(cx - radius + j, cy - radius + i)
      invariant rowTotal == Dot(horizontal.data, row, j)
    {
      input.IndexInData(cx - radius + j, cy - radius + i);
      assert read(input.data[indexImg]) == row[j];
      rowTotal := rowTotal + read(input.data[indexImg]) * horizontal.data[j];
      indexImg := indexImg + 1;
    }
  }

  /** The vertical pass: the stored row sums weighted by the vertical kernel. */
  method VerticalPass(storage: array<int>, vertical: Kernel1D, width: nat) returns (total: int)
    requires width <= storage.Length && width <= |vertical.data|
    ensures total == Vertical(storage[..width], vertical.data, width)
  {
    total := 0;
    for i := 0 to width
      invariant total == Vertical(storage[..width], vertical.data, i)
    {
      total := total + storage[i] * vertical.data[i];
    }
  }

  /** convolve(Kernel1D_I32, Kernel1D_I32, ImageUInt8, ...): samples read as `& 0xFF`. */
  method ConvolveU8(horizontal: Kernel1D, vertical: Kernel1D, input: GrayU8, cx: int, cy: int, storage: array<int>)
    returns (total: int)
    requires horizontal.Valid() && horizontal.width <= |vertical.data|
    requires input.Valid() && WindowInside(input, cx, cy, horizontal.width)
    requires horizontal.width <= storage.Length
    modifies storage
    ensures storage[..horizontal.width]
         == RowSums(Window(input, Unsigned, cx, cy, horizontal.width), horizontal.data, horizontal.width, None)
    ensures storage[horizontal.width..] == old(storage[horizontal.width..])
    ensures total == Kernel2D(Window(input, Unsigned, cx, cy, horizontal.width),
                              horizontal.data, vertical.data, horizontal.width, horizontal.width)
  {
    total := ConvolveWith(horizontal, vertical, input, Unsigned, cx, cy, storage, None, None);
    SeparableIsKernel2D(Window(input, Unsigned, cx, cy, horizontal.width),
                        horizontal.data, vertical.data, horizontal.width, horizontal.width);
  }

  /** The ImageUInt8 overload with divisors. */
  method ConvolveU8Div(horizontal: Kernel1D, vertical: Kernel1D, input: GrayU8, cx: int, cy: int,
                       storage: array<int>, divisorHorizontal: int, divisorVertical: int)
    returns (total: int)
    requires horizontal.Valid() && horizontal.width <= |vertical.data|
    requires input.Valid() && WindowInside(input, cx, cy, horizontal.width)
    requires horizontal.width <= storage.Length
    requires divisorHorizontal != 0 && divisorVertical != 0
    modifies storage
    ensures storage[..horizontal.width]
         == RowSums(Window(input, Unsigned, cx, cy, horizontal.width), horizontal.data, horizontal.width,
                    Some(divisorHorizontal))
    ensures storage[horizontal.width..] == old(storage[horizontal.width..])
    ensures total == JavaDiv(Vertical(storage[..horizontal.width], vertical.data, horizontal.width), divisorVertical)
  {
    total := ConvolveWith(horizontal, vertical, input, Unsigned, cx, cy, storage,
                          Some(divisorHorizontal), Some(divisorVertical));
  }

  /** convolve(Kernel1D_I32, Kernel1D_I32, ImageSInt16, ...): samples read signed. */
  method ConvolveS16(horizontal: Kernel1D, vertical: Kernel1D, input: GrayS16, cx: int, cy: int, storage: array<int>)
    returns (total: int)
    requires horizontal.Valid() && horizontal.width <= |vertical.data|
    requires input.Valid() && WindowInside(input, cx, cy, horizontal.width)
    requires horizontal.width <= storage.Length
    modifies storage
    ensures storage[..horizontal.width]
         == RowSums(Window(input, SignedS16, cx, cy, horizontal.width), horizontal.data, horizontal.width, None)
    ensures storage[horizontal.width..] == old(storage[horizontal.width..])
    ensures total == Kernel2D(Window(input, SignedS16, cx, cy, horizontal.width),
                              horizontal.data, vertical.data, horizontal.width, horizontal.width)
  {
    total := ConvolveWith(horizontal, vertical, input, SignedS16, cx, cy, storage, None, None);
    SeparableIsKernel2D(Window(input, SignedS16, cx, cy, horizontal.width),
                        horizontal.data, vertical.data, horizontal.width, horizontal.width);
  }

  /** The ImageSInt16 overload with divisors. */
  method ConvolveS16Div(horizontal: Kernel1D, vertical: Kernel1D, input: GrayS16, cx: int, cy: int,
                        storage: array<int>, divisorHorizontal: int, divisorVertical: int)
    returns (total: int)
    requires horizontal.Valid() && horizontal.width <= |vertical.data|
    requires input.Valid() && WindowInside(input, cx, cy, horizontal.width)
    requires horizontal.width <= storage.Length
    requires divisorHorizontal != 0 && divisorVertical != 0
    modifies storage
    ensures storage[..horizontal.width]
         == RowSums(Window(input, SignedS16, cx, cy, horizontal.width), horizontal.data, horizontal.width,
                    Some(divisorHorizontal))
    ensures storage[horizontal.width..] == old(storage[horizontal.width..])
    ensures total == JavaDiv(Vertical(storage[..horizontal.width], vertical.data, horizontal.width), divisorVertical)
  {
    total := ConvolveWith(horizontal, vertical, input, SignedS16, cx, cy, storage,
                          Some(divisorHorizontal), Some(divisorVertical));
  }
}
