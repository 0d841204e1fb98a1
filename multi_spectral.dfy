/**
 * MultiSpectral: an image made of several bands of the same type.  Every band
 * has the geometry (width, height, stride, startIndex) of the multi-band image
 * itself; sub-images and reshapes keep it that way.
 */
module MultiSpectralImages {
  import opened Images

  /**
   * `store` is what a band whose store was `before` holds after a reshape to
   * w x h: `before` itself when that held w * h cells, and otherwise a zeroed
   * store of exactly w * h cells.
   */
  ghost predicate StoreReshaped(store: array<real>, before: array<real>, w: nat, h: nat)
    reads store
  {
    (before.Length >= w * h ==> store == before) &&
    (before.Length < w * h ==> store.Length == w * h && forall k :: 0 <= k < w * h ==> store[k] == 0.0)
  }

  /** Band `b` is a valid w x h image with stride w, starting at index 0 of `store`. */
  ghost predicate BandShaped(b: GrayF32, store: array<real>, w: nat, h: nat)
    reads b
  {
    b.Valid() && b.width == w && b.height == h && b.stride == w && b.startIndex == 0 && b.data == store
  }

  class MultiSpectral {
    var width: nat
    var height: nat
    var stride: nat
    var startIndex: nat
    /** The band array; its entries are set when the image is created. */
    var bands: seq<GrayF32>

    /** Band `b` has exactly the geometry of the multi-band image. */
    ghost predicate SameGeometry(b: GrayF32)
      reads this, b
    {
      b.width == width && b.height == height && b.stride == stride && b.startIndex == startIndex
    }

    ghost predicate Valid()
      reads this, bands
    {
      width <= stride &&
      (forall i :: 0 <= i < |bands| ==> bands[i].Valid() && SameGeometry(bands[i])) &&
      (forall i, j :: 0 <= i < j < |bands| ==> bands[i] != bands[j])
    }

    /** getNumBands */
    function NumBands(): nat
      reads this
    {
      |bands|
    }

    /** `new MultiSpectral(type, width, height, numBands)`: numBands zeroed width x height bands. */
    constructor (width: nat, height: nat, numBands: nat)
      ensures Valid()
      ensures this.width == width && this.height == height && stride == width && startIndex == 0
      ensures NumBands() == numBands
      ensures forall i :: 0 <= i < |bands| ==> fresh(bands[i]) && fresh(bands[i].data)
      ensures forall i, k :: 0 <= i < |bands| && 0 <= k < bands[i].data.Length ==> bands[i].data[k] == 0.0
    {
      var bs: seq<GrayF32> := [];
      for i := 0 to numBands
        invariant |bs| == i
        invariant forall k :: 0 <= k < i ==> fresh(bs[k]) && fresh(bs[k].data) && bs[k].Valid()
        invariant forall k :: 0 <= k < i ==>
          bs[k].width == width && bs[k].height == height && bs[k].stride == width && bs[k].startIndex == 0
        invariant forall k, l :: 0 <= k < l < i ==> bs[k] != bs[l]
        invariant forall k, j :: 0 <= k < i && 0 <= j < bs[k].data.Length ==> bs[k].data[j] == 0.0
      {
        var b := new GrayF32(width, height);
        bs := bs + [b];
      }
      this.width := width;
      this.height := height;
      this.stride := width;
      this.startIndex := 0;
      bands := bs;
    }

    /** An image over the given bands, with the given geometry. */
    constructor Of(width: nat, height: nat, stride: nat, startIndex: nat, bands: seq<GrayF32>)
      ensures this.width == width && this.height == height && this.stride == stride
      ensures this.startIndex == startIndex && this.bands == bands
    {
      this.width := width;
      this.height := height;
      this.stride := stride;
      this.startIndex := startIndex;
      this.bands := bands;
    }

    /** getBand: the band at index `band`, or an error when there is no such band. */
    function GetBand(band: int): (r: Result<GrayF32>)
      reads this
      ensures r.Failure? <==> band < 0 || band >= NumBands()
      ensures r.Failure? ==> r.error == BandOutOfBounds
      ensures r.Ok? ==> r.value == bands[band]
    {
      if band >= |bands| || band < 0 then Failure(BandOutOfBounds) else Ok(bands[band])
    }

    /**
     * The sub-image [x0, x1) x [y0, y1) of every band.  The result shares the
     * bands' stores; this image and its bands are left as they were.
     */
    method Subimage(x0: int, y0: int, x1: int, y1: int) returns (r: Result<MultiSpectral>)
      requires Valid()
      ensures r.Failure? <==> !(0 <= x0 <= x1 <= width && 0 <= y0 <= y1 <= height)
      ensures r.Failure? ==> r.error == SubimageError(x0, y0, x1, y1, width, height).value
      ensures r.Ok? ==> fresh(r.value) && r.value.Valid()
      ensures r.Ok? ==>
        r.value.width == x1 - x0 && r.value.height == y1 - y0 &&
        r.value.stride == Max(width, stride) && r.value.startIndex == startIndex + y0 * stride + x0
      ensures r.Ok? ==> r.value.NumBands() == NumBands()
      ensures r.Ok? ==> forall i :: 0 <= i < |bands| ==>
        fresh(r.value.bands[i]) && r.value.bands[i].data == bands[i].data
      ensures r.Ok? ==> forall i, x, y :: 0 <= i < |bands| && 0 <= x < x1 - x0 && 0 <= y < y1 - y0 ==>
        r.value.bands[i].Index(x, y) == bands[i].Index(x + x0, y + y0)
    {
      var err := SubimageError(x0, y0, x1, y1, width, height);
      if err.Some? {
        return Failure(err.value);
      }
      var bs := SubimageBands(x0, y0, x1, y1);
      forall i | 0 <= i < |bands|
        ensures forall x, y :: bs[i].Index(x, y) == bands[i].Index(x + x0, y + y0)
      {
        IndexShift(bs[i], bands[i], x0, y0);
      }
      var ret := new MultiSpectral.Of(x1 - x0, y1 - y0, Max(width, stride), startIndex + y0 * stride + x0, bs);
      assert forall k :: 0 <= k < |bs| ==> ret.SameGeometry(bs[k]);
      r := Ok(ret);
    }

    /** The sub-image [x0, x1) x [y0, y1) of each band, in band order. */
    method SubimageBands(x0: int, y0: int, x1: int, y1: int) returns (bs: seq<GrayF32>)
      requires Valid() && SubimageError(x0, y0, x1, y1, width, height).None?
      ensures |bs| == |bands|
      ensures forall k :: 0 <= k < |bs| ==> fresh(bs[k]) && bs[k].Valid() && bs[k].data == bands[k].data
      ensures forall k :: 0 <= k < |bs| ==>
        bs[k].width == x1 - x0 && bs[k].height == y1 - y0 &&
        bs[k].stride == stride && bs[k].startIndex == startIndex + y0 * stride + x0
      ensures forall k, l :: 0 <= k < l < |bs| ==> bs[k] != bs[l]
    {
      bs := [];
      for i := 0 to |bands|
        invariant |bs| == i
        invariant forall k :: 0 <= k < i ==> fresh(bs[k]) && bs[k].Valid() && bs[k].data == bands[k].data
        invariant forall k :: 0 <= k < i ==>
          bs[k].width == x1 - x0 && bs[k].height == y1 - y0 &&
          bs[k].stride == stride && bs[k].startIndex == startIndex + y0 * stride + x0
        invariant forall k, l :: 0 <= k < l < i ==> bs[k] != bs[l]
      {
        var sub := bands[i].Subimage(x0, y0, x1, y1);
        bs := bs + [sub.value];
      }
    }

    /**
     * Changes the shape of every band and of the image itself to w x h, with
     * the stride equal to the width and the first pixel at index 0.  A band
     * keeps its store when it holds at least w * h cells; otherwise it gets a
     * fresh zeroed store of exactly w * h cells.
     */
    method Reshape(w: nat, h: nat)
      requires Valid()
      modifies this, bands
      ensures Valid() && bands == old(bands)
      ensures width == w && height == h && stride == w && startIndex == 0
      ensures forall i :: 0 <= i < |bands| ==>
        old(bands[i].data.Length) >= w * h ==> bands[i].data == old(bands[i].data)
      ensures forall i :: 0 <= i < |bands| ==>
        old(bands[i].data.Length) < w * h ==>
          fresh(bands[i].data) && bands[i].data.Length == w * h &&
          forall k :: 0 <= k < w * h ==> bands[i].data[k] == 0.0
    {
      ghost var bs := bands;
      ghost var before := seq(|bs|, k requires 0 <= k < |bs| reads bs => bs[k].data);
      ghost var stores: seq<array<real>> := [];
      for i := 0 to |bands|
        invariant bands == old(bands) && width == old(width) && height == old(height)
        invariant stride == old(stride) && startIndex == old(startIndex)
        invariant |stores| == i
        invariant forall k :: 0 <= k < i ==> BandShaped(bands[k], stores[k], w, h)
        invariant forall k :: 0 <= k < i ==> StoreReshaped(stores[k], before[k], w, h)
        invariant forall k :: 0 <= k < i ==> before[k].Length < w * h ==> fresh(stores[k])
        invariant forall k :: i <= k < |bands| ==>
          bands[k].Valid() && SameGeometry(bands[k]) && bands[k].data == before[k]
      {
        bands[i].Reshape(w, h);
        stores := stores + [bands[i].data];
      }
      startIndex := 0;
      stride := w;
      width := w;
      height := h;
    }
  }
}
