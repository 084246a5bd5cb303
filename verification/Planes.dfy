/** Where the image planes of each supported pixel format lie, as getFaceInputImg lays them out. */
module Planes {
  import opened Pixels

  const I420: nat := 0x601
  const I422H: nat := 0x603
  const NV12: nat := 0x801
  const NV21: nat := 0x802
  const LPI422H: nat := 0x803
  const YUYV: nat := 0x501
  const RGB24_B8G8R8: nat := 0x201

  predicate Supported(format: nat)
  {
    format in {I420, I422H, NV12, NV21, LPI422H, YUYV, RGB24_B8G8R8}
  }

  /** ASVLOFFSCREEN: planes are offsets from the start of the pixel data. */
  class Offscreen {
    var format: nat
    var width: nat
    var height: nat
    const plane: array<nat>
    const pitch: array<nat>

    ghost predicate Valid()
    {
      plane.Length == 4 && pitch.Length == 4 && plane != pitch
    }

    constructor ()
      ensures Valid() && fresh(plane) && fresh(pitch)
    {
      plane := new nat[4];
      pitch := new nat[4];
    }
  }

  /** One plane as the recognition library reads it: `rows` lines of `pitch` bytes from `offset`. */
  datatype Plane = Plane(offset: nat, pitch: nat, rows: nat) {
    function End(): nat { offset + pitch * rows }
  }

  function PlaneCount(format: nat): nat
    requires Supported(format)
  {
    if format == I420 || format == I422H then 3
    else if format == YUYV || format == RGB24_B8G8R8 then 1
    else 2
  }

  /** Chroma planes of the 4:2:0 formats have half the rows. */
  function Rows(format: nat, height: nat, k: nat): nat
  {
    if k > 0 && (format == I420 || format == NV12 || format == NV21) then height / 2 else height
  }

  /** The bytes that an image of the format occupies. */
  function Total(format: nat, width: nat, height: nat): nat
  {
    if format == I420 || format == NV12 || format == NV21 then 3 * width * height / 2
    else if format == RGB24_B8G8R8 then 3 * width * height
    else 2 * width * height
  }

  /** The planes an offscreen describes, once it has been filled in. */
  ghost function Described(img: Offscreen): (ps: seq<Plane>)
    requires img.Valid() && Supported(img.format)
    reads img, img.plane, img.pitch
    ensures |ps| == PlaneCount(img.format)
  {
    seq(PlaneCount(img.format), k requires 0 <= k < 4 reads img, img.plane, img.pitch requires img.Valid() =>
      Plane(img.plane[k], img.pitch[k], Rows(img.format, img.height, k)))
  }

  function Layout(format: nat, w: nat, h: nat): (ps: seq<Plane>)
    requires Supported(format)
    ensures |ps| == PlaneCount(format)
  {
    if format == I420 then
      [Plane(0, w, h), Plane(w * h, w / 2, h / 2), Plane(w * h + w / 2 * h / 2, w / 2, h / 2)]
    else if format == I422H then
      [Plane(0, w, h), Plane(w * h, w / 2, h), Plane(w * h + w / 2 * h, w / 2, h)]
    else if format == NV12 || format == NV21 then [Plane(0, w, h), Plane(w * h, w, h / 2)]
    else if format == LPI422H then [Plane(0, w, h), Plane(w * h, w, h)]
    else if format == YUYV then [Plane(0, w * 2, h)]
    else [Plane(0, w * 3, h)]
  }

  /** The planes follow one another without overlap and fit the image. */
  predicate Sound(ps: seq<Plane>, total: nat)
  {
    && ps != [] && ps[0].offset == 0
    && (forall i, j :: 0 <= i < j < |ps| ==> ps[i].End() <= ps[j].offset)
    && ps[|ps| - 1].End() <= total
  }

  lemma Monotone(a: nat, b: nat, k: nat)
    requires a <= b
    ensures a * k <= b * k
  {
  }

  lemma HalfWidth(w: nat, h: nat)
    ensures 2 * (w / 2 * h) <= w * h
  {
    var a := w / 2;
    Monotone(2 * a, w, h);
    assert (2 * a) * h == 2 * (a * h);
  }

  lemma HalfHeight(w: nat, h: nat)
    ensures 2 * (w * (h / 2)) <= w * h
  {
    HalfWidth(h, w);
    assert w * (h / 2) == h / 2 * w && w * h == h * w;
  }

  lemma Reassociate(w: nat, h: nat)
    ensures 3 * w * h == 3 * (w * h) && 2 * w * h == 2 * (w * h)
    ensures w * 2 * h == 2 * (w * h) && w * 3 * h == 3 * (w * h)
  {
  }

  lemma HalfTimes(w: nat, h: nat)
    ensures w / 2 * (h / 2) <= w / 2 * h / 2
    ensures 2 * (w / 2 * h) <= w * h
    ensures 2 * (w * (h / 2)) <= w * h
    ensures 3 * w * h == 3 * (w * h) && 2 * w * h == 2 * (w * h)
    ensures w * 2 * h == 2 * (w * h) && w * 3 * h == 3 * (w * h)
  {
    HalfWidth(w, h);
    HalfHeight(w, h);
    HalfHeight(w / 2, h);
    Reassociate(w, h);
  }

  lemma InOrder(ps: seq<Plane>, total: nat)
    requires 1 <= |ps| <= 3 && ps[0].offset == 0
    requires forall i :: 0 <= i < |ps| - 1 ==> ps[i].End() <= ps[i + 1].offset
    requires ps[|ps| - 1].End() <= total
    ensures Sound(ps, total)
  {
    if |ps| == 3 {
      assert ps[0].End() <= ps[1].offset <= ps[1].End() <= ps[2].offset;
    } else if |ps| == 2 {
      assert ps[0].End() <= ps[1].offset;
    }
  }

  /** For every format and size, odd ones included. */
  lemma LayoutIsSound(format: nat, w: nat, h: nat)
    requires Supported(format)
    ensures Sound(Layout(format, w, h), Total(format, w, h))
  {
    var ps, total := Layout(format, w, h), Total(format, w, h);
    HalfTimes(w, h);
    assert ps[0].End() <= total && (|ps| > 1 ==> ps[0].End() <= ps[1].offset);
    assert |ps| > 1 ==> ps[1].End() <= total;
    assert |ps| > 2 ==> ps[1].End() <= ps[2].offset && ps[2].End() <= total;
    InOrder(ps, total);
  }

  /** The planes format by format: offset, pitch and rows of each. */
  lemma LayoutIs(w: nat, h: nat)
    ensures Layout(0x601, w, h)
         == [Plane(0, w, h), Plane(w * h, w / 2, h / 2), Plane(w * h + w / 2 * h / 2, w / 2, h / 2)]
    ensures Layout(0x603, w, h) == [Plane(0, w, h), Plane(w * h, w / 2, h), Plane(w * h + w / 2 * h, w / 2, h)]
    ensures Layout(0x801, w, h) == Layout(0x802, w, h) == [Plane(0, w, h), Plane(w * h, w, h / 2)]
    ensures Layout(0x803, w, h) == [Plane(0, w, h), Plane(w * h, w, h)]
    ensures Layout(0x501, w, h) == [Plane(0, 2 * w, h)] && Layout(0x201, w, h) == [Plane(0, 3 * w, h)]
    ensures forall format :: Supported(format) <==> format in {0x601, 0x603, 0x801, 0x802, 0x803, 0x501, 0x201}
  {
  }

  lemma EvenProducts(a: nat, b: nat)
    ensures (2 * a) * (2 * b) == 4 * (a * b) && a * (2 * b) == 2 * (a * b) && (2 * a) * b == 2 * (a * b)
    ensures 3 * (2 * a) * (2 * b) == 12 * (a * b) && 2 * (2 * a) * (2 * b) == 8 * (a * b)
    ensures (2 * a) * 2 * (2 * b) == 8 * (a * b) && (2 * a) * 3 * (2 * b) == 12 * (a * b)
  {
  }

  /** The same in samples: every plane of full width and height has one byte for each pixel; the chroma
      planes of a planar format have half the width, those of a 4:2:0 format half the rows; and for even
      sizes nothing is left over. */
  lemma EvenLayoutIsExact(format: nat, w: nat, h: nat)
    requires Supported(format) && w % 2 == 0 && h % 2 == 0
    ensures var ps := Layout(format, w, h);
            && ps[|ps| - 1].End() == Total(format, w, h)
            && forall i :: 0 <= i < |ps| - 1 ==> ps[i].End() == ps[i + 1].offset
  {
    var a, b := w / 2, h / 2;
    EvenProducts(a, b);
    assert w == 2 * a && h == 2 * b;
  }

  /** The stripped copy of a 32-bit image of the same size is exactly one RGB24 plane. */
  lemma Rgb24FillsStrippedImage(w: nat, h: nat, byteCount: nat)
    ensures Layout(RGB24_B8G8R8, w, h)[0].End() <= StrippedSize(byteCount) <==> w * h <= byteCount / 4
    ensures byteCount == 4 * (w * h) ==> Layout(RGB24_B8G8R8, w, h)[0].End() == StrippedSize(byteCount)
  {
    Reassociate(w, h);
  }

  const INT_LIMIT: nat := 0x8000_0000

  /** Returns 0, or -1 for a format it does not know. `exact` says whether every product of two ints on the
      way fits an int, so that what is computed here is what the code computes. */
  method GetFaceInputImg(width: nat, height: nat, format: nat, inputImg: Offscreen)
    returns (ret: int, ghost exact: bool)
    requires inputImg.Valid()
    modifies inputImg, inputImg.plane, inputImg.pitch
    ensures ret == if Supported(format) then 0 else -1
    ensures inputImg.format == format && inputImg.width == width && inputImg.height == height
    ensures Supported(format) ==> Described(inputImg) == Layout(format, width, height)
    ensures Supported(format) ==>
              (exact <==> if format == YUYV then 2 * width < INT_LIMIT
                          else if format == RGB24_B8G8R8 then 3 * width < INT_LIMIT
                          else width * height < INT_LIMIT)
  {
    var plane, pitch := inputImg.plane, inputImg.pitch;
    inputImg.format := format;
    inputImg.width := width;
    inputImg.height := height;
    plane[0] := 0;
    HalfWidth(width, height);
    exact := width * height < INT_LIMIT;
    if format == I420 {
      pitch[0] := width;
      pitch[1] := width / 2;
      pitch[2] := width / 2;
      plane[1] := plane[0] + pitch[0] * height;
      plane[2] := plane[1] + pitch[1] * height / 2;
      exact := pitch[0] * height < INT_LIMIT && pitch[1] * height < INT_LIMIT;
    } else if format == NV12 {
      pitch[0] := width;
      pitch[1] := width;
      plane[1] := plane[0] + pitch[0] * height;
    } else if format == NV21 {
      pitch[0] := width;
      pitch[1] := width;
      plane[1] := plane[0] + pitch[0] * height;
    } else if format == YUYV {
      pitch[0] := width * 2;
      exact := width * 2 < INT_LIMIT;
    } else if format == I422H {
      pitch[0] := width;
      pitch[1] := width / 2;
      pitch[2] := width / 2;
      plane[1] := plane[0] + pitch[0] * height;
      plane[2] := plane[1] + pitch[1] * height;
      exact := pitch[0] * height < INT_LIMIT && pitch[1] * height < INT_LIMIT;
    } else if format == LPI422H {
      pitch[0] := width;
      pitch[1] := width;
      plane[1] := plane[0] + pitch[0] * height;
    } else if format == RGB24_B8G8R8 {
      pitch[0] := width * 3;
      exact := width * 3 < INT_LIMIT;
    } else {
      ret := -1;
      return;
    }
    ret := 0;
  }
}
