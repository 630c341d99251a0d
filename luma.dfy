/** The grayscale frame decoder, DrawOnTop.decodeYUV420SPGrayscale: it copies luma bytes of a
    YUV420SP (NV21) preview buffer into a downscaled width × height raster, where `d` is the
    activity's downscalingFactor and width, height are already divided by it. */
module Luma {
  import opened Rasters

  /** The offset the decoder's running counter holds for cell (j, i): it advances by d per
      column and, after each row of `width` cells, by a further (d - 1) * width, so a row
      of the raster spans (2d - 1) * width bytes of the buffer. */
  function GrayIndex(d: int, width: int, j: int, i: int): int {
    j * ((2 * d - 1) * width) + i * d
  }

  /** Size of the luma plane of the full-resolution frame:
      (d * width) × (d * height) one-byte samples. */
  function LumaPlaneSize(d: int, width: int, height: int): int {
    d * d * width * height
  }

  /** The buffer length that the preview set-up expects for a YUV420SP frame of
      (d * width) × (d * height) pixels: luma plane plus half as much chroma. */
  function ExpectedFrameLength(d: int, width: int, height: int): int {
    d * d * width * height * 3 / 2
  }

  /** A buffer of the expected length holds the whole luma plane. */
  lemma {:induction false} ExpectedLengthHoldsLumaPlane(d: nat, width: nat, height: nat)
    ensures LumaPlaneSize(d, width, height) <= ExpectedFrameLength(d, width, height)
  {
    MulMonotone(0, d, d);
    MulMonotone(0, d * d, width);
    MulMonotone(0, d * d * width, height);
  }

  /** The counter steps: d to the next column ... */
  lemma {:induction false} GrayColumnStep(d: int, width: int, j: int, i: int)
    ensures GrayIndex(d, width, j, i) + d == GrayIndex(d, width, j, i + 1)
  {
  }

  /** ... and (d - 1) * width from the end of a row to the start of the next. */
  lemma {:induction false} GrayRowStep(d: int, width: int, j: int)
    ensures GrayIndex(d, width, j, width) + (d - 1) * width == GrayIndex(d, width, j + 1, 0)
  {
  }

  /** The last column of a row is read before the row's span ends. */
  lemma {:induction false} RowTail(d: int, width: nat)
    requires d >= 1 && width >= 1
    ensures (width - 1) * d < (2 * d - 1) * width
  {
    MulMonotone(0, width, d - 1);
    assert (2 * d - 1) * width == (width - 1) * d + (width * (d - 1) + d);
  }

  /** 2d - 1 <= d * d, since (d - 1)^2 >= 0. */
  lemma {:induction false} StrideBelowSquare(d: int)
    requires d >= 1
    ensures 2 * d - 1 <= d * d
  {
    var e := d - 1;
    assert d * d == e * e + 2 * d - 1;
    MulMonotone(0, e, e);
  }

  /** height rows of (2d - 1) * width bytes fit in the luma plane. */
  lemma {:induction false} SweepBelowPlane(d: int, width: nat, height: nat)
    requires d >= 1
    ensures height * ((2 * d - 1) * width) <= LumaPlaneSize(d, width, height)
  {
    StrideBelowSquare(d);
    MulMonotone(2 * d - 1, d * d, width);
    MulMonotone((2 * d - 1) * width, d * d * width, height);
  }

  /** Every offset the decoder reads lies in the luma plane: chroma is never read. */
  lemma {:induction false} LumaOnly(d: int, width: nat, height: nat, j: int, i: int)
    requires d >= 1
    requires 0 <= j < height && 0 <= i < width
    ensures 0 <= GrayIndex(d, width, j, i) < LumaPlaneSize(d, width, height)
  {
    var s := (2 * d - 1) * width;
    MulMonotone(0, 2 * d - 1, width);
    MulMonotone(i, width - 1, d);
    MulMonotone(0, i, d);
    RowTail(d, width);
    MulMonotone(0, j, s);
    MulMonotone(j, height - 1, s);
    assert (height - 1) * s + s == height * s;
    SweepBelowPlane(d, width, height);
  }

  /** Without downscaling the decoder is a plain row-major copy of the luma plane. */
  lemma UnscaledDecodeIsRowMajor(width: int, j: int, i: int)
    ensures GrayIndex(1, width, j, i) == RowMajor(width, j, i)
  {
  }

  /** A frame whose luma plane holds one value k decodes to a raster that is k in every cell,
      at any downscaling factor. */
  lemma UniformLumaDecodesUniform(yuv: seq<Byte>, d: int, width: nat, height: nat, k: Byte)
    requires d >= 1 && LumaPlaneSize(d, width, height) <= |yuv|
    requires forall p :: 0 <= p < LumaPlaneSize(d, width, height) ==> yuv[p] == k
    ensures forall j, i :: 0 <= j < height && 0 <= i < width ==>
      0 <= GrayIndex(d, width, j, i) < |yuv| && yuv[GrayIndex(d, width, j, i)] == k
  {
    forall j, i | 0 <= j < height && 0 <= i < width
      ensures 0 <= GrayIndex(d, width, j, i) < |yuv| && yuv[GrayIndex(d, width, j, i)] == k
    {
      LumaOnly(d, width, height, j, i);
      var p := GrayIndex(d, width, j, i);
      assert 0 <= p < LumaPlaneSize(d, width, height);
      assert yuv[p] == k;
    }
  }

  /** The buffer holds the last byte the decoder reads, whenever there is a cell at all:
      exactly the condition under which decodeYUV420SPGrayscale stays inside its array. */
  predicate GrayFits(length: int, d: int, width: int, height: int) {
    width > 0 && height > 0 ==> GrayIndex(d, width, height - 1, width - 1) < length
  }

  /** The last cell's offset is the largest the decoder reads. */
  lemma {:induction false} GrayIndexBelowLast(d: int, width: nat, height: nat, j: int, i: int)
    requires d >= 1
    requires 0 <= j < height && 0 <= i < width
    ensures 0 <= GrayIndex(d, width, j, i) <= GrayIndex(d, width, height - 1, width - 1)
  {
    var s := (2 * d - 1) * width;
    MulMonotone(0, 2 * d - 1, width);
    MulMonotone(0, j, s);
    MulMonotone(j, height - 1, s);
    MulMonotone(0, i, d);
    MulMonotone(i, width - 1, d);
  }

  /** A buffer that holds the luma plane is long enough for the decoder ... */
  lemma LumaPlaneMeetsGrayFits(length: int, d: int, width: nat, height: nat)
    requires d >= 1 && LumaPlaneSize(d, width, height) <= length
    ensures GrayFits(length, d, width, height)
  {
    if width > 0 && height > 0 {
      LumaOnly(d, width, height, height - 1, width - 1);
    }
  }

  /** ... but so is one of height rows of (2d - 1) * width bytes, which is shorter than
      the luma plane once d >= 2. */
  lemma {:induction false} SweepMeetsGrayFits(d: int, width: nat, height: nat)
    requires d >= 1
    ensures GrayFits(height * ((2 * d - 1) * width), d, width, height)
    ensures d >= 2 && width >= 1 && height >= 1 ==> height * ((2 * d - 1) * width) < LumaPlaneSize(d, width, height)
  {
    if width > 0 && height > 0 {
      var s := (2 * d - 1) * width;
      RowTail(d, width);
      MulMonotone(0, width - 1, d);
      assert (height - 1) * s + s == height * s;
      if d >= 2 {
        var e := d - 1;
        assert d * d == e * e + 2 * d - 1;
        MulMonotone(1, e, e);
        MulMonotone(2 * d, d * d, width);
        assert s + width == 2 * d * width;
        MulMonotone(s + 1, d * d * width, height);
        assert (s + 1) * height == height * s + height;
      }
    }
  }

  /** decodeYUV420SPGrayscale: cell (j, i) receives the unsigned value of byte
      GrayIndex(d, width, j, i), which lies in the luma plane; the counter `pix` runs
      exactly as in the source. */
  method DecodeGrayscale(greyscale: array2<int>, yuv: array<Byte>, width: nat, height: nat, d: int)
    requires d >= 1
    requires greyscale.Length0 == height && greyscale.Length1 == width
    requires GrayFits(yuv.Length, d, width, height)
    modifies greyscale
    ensures forall j, i :: 0 <= j < height && 0 <= i < width ==>
      0 <= GrayIndex(d, width, j, i) < LumaPlaneSize(d, width, height) && GrayIndex(d, width, j, i) < yuv.Length &&
      greyscale[j, i] == Unsigned(yuv[GrayIndex(d, width, j, i)]) && 0 <= greyscale[j, i] <= 255
  {
    var j, pix := 0, 0;
    while j < height
      invariant 0 <= j <= height
      invariant pix == GrayIndex(d, width, j, 0)
      invariant forall jj, ii :: 0 <= jj < j && 0 <= ii < width ==>
        0 <= GrayIndex(d, width, jj, ii) < LumaPlaneSize(d, width, height) && GrayIndex(d, width, jj, ii) < yuv.Length &&
        greyscale[jj, ii] == Unsigned(yuv[GrayIndex(d, width, jj, ii)])
    {
      var i := 0;
      while i < width
        invariant 0 <= i <= width
        invariant pix == GrayIndex(d, width, j, i)
        invariant forall jj, ii :: 0 <= jj < j && 0 <= ii < width ==>
          0 <= GrayIndex(d, width, jj, ii) < LumaPlaneSize(d, width, height) && GrayIndex(d, width, jj, ii) < yuv.Length &&
          greyscale[jj, ii] == Unsigned(yuv[GrayIndex(d, width, jj, ii)])
        invariant forall ii :: 0 <= ii < i ==>
          0 <= GrayIndex(d, width, j, ii) < LumaPlaneSize(d, width, height) && GrayIndex(d, width, j, ii) < yuv.Length &&
          greyscale[j, ii] == Unsigned(yuv[GrayIndex(d, width, j, ii)])
      {
        LumaOnly(d, width, height, j, i);
        GrayIndexBelowLast(d, width, height, j, i);
        greyscale[j, i] := Unsigned(yuv[pix]);
        GrayColumnStep(d, width, j, i);
        pix, i := pix + d, i + 1;
      }
      GrayRowStep(d, width, j);
      pix := pix + (d - 1) * width;
      j := j + 1;
    }
  }

  /** The offset of the full-resolution luma sample at row j * d, column i * d: the point
      sample that a decimation by d takes for cell (j, i). */
  function DecimatedIndex(d: int, width: int, j: int, i: int): int {
    (j * d) * (d * width) + i * d
  }

  /** The decimated offset is that of a pixel inside the (d * width) × (d * height) frame. */
  lemma {:induction false} DecimatedIndexInFrame(d: int, width: nat, height: nat, j: int, i: int)
    requires d >= 1
    requires 0 <= j < height && 0 <= i < width
    ensures 0 <= j * d < d * height && 0 <= i * d < d * width
    ensures DecimatedIndex(d, width, j, i) == RowMajor(d * width, j * d, i * d)
    ensures 0 <= DecimatedIndex(d, width, j, i) < LumaPlaneSize(d, width, height)
  {
    MulMonotone(0, j, d);
    MulMonotone(j, height - 1, d);
    MulMonotone(0, i, d);
    MulMonotone(i, width - 1, d);
    MulMonotone(0, d, width);
    MulMonotone(0, d, height);
    RowMajorInRange(d * width, d * height, j * d, i * d);
    DecimatedPlane(d, width, height);
  }

  /** The (d * width) × (d * height) frame is the luma plane. */
  lemma DecimatedPlane(d: int, width: int, height: int)
    ensures (d * width) * (d * height) == LumaPlaneSize(d, width, height)
  {
  }

  /** The corrected counter steps d to the next column and (d - 1) * d * width from the
      end of a row to the start of the next. */
  lemma {:induction false} DecimatedSteps(d: int, width: int, j: int, i: int)
    ensures DecimatedIndex(d, width, j, i) + d == DecimatedIndex(d, width, j, i + 1)
    ensures DecimatedIndex(d, width, j, width) + (d - 1) * d * width == DecimatedIndex(d, width, j + 1, 0)
  {
    assert (j + 1) * d * (d * width) == j * d * (d * width) + d * (d * width);
  }

  /** The source's stride departs from decimation as soon as d >= 2: the first cell of the
      second row is read (d - 1)^2 * width bytes too early. */
  lemma {:induction false} StrideMissesDecimation(d: int, width: int)
    requires d >= 2 && width >= 1
    ensures GrayIndex(d, width, 1, 0) < DecimatedIndex(d, width, 1, 0)
  {
    var e := d - 1;
    assert d * d == e * e + 2 * d - 1;
    MulMonotone(1, e, e);
    MulMonotone(2 * d - 1, d * d - 1, width);
  }

  /** Where the source's raster row j starts in the full-resolution (d * width)-wide frame:
      at row ((2d - 1) * j) / d and column (((2d - 1) * j) % d) * width, so for d >= 2 the
      rows also drift sideways and wrap round the frame. */
  lemma {:induction false} StrideRowStart(d: int, width: int, j: int)
    requires d >= 1
    ensures GrayIndex(d, width, j, 0) == RowMajor(d * width, (2 * d - 1) * j / d, (2 * d - 1) * j % d * width)
  {
    var q, r := (2 * d - 1) * j / d, (2 * d - 1) * j % d;
    assert (2 * d - 1) * j == q * d + r;
    assert j * ((2 * d - 1) * width) == ((2 * d - 1) * j) * width;
    assert (q * d + r) * width == q * (d * width) + r * width;
  }

  /** Corrected decoder: the row step adds (d - 1) * d * width, so that cell (j, i) is the
      full-resolution pixel at row j * d, column i * d. */
  method DecodeGrayscaleDecimated(greyscale: array2<int>, yuv: array<Byte>, width: nat, height: nat, d: int)
    requires d >= 1
    requires greyscale.Length0 == height && greyscale.Length1 == width
    requires LumaPlaneSize(d, width, height) <= yuv.Length
    modifies greyscale
    ensures forall j, i :: 0 <= j < height && 0 <= i < width ==>
      0 <= RowMajor(d * width, j * d, i * d) < LumaPlaneSize(d, width, height) &&
      greyscale[j, i] == Unsigned(yuv[RowMajor(d * width, j * d, i * d)]) && 0 <= greyscale[j, i] <= 255
  {
    var j, pix := 0, 0;
    while j < height
      invariant 0 <= j <= height
      invariant pix == DecimatedIndex(d, width, j, 0)
      invariant forall jj, ii :: 0 <= jj < j && 0 <= ii < width ==>
        0 <= DecimatedIndex(d, width, jj, ii) < LumaPlaneSize(d, width, height) &&
        greyscale[jj, ii] == Unsigned(yuv[DecimatedIndex(d, width, jj, ii)])
    {
      var i := 0;
      while i < width
        invariant 0 <= i <= width
        invariant pix == DecimatedIndex(d, width, j, i)
        invariant forall jj, ii :: 0 <= jj < j && 0 <= ii < width ==>
          0 <= DecimatedIndex(d, width, jj, ii) < LumaPlaneSize(d, width, height) &&
          greyscale[jj, ii] == Unsigned(yuv[DecimatedIndex(d, width, jj, ii)])
        invariant forall ii :: 0 <= ii < i ==>
          0 <= DecimatedIndex(d, width, j, ii) < LumaPlaneSize(d, width, height) &&
          greyscale[j, ii] == Unsigned(yuv[DecimatedIndex(d, width, j, ii)])
      {
        DecimatedIndexInFrame(d, width, height, j, i);
        DecimatedSteps(d, width, j, i);
        greyscale[j, i] := Unsigned(yuv[pix]);
        pix, i := pix + d, i + 1;
      }
      DecimatedSteps(d, width, j, width);
      pix := pix + (d - 1) * d * width;
      j := j + 1;
    }
    forall j, i | 0 <= j < height && 0 <= i < width
      ensures DecimatedIndex(d, width, j, i) == RowMajor(d * width, j * d, i * d)
    {
      DecimatedIndexInFrame(d, width, height, j, i);
    }
  }
}
