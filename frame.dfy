/** DrawOnTop's frame state: the camera buffer, the current and previous grayscale rasters and
    the three gradient rasters, with the set-up that allocates them and the integer part of
    onDraw (decode, gradients, copy of the current raster into the previous one). */
module Frame {
  import opened Rasters
  import opened Luma
  import opened Gradients

  /** The activity's downscalingFactor. */
  const DownscalingFactor: int := 4

  class DrawOnTop {
    var imageWidth: nat
    var imageHeight: nat
    /** mYUVData: the latest preview frame. */
    var yuvData: array<Byte>
    /** mGrayscaleData and mPrevGrayscaleData, imageHeight × imageWidth. */
    var grayscale: array2<int>
    var prevGrayscale: array2<int>
    /** E_x, E_y, E_t, (imageHeight - 1) × (imageWidth - 1). */
    var ex: array2<int>
    var ey: array2<int>
    var et: array2<int>
    /** mBitmap != null: the arrays have been set up. */
    var ready: bool

    /** Once set up, the rasters have the shapes the set-up gives them and are distinct, and
        the two grayscale rasters hold luma values. */
    ghost predicate Valid()
      reads this, grayscale, prevGrayscale
    {
      Shaped() &&
      (ready ==> forall j, i :: 0 <= j < imageHeight && 0 <= i < imageWidth ==>
        IsByte(grayscale[j, i]) && IsByte(prevGrayscale[j, i]))
    }

    /** The shapes and distinctness of the rasters once set up. */
    ghost predicate Shaped()
      reads this
    {
      ready ==>
        1 <= imageHeight && 1 <= imageWidth &&
        grayscale.Length0 == imageHeight && grayscale.Length1 == imageWidth &&
        prevGrayscale.Length0 == imageHeight && prevGrayscale.Length1 == imageWidth &&
        ex.Length0 + 1 == imageHeight && ex.Length1 + 1 == imageWidth &&
        ey.Length0 == ex.Length0 && ey.Length1 == ex.Length1 &&
        et.Length0 == ex.Length0 && et.Length1 == ex.Length1 &&
        grayscale != prevGrayscale &&
        ex != ey && ex != et && ey != et &&
        ex != grayscale && ex != prevGrayscale && ey != grayscale && ey != prevGrayscale &&
        et != grayscale && et != prevGrayscale
    }

    /** The view before the first preview frame: nothing is set up yet. */
    constructor ()
      ensures Valid() && !ready
      ensures fresh(yuvData) && fresh(grayscale) && fresh(prevGrayscale) && fresh(ex) && fresh(ey) && fresh(et)
    {
      imageWidth, imageHeight := 0, 0;
      yuvData := new Byte[0];
      grayscale, prevGrayscale := new int[0, 0], new int[0, 0];
      ex, ey, et := new int[0, 0], new int[0, 0], new int[0, 0];
      ready := false;
    }

    /** setupArrays: the raster size is the preview size divided by the downscaling factor;
        all rasters are freshly allocated and zero, and the frame buffer has the length of
        the first preview frame. */
    method SetupArrays(previewHeight: nat, previewWidth: nat, dataLength: nat)
      requires DownscalingFactor <= previewHeight && DownscalingFactor <= previewWidth
      modifies this
      ensures Valid() && ready
      ensures imageHeight == previewHeight / DownscalingFactor && imageWidth == previewWidth / DownscalingFactor
      ensures fresh(yuvData) && yuvData.Length == dataLength
      ensures fresh(grayscale) && fresh(prevGrayscale) && fresh(ex) && fresh(ey) && fresh(et)
      ensures forall j, i :: 0 <= j < imageHeight && 0 <= i < imageWidth ==> grayscale[j, i] == 0 && prevGrayscale[j, i] == 0
      ensures forall j, i :: 0 <= j < ex.Length0 && 0 <= i < ex.Length1 ==> ex[j, i] == 0 && ey[j, i] == 0 && et[j, i] == 0
    {
      var h, w := previewHeight / DownscalingFactor, previewWidth / DownscalingFactor;
      var g, pg, x, y, t := NewRasters(h, w);
      var data := new Byte[dataLength];
      imageHeight, imageWidth := h, w;
      grayscale, prevGrayscale, ex, ey, et := g, pg, x, y, t;
      yuvData := data;
      ready := true;
    }

    /** The allocations of setupArrays: two zero h × w rasters and three zero (h - 1) × (w - 1)
        ones, as Java's `new int[][]` fills them. */
    static method NewRasters(h: nat, w: nat) returns (g: array2<int>, pg: array2<int>, x: array2<int>, y: array2<int>, t: array2<int>)
      requires 1 <= h && 1 <= w
      ensures fresh(g) && fresh(pg) && fresh(x) && fresh(y) && fresh(t)
      ensures g != pg && x != y && x != t && y != t
      ensures x != g && x != pg && y != g && y != pg && t != g && t != pg
      ensures g.Length0 == h && g.Length1 == w && pg.Length0 == h && pg.Length1 == w
      ensures x.Length0 + 1 == h && x.Length1 + 1 == w && y.Length0 == x.Length0 && y.Length1 == x.Length1
      ensures t.Length0 == x.Length0 && t.Length1 == x.Length1
      ensures forall j, i :: 0 <= j < h && 0 <= i < w ==> g[j, i] == 0 && pg[j, i] == 0
      ensures forall j, i :: 0 <= j < h - 1 && 0 <= i < w - 1 ==> x[j, i] == 0 && y[j, i] == 0 && t[j, i] == 0
    {
      g := new int[h, w]((j, i) => 0);
      pg := new int[h, w]((j, i) => 0);
      x := new int[h - 1, w - 1]((j, i) => 0);
      y := new int[h - 1, w - 1]((j, i) => 0);
      t := new int[h - 1, w - 1]((j, i) => 0);
    }

    /** The copy at the end of onDraw: row by row, mPrevGrayscaleData receives
        mGrayscaleData, which stays as it was. */
    method CopyToPrevious()
      requires Shaped() && ready
      modifies prevGrayscale
      ensures Cells(prevGrayscale) == Cells(grayscale)
      ensures Cells(grayscale) == old(Cells(grayscale))
    {
      var j := 0;
      while j < imageHeight
        invariant 0 <= j <= imageHeight
        invariant forall jj, ii :: 0 <= jj < j && 0 <= ii < imageWidth ==> prevGrayscale[jj, ii] == grayscale[jj, ii]
      {
        CopyRow(j);
        j := j + 1;
      }
      SameCells(prevGrayscale, grayscale);
    }

    /** System.arraycopy of row j of mGrayscaleData into row j of mPrevGrayscaleData. */
    method CopyRow(j: int)
      requires Shaped() && ready && 0 <= j < imageHeight
      modifies prevGrayscale
      ensures forall i :: 0 <= i < imageWidth ==> prevGrayscale[j, i] == grayscale[j, i]
      ensures forall jj, i :: 0 <= jj < imageHeight && jj != j && 0 <= i < imageWidth ==>
        prevGrayscale[jj, i] == old(prevGrayscale[jj, i])
    {
      var i := 0;
      while i < imageWidth
        invariant 0 <= i <= imageWidth
        invariant forall ii :: 0 <= ii < i ==> prevGrayscale[j, ii] == grayscale[j, ii]
        invariant forall jj, ii :: 0 <= jj < imageHeight && jj != j && 0 <= ii < imageWidth ==>
          prevGrayscale[jj, ii] == old(prevGrayscale[jj, ii])
      {
        prevGrayscale[j, i] := grayscale[j, i];
        i := i + 1;
      }
    }

    /** The integer work of onDraw. Before set-up nothing changes. Afterwards the current
        raster is decoded from the frame buffer, the gradients are taken between the
        previous raster and the new one, and the new one becomes the previous raster. */
    method OnDraw()
      requires Valid()
      requires ready ==> GrayFits(yuvData.Length, DownscalingFactor, imageWidth, imageHeight)
      modifies grayscale, prevGrayscale, ex, ey, et
      ensures Valid()
      ensures !ready ==> unchanged(grayscale, prevGrayscale, ex, ey, et)
      ensures ready ==> forall j, i :: 0 <= j < imageHeight && 0 <= i < imageWidth ==>
        0 <= GrayIndex(DownscalingFactor, imageWidth, j, i) < yuvData.Length &&
        grayscale[j, i] == Unsigned(yuvData[GrayIndex(DownscalingFactor, imageWidth, j, i)])
      ensures ready ==> forall j, i :: 0 <= j < ex.Length0 && 0 <= i < ex.Length1 ==>
        var q := CubeAt(old(Cells(prevGrayscale)), Cells(grayscale), j, i);
        ex[j, i] == GradX(q) && ey[j, i] == GradY(q) && et[j, i] == GradT(q)
      ensures ready ==> Cells(prevGrayscale) == Cells(grayscale)
      ensures ready ==> forall j, i :: 0 <= j < ex.Length0 && 0 <= i < ex.Length1 ==>
        -255 <= ex[j, i] <= 255 && -255 <= ey[j, i] <= 255 && -255 <= et[j, i] <= 255
    {
      if !ready {
        return;
      }
      ghost var p := Cells(prevGrayscale);
      DecodeGrayscale(grayscale, yuvData, imageWidth, imageHeight, DownscalingFactor);
      assert Cells(prevGrayscale) == p;
      ComputeGradients(prevGrayscale, grayscale, ex, ey, et);
      GradientsOfLumaInRange(p, Cells(grayscale), imageHeight, imageWidth);
      CopyToPrevious();
    }
  }
}
