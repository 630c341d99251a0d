/** The brightness gradients of DrawOnTop.onDraw: for each 2 × 2 block of the previous and the
    current grayscale raster (a Horn–Schunck cube of eight samples), an integer estimate of the
    horizontal, vertical and temporal brightness change. */
module Gradients {
  import opened Rasters

  /** The eight samples of one cube: pRC is the previous frame at row offset R and column
      offset C from the block's top-left cell, cRC the current frame. */
  datatype Cube = Cube(p00: int, p01: int, p10: int, p11: int,
                       c00: int, c01: int, c10: int, c11: int)

  /** The eight-term sums before the shift. */
  function SumX(q: Cube): int {
    q.p01 + q.c01 + q.p11 + q.c11 - q.p00 - q.c00 - q.p10 - q.c10
  }
  function SumY(q: Cube): int {
    q.p10 + q.c10 + q.p11 + q.c11 - q.p00 - q.c00 - q.p01 - q.c01
  }
  function SumT(q: Cube): int {
    q.c00 + q.c10 + q.c01 + q.c11 - q.p00 - q.p10 - q.p01 - q.p11
  }

  /** Java's `>> 2` on an int: an arithmetic shift, which rounds a negative sum down (-1 >> 2
      is -1), not toward zero as Java's `/ 4` would. Dafny's `/` by a positive divisor
      rounds down as well. */
  function Shr2(s: int): (r: int)
    ensures 4 * r <= s < 4 * r + 4
  {
    s / 4
  }

  /** E_x, E_y and the temporal term of E_t before its scaling by the frame rate. */
  function GradX(q: Cube): int { Shr2(SumX(q)) }
  function GradY(q: Cube): int { Shr2(SumY(q)) }
  function GradT(q: Cube): int { Shr2(SumT(q)) }

  /** The cube with the two frames exchanged. */
  function Swapped(q: Cube): Cube {
    Cube(q.c00, q.c01, q.c10, q.c11, q.p00, q.p01, q.p10, q.p11)
  }

  predicate IsByte(x: int) { 0 <= x <= 255 }

  predicate AllBytes(q: Cube) {
    IsByte(q.p00) && IsByte(q.p01) && IsByte(q.p10) && IsByte(q.p11) &&
    IsByte(q.c00) && IsByte(q.c01) && IsByte(q.c10) && IsByte(q.c11)
  }

  /** The cube at block (j, i) of two rasters: rows j, j + 1 and columns i, i + 1. */
  function CubeAt(prev: seq<seq<int>>, curr: seq<seq<int>>, j: int, i: int): Cube
    requires 0 <= j && j + 1 < |prev| && j + 1 < |curr|
    requires 0 <= i && i + 1 < |prev[j]| && i + 1 < |prev[j + 1]|
    requires i + 1 < |curr[j]| && i + 1 < |curr[j + 1]|
  {
    Cube(prev[j][i], prev[j][i + 1], prev[j + 1][i], prev[j + 1][i + 1],
         curr[j][i], curr[j][i + 1], curr[j + 1][i], curr[j + 1][i + 1])
  }

  /** With luma samples all gradients stay within one byte of zero, so none of the 32-bit
      sums can wrap. */
  lemma GradientsOfBytesInRange(q: Cube)
    requires AllBytes(q)
    ensures -1020 <= SumX(q) <= 1020 && -1020 <= SumY(q) <= 1020 && -1020 <= SumT(q) <= 1020
    ensures -255 <= GradX(q) <= 255 && -255 <= GradY(q) <= 255 && -255 <= GradT(q) <= 255
  {
  }

  /** The spatial gradients average both frames, so they do not depend on which is which;
      the temporal sum only changes sign, and its quarter by at most the rounding step. */
  lemma SwappingFramesKeepsSpatialGradients(q: Cube)
    ensures GradX(Swapped(q)) == GradX(q) && GradY(Swapped(q)) == GradY(q)
    ensures SumT(Swapped(q)) == -SumT(q)
    ensures -1 <= GradT(Swapped(q)) + GradT(q) <= 0
  {
  }

  /** A still scene has no temporal gradient. */
  lemma StillCubeHasNoTemporalGradient(q: Cube)
    requires q.c00 == q.p00 && q.c01 == q.p01 && q.c10 == q.p10 && q.c11 == q.p11
    ensures GradT(q) == 0
  {
  }

  /** A scene uniformly brighter by k has temporal gradient k. */
  lemma BrightenedCubeHasTemporalGradient(q: Cube, k: int)
    requires q.c00 == q.p00 + k && q.c01 == q.p01 + k && q.c10 == q.p10 + k && q.c11 == q.p11 + k
    ensures GradT(q) == k
  {
  }

  /** Spatially constant frames have no spatial gradient. */
  lemma FlatCubeHasNoSpatialGradient(q: Cube, a: int, b: int)
    requires q.p00 == a && q.p01 == a && q.p10 == a && q.p11 == a
    requires q.c00 == b && q.c01 == b && q.c10 == b && q.c11 == b
    ensures GradX(q) == 0 && GradY(q) == 0
  {
  }

  /** Two rasters of the same shape, at least one cell in each direction. */
  predicate SameShape(prev: seq<seq<int>>, curr: seq<seq<int>>, h: int, w: int) {
    h >= 1 && w >= 1 && IsRaster(prev, h, w) && IsRaster(curr, h, w)
  }

  /** Over whole rasters: frame order does not matter to E_x and E_y. */
  lemma {:induction false} SpatialGradientsIgnoreFrameOrder(prev: seq<seq<int>>, curr: seq<seq<int>>, h: int, w: int)
    requires SameShape(prev, curr, h, w)
    ensures forall j, i :: 0 <= j < h - 1 && 0 <= i < w - 1 ==>
      GradX(CubeAt(curr, prev, j, i)) == GradX(CubeAt(prev, curr, j, i)) &&
      GradY(CubeAt(curr, prev, j, i)) == GradY(CubeAt(prev, curr, j, i))
  {
    forall j, i | 0 <= j < h - 1 && 0 <= i < w - 1
      ensures GradX(CubeAt(curr, prev, j, i)) == GradX(CubeAt(prev, curr, j, i))
      ensures GradY(CubeAt(curr, prev, j, i)) == GradY(CubeAt(prev, curr, j, i))
    {
      assert CubeAt(curr, prev, j, i) == Swapped(CubeAt(prev, curr, j, i));
      SwappingFramesKeepsSpatialGradients(CubeAt(prev, curr, j, i));
    }
  }

  /** Over whole rasters: brightening every pixel by k (k = 0: a repeated frame) gives a
      temporal gradient of k everywhere. */
  lemma {:induction false} BrightenedFrameHasTemporalGradient(prev: seq<seq<int>>, curr: seq<seq<int>>, h: int, w: int, k: int)
    requires SameShape(prev, curr, h, w)
    requires forall j, i :: 0 <= j < h && 0 <= i < w ==> curr[j][i] == prev[j][i] + k
    ensures forall j, i :: 0 <= j < h - 1 && 0 <= i < w - 1 ==> GradT(CubeAt(prev, curr, j, i)) == k
  {
    forall j, i | 0 <= j < h - 1 && 0 <= i < w - 1
      ensures GradT(CubeAt(prev, curr, j, i)) == k
    {
      assert curr[j][i] == prev[j][i] + k && curr[j][i + 1] == prev[j][i + 1] + k;
      assert curr[j + 1][i] == prev[j + 1][i] + k && curr[j + 1][i + 1] == prev[j + 1][i + 1] + k;
      BrightenedCubeHasTemporalGradient(CubeAt(prev, curr, j, i), k);
    }
  }

  /** Over whole rasters: two spatially constant frames have E_x = E_y = 0 everywhere. */
  lemma {:induction false} FlatFramesHaveNoSpatialGradient(prev: seq<seq<int>>, curr: seq<seq<int>>, h: int, w: int, a: int, b: int)
    requires SameShape(prev, curr, h, w)
    requires forall j, i :: 0 <= j < h && 0 <= i < w ==> prev[j][i] == a && curr[j][i] == b
    ensures forall j, i :: 0 <= j < h - 1 && 0 <= i < w - 1 ==>
      GradX(CubeAt(prev, curr, j, i)) == 0 && GradY(CubeAt(prev, curr, j, i)) == 0
  {
    forall j, i | 0 <= j < h - 1 && 0 <= i < w - 1
      ensures GradX(CubeAt(prev, curr, j, i)) == 0 && GradY(CubeAt(prev, curr, j, i)) == 0
    {
      assert prev[j][i] == a && curr[j][i] == b && prev[j][i + 1] == a && curr[j][i + 1] == b;
      assert prev[j + 1][i] == a && curr[j + 1][i] == b && prev[j + 1][i + 1] == a && curr[j + 1][i + 1] == b;
      FlatCubeHasNoSpatialGradient(CubeAt(prev, curr, j, i), a, b);
    }
  }

  /** Over whole rasters: luma inputs give gradients in [-255, 255]. */
  lemma {:induction false} GradientsOfLumaInRange(prev: seq<seq<int>>, curr: seq<seq<int>>, h: int, w: int)
    requires SameShape(prev, curr, h, w)
    requires forall j, i :: 0 <= j < h && 0 <= i < w ==> IsByte(prev[j][i]) && IsByte(curr[j][i])
    ensures forall j, i :: 0 <= j < h - 1 && 0 <= i < w - 1 ==>
      var q := CubeAt(prev, curr, j, i);
      -255 <= GradX(q) <= 255 && -255 <= GradY(q) <= 255 && -255 <= GradT(q) <= 255
  {
    forall j, i | 0 <= j < h - 1 && 0 <= i < w - 1
      ensures var q := CubeAt(prev, curr, j, i);
        -255 <= GradX(q) <= 255 && -255 <= GradY(q) <= 255 && -255 <= GradT(q) <= 255
    {
      assert IsByte(prev[j][i]) && IsByte(curr[j][i]) && IsByte(prev[j][i + 1]) && IsByte(curr[j][i + 1]);
      assert IsByte(prev[j + 1][i]) && IsByte(curr[j + 1][i]) && IsByte(prev[j + 1][i + 1]) && IsByte(curr[j + 1][i + 1]);
      GradientsOfBytesInRange(CubeAt(prev, curr, j, i));
    }
  }

  /** The gradient loops of onDraw: every cell (j, i) of the (H - 1) × (W - 1) outputs gets the
      gradients of the cube at block (j, i); E_t receives the temporal term without the
      frame-rate factor. */
  method ComputeGradients(prev: array2<int>, curr: array2<int>, ex: array2<int>, ey: array2<int>, et: array2<int>)
    requires prev.Length0 == curr.Length0 && prev.Length1 == curr.Length1
    requires ex.Length0 + 1 == curr.Length0 && ex.Length1 + 1 == curr.Length1
    requires ey.Length0 == ex.Length0 && ey.Length1 == ex.Length1
    requires et.Length0 == ex.Length0 && et.Length1 == ex.Length1
    requires ex != ey && ex != et && ey != et
    requires ex != prev && ex != curr && ey != prev && ey != curr && et != prev && et != curr
    modifies ex, ey, et
    ensures forall j, i :: 0 <= j < ex.Length0 && 0 <= i < ex.Length1 ==>
      var q := CubeAt(Cells(prev), Cells(curr), j, i);
      ex[j, i] == GradX(q) && ey[j, i] == GradY(q) && et[j, i] == GradT(q)
  {
    ghost var p, c := Cells(prev), Cells(curr);
    var j := 0;
    while j < curr.Length0 - 1
      invariant 0 <= j <= curr.Length0 - 1
      invariant forall jj, ii :: 0 <= jj < j && 0 <= ii < ex.Length1 ==>
        var q := CubeAt(p, c, jj, ii);
        ex[jj, ii] == GradX(q) && ey[jj, ii] == GradY(q) && et[jj, ii] == GradT(q)
    {
      GradientRow(prev, curr, ex, ey, et, p, c, j);
      j := j + 1;
    }
  }

  /** One pass of the outer gradient loop: row j of the three outputs; the other rows keep
      their values. */
  method GradientRow(prev: array2<int>, curr: array2<int>, ex: array2<int>, ey: array2<int>, et: array2<int>,
                     ghost p: seq<seq<int>>, ghost c: seq<seq<int>>, j: int)
    requires prev.Length0 == curr.Length0 && prev.Length1 == curr.Length1
    requires ex.Length0 + 1 == curr.Length0 && ex.Length1 + 1 == curr.Length1
    requires ey.Length0 == ex.Length0 && ey.Length1 == ex.Length1
    requires et.Length0 == ex.Length0 && et.Length1 == ex.Length1
    requires ex != ey && ex != et && ey != et
    requires ex != prev && ex != curr && ey != prev && ey != curr && et != prev && et != curr
    requires p == Cells(prev) && c == Cells(curr)
    requires 0 <= j < ex.Length0
    modifies ex, ey, et
    ensures forall ii :: 0 <= ii < ex.Length1 ==>
      var q := CubeAt(p, c, j, ii);
      ex[j, ii] == GradX(q) && ey[j, ii] == GradY(q) && et[j, ii] == GradT(q)
    ensures forall jj, ii :: 0 <= jj < ex.Length0 && jj != j && 0 <= ii < ex.Length1 ==>
      ex[jj, ii] == old(ex[jj, ii]) && ey[jj, ii] == old(ey[jj, ii]) && et[jj, ii] == old(et[jj, ii])
  {
    var i := 0;
    while i < curr.Length1 - 1
      invariant 0 <= i <= curr.Length1 - 1
      invariant forall ii :: 0 <= ii < i ==>
        var q := CubeAt(p, c, j, ii);
        ex[j, ii] == GradX(q) && ey[j, ii] == GradY(q) && et[j, ii] == GradT(q)
      invariant forall jj, ii :: 0 <= jj < ex.Length0 && jj != j && 0 <= ii < ex.Length1 ==>
        ex[jj, ii] == old(ex[jj, ii]) && ey[jj, ii] == old(ey[jj, ii]) && et[jj, ii] == old(et[jj, ii])
    {
      ex[j, i] := (prev[j, i + 1] + curr[j, i + 1] + prev[j + 1, i + 1] + curr[j + 1, i + 1]
                 - prev[j, i] - curr[j, i] - prev[j + 1, i] - curr[j + 1, i]) / 4;
      ey[j, i] := (prev[j + 1, i] + curr[j + 1, i] + prev[j + 1, i + 1] + curr[j + 1, i + 1]
                 - prev[j, i] - curr[j, i] - prev[j, i + 1] - curr[j, i + 1]) / 4;
      et[j, i] := (curr[j, i] + curr[j + 1, i] + curr[j, i + 1] + curr[j + 1, i + 1]
                 - prev[j, i] - prev[j + 1, i] - prev[j, i + 1] - prev[j + 1, i + 1]) / 4;
      i := i + 1;
    }
  }
}
