/** The two layout helpers of DrawOnTop: reshapeTo2D, which copies a row-major buffer into a
    height × width raster, and reshapeTo1DandThreshold, which marks a row-major ARGB buffer
    red or green wherever a gradient raster exceeds the threshold 20 in magnitude. */
module Reshape {
  import opened Rasters
  import Nv21

  /** reshapeTo2D: cell (j, i) of the height × width window of `greyscale` receives word
      j * width + i of `rgb`; cells outside the window keep their values. Every buffer word
      below width * height lands in exactly one cell (Rasters.RowMajorInverse). An empty
      window indexes no row, so it places no demand on the raster's shape. */
  method ReshapeTo2D(rgb: array<int>, greyscale: array2<int>, width: nat, height: nat)
    requires width * height <= rgb.Length
    requires width > 0 && height > 0 ==> height <= greyscale.Length0 && width <= greyscale.Length1
    modifies greyscale
    ensures forall j, i :: 0 <= j < height && 0 <= i < width ==>
      0 <= RowMajor(width, j, i) < width * height && greyscale[j, i] == rgb[RowMajor(width, j, i)]
    ensures forall j, i :: 0 <= j < greyscale.Length0 && 0 <= i < greyscale.Length1 && !(j < height && i < width) ==>
      greyscale[j, i] == old(greyscale[j, i])
  {
    RowStartIsRowMajor(width, height);
    var j, pix := 0, 0;
    while j < height
      invariant 0 <= j <= height
      invariant pix == RowStart(width, j) <= width * height
      invariant forall jj :: 0 <= jj < j ==> RowStart(width, jj) + width <= pix
      invariant forall jj, ii :: 0 <= jj < j && 0 <= ii < width ==> greyscale[jj, ii] == rgb[RowStart(width, jj) + ii]
      invariant forall jj, ii :: 0 <= jj < greyscale.Length0 && 0 <= ii < greyscale.Length1 && !(jj < j && ii < width) ==>
        greyscale[jj, ii] == old(greyscale[jj, ii])
    {
      RowStartIsRowMajor(width, j + 1);
      MulMonotone(j + 1, height, width);
      ghost var pix0 := pix;
      pix := ReshapeRow(rgb, greyscale, width, j, pix);
      forall jj | 0 <= jj < j + 1
        ensures RowStart(width, jj) + width <= pix
      {
        RowStartBelow(width, jj, j + 1);
      }
      j := j + 1;
    }
    SpreadIsRowMajor(rgb[..], Cells(greyscale), width, height);
  }

  /** One pass of reshapeTo2D's outer loop: row j of the window receives the `width` words
      starting at `pix`. */
  method ReshapeRow(rgb: array<int>, greyscale: array2<int>, width: nat, j: int, pix: int) returns (pix': int)
    requires 0 <= pix && pix + width <= rgb.Length
    requires 0 <= j && (width > 0 ==> j < greyscale.Length0 && width <= greyscale.Length1)
    modifies greyscale
    ensures pix' == pix + width
    ensures forall i :: 0 <= i < width ==> greyscale[j, i] == rgb[pix + i]
    ensures forall jj, ii :: 0 <= jj < greyscale.Length0 && 0 <= ii < greyscale.Length1 && !(jj == j && ii < width) ==>
      greyscale[jj, ii] == old(greyscale[jj, ii])
  {
    var i := 0;
    pix' := pix;
    while i < width
      invariant 0 <= i <= width && pix' == pix + i
      invariant forall ii :: 0 <= ii < i ==> greyscale[j, ii] == rgb[pix + ii]
      invariant forall jj, ii :: 0 <= jj < greyscale.Length0 && 0 <= ii < greyscale.Length1 && !(jj == j && ii < i) ==>
        greyscale[jj, ii] == old(greyscale[jj, ii])
    {
      greyscale[j, i] := rgb[pix'];
      i, pix' := i + 1, pix' + 1;
    }
  }

  /** A raster filled row by row from a buffer holds word j * width + i at cell (j, i). */
  lemma SpreadIsRowMajor(s: seq<int>, g: seq<seq<int>>, width: nat, height: nat)
    requires width * height <= |s| && (width > 0 && height > 0 ==> Covers(g, width, height))
    requires forall jj :: 0 <= jj < height ==> RowStart(width, jj) + width <= |s|
    requires forall jj, ii :: 0 <= jj < height && 0 <= ii < width ==> g[jj][ii] == s[RowStart(width, jj) + ii]
    ensures forall j, i :: 0 <= j < height && 0 <= i < width ==>
      0 <= RowMajor(width, j, i) < width * height && g[j][i] == s[RowMajor(width, j, i)]
  {
    forall j, i | 0 <= j < height && 0 <= i < width
      ensures 0 <= RowMajor(width, j, i) < width * height && g[j][i] == s[RowMajor(width, j, i)]
    {
      RowStartIsRowMajor(width, j);
      RowMajorInRange(width, height, j, i);
    }
  }

  /** `0xffff0000` and `0xff00ff00` as Java ints: opaque red and opaque green. */
  const RedMark: int := -0x1_0000
  const GreenMark: int := -0xFF_0100

  /** The two marks are opaque pure red and opaque pure green. */
  lemma MarkColours()
    ensures Nv21.Alpha(RedMark) == 0xFF && Nv21.Red(RedMark) == 0xFF && Nv21.Green(RedMark) == 0 && Nv21.Blue(RedMark) == 0
    ensures Nv21.Alpha(GreenMark) == 0xFF && Nv21.Red(GreenMark) == 0 && Nv21.Green(GreenMark) == 0xFF && Nv21.Blue(GreenMark) == 0
  {
    Nv21.FieldsOfWord(RedMark, 0xFF, 0, 0);
    Nv21.FieldsOfWord(GreenMark, 0, 0xFF, 0);
  }

  /** The word a slot of the output holds after the threshold step, given the gradient
      value x and the slot's previous word: only values beyond ±20 overwrite it, and only
      with one of the two marks. */
  function Thresholded(x: int, before: int): (w: int)
    ensures w == RedMark || w == GreenMark || w == before
    ensures w != before ==> x < -20 || 20 < x
  {
    if x < -20 then RedMark else if x > 20 then GreenMark else before
  }

  /** A strongly negative gradient paints the slot opaque red, a strongly positive one
      opaque green; a slot left alone keeps whatever colour it had. */
  lemma ThresholdColours(x: int, before: int)
    ensures x < -20 ==> (Nv21.Alpha(Thresholded(x, before)) == 0xFF && Nv21.Red(Thresholded(x, before)) == 0xFF &&
                         Nv21.Green(Thresholded(x, before)) == 0 && Nv21.Blue(Thresholded(x, before)) == 0)
    ensures 20 < x ==> (Nv21.Alpha(Thresholded(x, before)) == 0xFF && Nv21.Red(Thresholded(x, before)) == 0 &&
                        Nv21.Green(Thresholded(x, before)) == 0xFF && Nv21.Blue(Thresholded(x, before)) == 0)
    ensures -20 <= x <= 20 ==> Thresholded(x, before) == before
  {
    MarkColours();
  }

  /** reshapeTo1DandThreshold: slot j * width + i of `dst` becomes Thresholded of cell
      (j, i) of `src` and the slot's old word; slots from width * height on are untouched. */
  method ReshapeTo1DAndThreshold(src: array2<int>, dst: array<int>, width: nat, height: nat)
    requires width > 0 && height > 0 ==> height <= src.Length0 && width <= src.Length1
    requires width * height <= dst.Length
    modifies dst
    ensures forall j, i :: 0 <= j < height && 0 <= i < width ==>
      0 <= RowMajor(width, j, i) < width * height &&
      dst[RowMajor(width, j, i)] == Thresholded(src[j, i], old(dst[RowMajor(width, j, i)]))
    ensures forall k :: width * height <= k < dst.Length ==> dst[k] == old(dst[k])
  {
    ghost var before := dst[..];
    RowStartIsRowMajor(width, height);
    var j, pix := 0, 0;
    while j < height
      invariant 0 <= j <= height
      invariant pix == RowStart(width, j) <= width * height
      invariant forall jj :: 0 <= jj < j ==> RowStart(width, jj) + width <= pix
      invariant forall jj, ii :: 0 <= jj < j && 0 <= ii < width ==>
        dst[RowStart(width, jj) + ii] == Thresholded(src[jj, ii], before[RowStart(width, jj) + ii])
      invariant forall k :: pix <= k < dst.Length ==> dst[k] == before[k]
    {
      RowStartIsRowMajor(width, j + 1);
      MulMonotone(j + 1, height, width);
      pix := ThresholdRow(src, dst, width, j, pix);
      forall jj | 0 <= jj < j + 1
        ensures RowStart(width, jj) + width <= pix
      {
        RowStartBelow(width, jj, j + 1);
      }
      forall jj, ii | 0 <= jj < j + 1 && 0 <= ii < width
        ensures dst[RowStart(width, jj) + ii] == Thresholded(src[jj, ii], before[RowStart(width, jj) + ii])
      {
        if jj < j {
          RowStartBelow(width, jj, j);
        }
      }
      j := j + 1;
    }
    ThresholdSpreadIsRowMajor(dst[..], before, Cells(src), width, height);
  }

  /** The row-by-row threshold output, restated at row-major indices. */
  lemma ThresholdSpreadIsRowMajor(s: seq<int>, before: seq<int>, g: seq<seq<int>>, width: nat, height: nat)
    requires |s| == |before| && width * height <= |s|
    requires width > 0 && height > 0 ==> Covers(g, width, height)
    requires forall jj :: 0 <= jj < height ==> RowStart(width, jj) + width <= |s|
    requires forall jj, ii :: 0 <= jj < height && 0 <= ii < width ==>
      s[RowStart(width, jj) + ii] == Thresholded(g[jj][ii], before[RowStart(width, jj) + ii])
    ensures forall j, i :: 0 <= j < height && 0 <= i < width ==>
      0 <= RowMajor(width, j, i) < width * height &&
      s[RowMajor(width, j, i)] == Thresholded(g[j][i], before[RowMajor(width, j, i)])
  {
    forall j, i | 0 <= j < height && 0 <= i < width
      ensures 0 <= RowMajor(width, j, i) < width * height &&
        s[RowMajor(width, j, i)] == Thresholded(g[j][i], before[RowMajor(width, j, i)])
    {
      RowStartIsRowMajor(width, j);
      RowMajorInRange(width, height, j, i);
    }
  }

  /** One pass of the outer threshold loop: row j of `src` into the `width` slots from `pix`. */
  method ThresholdRow(src: array2<int>, dst: array<int>, width: nat, j: int, pix: int) returns (pix': int)
    requires 0 <= j && (width > 0 ==> j < src.Length0 && width <= src.Length1)
    requires 0 <= pix && pix + width <= dst.Length
    modifies dst
    ensures pix' == pix + width
    ensures forall i :: 0 <= i < width ==> dst[pix + i] == Thresholded(src[j, i], old(dst[pix + i]))
    ensures forall k :: 0 <= k < dst.Length && !(pix <= k < pix') ==> dst[k] == old(dst[k])
  {
    var i := 0;
    pix' := pix;
    while i < width
      invariant 0 <= i <= width && pix' == pix + i
      invariant forall ii :: 0 <= ii < i ==> dst[pix + ii] == Thresholded(src[j, ii], old(dst[pix + ii]))
      invariant forall k :: 0 <= k < dst.Length && !(pix <= k < pix') ==> dst[k] == old(dst[k])
    {
      if src[j, i] < -20 {
        dst[pix'] := RedMark;
      } else if src[j, i] > 20 {
        dst[pix'] := GreenMark;
      }
      i, pix' := i + 1, pix' + 1;
    }
  }
}
