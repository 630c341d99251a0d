/** Rasters as values, and the row-major layout that links a width × height raster to a
    flat buffer (the `pix` counters of DrawOnTop's loops). */
module Rasters {

  /** A Java `byte`: a signed 8-bit value. */
  type Byte = b: int | -128 <= b < 128

  /** `0xFF & b`: the byte read unsigned, the same eight bits. */
  function Unsigned(b: Byte): (u: int)
    ensures 0 <= u < 256
  {
    if b < 0 then b + 256 else b
  }

  /** g has h rows of w samples each. */
  predicate IsRaster<T>(g: seq<seq<T>>, h: int, w: int) {
    |g| == h && forall j :: 0 <= j < |g| ==> |g[j]| == w
  }

  /** g has at least `height` rows of at least `width` samples: a width × height window of
      g exists. */
  predicate Covers<T>(g: seq<seq<T>>, width: int, height: int) {
    height <= |g| && forall j :: 0 <= j < height ==> width <= |g[j]|
  }

  /** The value held by a 2D array, row by row. */
  ghost function Cells<T>(a: array2<T>): (g: seq<seq<T>>)
    reads a
    ensures IsRaster(g, a.Length0, a.Length1)
    ensures forall j, i :: 0 <= j < a.Length0 && 0 <= i < a.Length1 ==> g[j][i] == a[j, i]
  {
    seq(a.Length0, j requires 0 <= j < a.Length0 reads a =>
      seq(a.Length1, i requires 0 <= i < a.Length1 reads a => a[j, i]))
  }

  /** Two arrays of one shape that agree cell for cell hold the same raster. */
  lemma SameCells(a: array2<int>, b: array2<int>)
    requires a.Length0 == b.Length0 && a.Length1 == b.Length1
    requires forall j, i :: 0 <= j < a.Length0 && 0 <= i < a.Length1 ==> a[j, i] == b[j, i]
    ensures Cells(a) == Cells(b)
  {
    forall j | 0 <= j < a.Length0
      ensures Cells(a)[j] == Cells(b)[j]
    {
    }
  }

  /** Offset of cell (j, i), row j and column i, in a flat buffer of rows of `width` samples. */
  function RowMajor(width: int, j: int, i: int): int {
    j * width + i
  }

  /** q * w grows with q. */
  lemma {:induction false} MulMonotone(q: int, q': int, w: nat)
    requires q <= q'
    ensures q * w <= q' * w
  {
    var d := q' - q;
    assert q' * w == q * w + d * w;
  }

  /** Division by a positive width is determined by quotient and in-range remainder. */
  lemma {:induction false} DivModUnique(k: int, w: int, q: int, r: int)
    requires w > 0 && 0 <= r < w && k == q * w + r
    ensures k / w == q && k % w == r
  {
    var q0, r0 := k / w, k % w;
    assert k == q0 * w + r0;
    assert (q - q0) * w == r0 - r;
    if q > q0 {
      MulMonotone(1, q - q0, w);
    } else if q < q0 {
      MulMonotone(1, q0 - q, w);
    }
  }

  /** Every cell of a width × height window has an offset inside the buffer prefix of
      width * height samples, and the offset gives the cell back. */
  lemma {:induction false} RowMajorInRange(width: nat, height: nat, j: int, i: int)
    requires 0 <= j < height && 0 <= i < width
    ensures 0 <= RowMajor(width, j, i) < width * height
    ensures RowMajor(width, j, i) / width == j && RowMajor(width, j, i) % width == i
  {
    MulMonotone(0, j, width);
    MulMonotone(j, height - 1, width);
    DivModUnique(RowMajor(width, j, i), width, j, i);
  }

  /** Every offset below width * height is the offset of exactly the cell (k / width, k % width). */
  lemma {:induction false} RowMajorInverse(width: nat, height: nat, k: int)
    requires 0 <= k < width * height
    ensures 0 <= k / width < height && 0 <= k % width < width
    ensures RowMajor(width, k / width, k % width) == k
  {
    if k / width >= height {
      MulMonotone(height, k / width, width);
      assert false;
    }
  }

  /** The next row starts one row length further on. */
  lemma NextRow(width: int, j: int)
    ensures RowMajor(width, j + 1, 0) == RowMajor(width, j, 0) + width
  {
    assert (j + 1) * width == j * width + width;
  }

  /** The offset j * width where row j starts, as a running sum of row widths (the way the
      source's running pointers reach it). */
  function RowStart(width: nat, j: nat): nat {
    if j == 0 then 0 else RowStart(width, j - 1) + width
  }

  lemma {:induction false} RowStartIsRowMajor(width: nat, j: nat)
    ensures RowStart(width, j) == RowMajor(width, j, 0)
  {
    if j > 0 {
      RowStartIsRowMajor(width, j - 1);
      NextRow(width, j - 1);
    }
  }

  /** Rows before row j end where row j starts. */
  lemma {:induction false} RowStartBelow(width: nat, jj: nat, j: nat)
    requires jj < j
    ensures RowStart(width, jj) + width <= RowStart(width, j)
  {
    if jj < j - 1 {
      RowStartBelow(width, jj, j - 1);
    }
  }
}
