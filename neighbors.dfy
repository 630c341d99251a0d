/** getNeighborAverage up to its final division: which of the four neighbours of cell (j, i)
    exist in a width × height raster, how many there are, and the sum of their values. The
    raster is a Java `float[][]`; its values are modelled as reals. */
module Neighbors {
  import opened Rasters

  /** A cell position as (row, column). */
  type Cell = (int, int)

  predicate InGrid(width: int, height: int, p: Cell) {
    0 <= p.0 < height && 0 <= p.1 < width
  }

  /** |dj| + |di|: the number of unit steps from p to q. */
  function Steps(p: Cell, q: Cell): nat {
    (if p.0 < q.0 then q.0 - p.0 else p.0 - q.0) + (if p.1 < q.1 then q.1 - p.1 else p.1 - q.1)
  }

  /** [p] when p lies inside the width × height raster, [] otherwise. */
  function IfInside(width: int, height: int, p: Cell): seq<Cell> {
    if InGrid(width, height, p) then [p] else []
  }

  /** The neighbours the method visits, in its order: left, up, right, down, each only when
      it lies inside the raster. */
  function Neighbours(i: int, j: int, width: int, height: int): seq<Cell> {
    IfInside(width, height, (j, i - 1)) + IfInside(width, height, (j - 1, i)) +
    IfInside(width, height, (j, i + 1)) + IfInside(width, height, (j + 1, i))
  }

  /** Every position of ps is a cell of g. */
  predicate AllIn<T>(g: seq<seq<T>>, ps: seq<Cell>) {
    forall k :: 0 <= k < |ps| ==> 0 <= ps[k].0 < |g| && 0 <= ps[k].1 < |g[ps[k].0]|
  }

  /** The exact sum of the values of g at the positions ps. */
  function SumAt(g: seq<seq<real>>, ps: seq<Cell>): real
    requires AllIn(g, ps)
  {
    if |ps| == 0 then 0.0 else g[ps[0].0][ps[0].1] + SumAt(g, ps[1..])
  }

  lemma {:induction false} SumAtAppend(g: seq<seq<real>>, ps: seq<Cell>, qs: seq<Cell>)
    requires AllIn(g, ps) && AllIn(g, qs)
    ensures AllIn(g, ps + qs) && SumAt(g, ps + qs) == SumAt(g, ps) + SumAt(g, qs)
  {
    if |ps| > 0 {
      assert (ps + qs)[1..] == ps[1..] + qs;
      SumAtAppend(g, ps[1..], qs);
    } else {
      assert ps + qs == qs;
    }
  }

  /** Java's narrowing of a float to an int, as `neighborSum += x` performs it on the
      float total: rounding toward zero. */
  function TruncToInt(x: real): (n: int)
    ensures 0.0 <= x ==> n as real <= x < n as real + 1.0
    ensures x < 0.0 ==> n as real - 1.0 < x <= n as real
  {
    if x < 0.0 then -((-x).Floor) else x.Floor
  }

  /** The source's accumulation into its int counter: starting from acc, each value at ps
      is added and the float total narrowed back to an int. */
  function TruncatedSumAt(g: seq<seq<real>>, ps: seq<Cell>, acc: int): int
    requires AllIn(g, ps)
  {
    if |ps| == 0 then acc else TruncatedSumAt(g, ps[1..], TruncToInt(acc as real + g[ps[0].0][ps[0].1]))
  }

  /** One guarded step of the source: the counter takes in the value at p only when p is
      inside the raster. */
  function Step(g: seq<seq<real>>, width: int, height: int, p: Cell, acc: int): int
    requires Covers(g, width, height)
  {
    if InGrid(width, height, p) then TruncToInt(acc as real + g[p.0][p.1]) else acc
  }

  /** Accumulating over the guarded singleton is that step. */
  lemma TruncatedIfInside(g: seq<seq<real>>, width: int, height: int, p: Cell, acc: int)
    requires Covers(g, width, height)
    ensures AllIn(g, IfInside(width, height, p))
    ensures TruncatedSumAt(g, IfInside(width, height, p), acc) == Step(g, width, height, p, acc)
  {
    if InGrid(width, height, p) {
      assert [p][1..] == [];
    }
  }

  /** The source's four guarded steps, left, up, right, down, accumulate over Neighbours. */
  lemma TruncatedNeighbours(g: seq<seq<real>>, i: int, j: int, width: int, height: int)
    requires Covers(g, width, height)
    ensures AllIn(g, Neighbours(i, j, width, height))
    ensures TruncatedSumAt(g, Neighbours(i, j, width, height), 0) ==
      var s1 := Step(g, width, height, (j, i - 1), 0);
      var s2 := Step(g, width, height, (j - 1, i), s1);
      var s3 := Step(g, width, height, (j, i + 1), s2);
      Step(g, width, height, (j + 1, i), s3)
  {
    var l, u := IfInside(width, height, (j, i - 1)), IfInside(width, height, (j - 1, i));
    var r, d := IfInside(width, height, (j, i + 1)), IfInside(width, height, (j + 1, i));
    var s1 := Step(g, width, height, (j, i - 1), 0);
    var s2 := Step(g, width, height, (j - 1, i), s1);
    var s3 := Step(g, width, height, (j, i + 1), s2);
    TruncatedIfInside(g, width, height, (j, i - 1), 0);
    TruncatedIfInside(g, width, height, (j - 1, i), s1);
    TruncatedIfInside(g, width, height, (j, i + 1), s2);
    TruncatedIfInside(g, width, height, (j + 1, i), s3);
    TruncatedSumAtAppend(g, l, u, 0);
    TruncatedSumAtAppend(g, l + u, r, 0);
    TruncatedSumAtAppend(g, l + u + r, d, 0);
  }

  /** Accumulating over ps and then qs is accumulating over ps + qs. */
  lemma {:induction false} TruncatedSumAtAppend(g: seq<seq<real>>, ps: seq<Cell>, qs: seq<Cell>, acc: int)
    requires AllIn(g, ps) && AllIn(g, qs)
    ensures AllIn(g, ps + qs)
    ensures TruncatedSumAt(g, ps + qs, acc) == TruncatedSumAt(g, qs, TruncatedSumAt(g, ps, acc))
  {
    if |ps| > 0 {
      assert (ps + qs)[1..] == ps[1..] + qs;
      TruncatedSumAtAppend(g, ps[1..], qs, TruncToInt(acc as real + g[ps[0].0][ps[0].1]));
    } else {
      assert ps + qs == qs;
    }
  }

  /** The neighbours visited are exactly the in-raster cells one step away from (j, i). */
  lemma NeighboursAreAdjacentCells(i: int, j: int, width: int, height: int)
    requires 0 <= i < width && 0 <= j < height
    ensures forall p :: p in Neighbours(i, j, width, height) <==> InGrid(width, height, p) && Steps((j, i), p) == 1
  {
    forall p | InGrid(width, height, p) && Steps((j, i), p) == 1
      ensures p in Neighbours(i, j, width, height)
    {
      if p.0 == j {
        assert p == (j, i - 1) || p == (j, i + 1);
      } else {
        assert p == (j - 1, i) || p == (j + 1, i);
      }
    }
  }

  /** The count's cases in a raster of at least 2 × 2: two neighbours at a corner, three on
      the rest of the border, four inside; never zero, so the division is defined. */
  lemma NeighbourCount(i: int, j: int, width: int, height: int)
    requires 0 <= i < width && 0 <= j < height && 2 <= width && 2 <= height
    ensures (i == 0 || i == width - 1) && (j == 0 || j == height - 1) ==> |Neighbours(i, j, width, height)| == 2
    ensures (i == 0 || i == width - 1) != (j == 0 || j == height - 1) ==> |Neighbours(i, j, width, height)| == 3
    ensures 0 < i < width - 1 && 0 < j < height - 1 ==> |Neighbours(i, j, width, height)| == 4
    ensures |Neighbours(i, j, width, height)| > 0
  {
  }

  /** Of all raster shapes, only the single cell has no neighbours at all. */
  lemma NoNeighboursOnlyInSingleCell(i: int, j: int, width: int, height: int)
    requires 0 <= i < width && 0 <= j < height
    ensures |Neighbours(i, j, width, height)| == 0 <==> width == 1 && height == 1
  {
  }

  /** Value of g at p, or 0 outside the width × height raster. */
  function Padded(g: seq<seq<real>>, width: int, height: int, p: Cell): real
    requires Covers(g, width, height)
  {
    if InGrid(width, height, p) then g[p.0][p.1] else 0.0
  }

  /** Summing over the cell when it is inside is reading the zero-padded raster there. */
  lemma SumIfInside(g: seq<seq<real>>, width: int, height: int, p: Cell)
    requires Covers(g, width, height)
    ensures AllIn(g, IfInside(width, height, p))
    ensures SumAt(g, IfInside(width, height, p)) == Padded(g, width, height, p)
  {
    if InGrid(width, height, p) {
      assert SumAt(g, [p]) == g[p.0][p.1] + SumAt(g, []);
    }
  }

  /** The exact neighbour sum is the sum of the four neighbours of a zero-padded raster. */
  lemma SumIsZeroPadded(g: seq<seq<real>>, i: int, j: int, width: int, height: int)
    requires Covers(g, width, height)
    ensures AllIn(g, Neighbours(i, j, width, height))
    ensures SumAt(g, Neighbours(i, j, width, height)) ==
      Padded(g, width, height, (j, i - 1)) + Padded(g, width, height, (j - 1, i)) +
      Padded(g, width, height, (j, i + 1)) + Padded(g, width, height, (j + 1, i))
  {
    var l, u := IfInside(width, height, (j, i - 1)), IfInside(width, height, (j - 1, i));
    var r, d := IfInside(width, height, (j, i + 1)), IfInside(width, height, (j + 1, i));
    SumIfInside(g, width, height, (j, i - 1));
    SumIfInside(g, width, height, (j - 1, i));
    SumIfInside(g, width, height, (j, i + 1));
    SumIfInside(g, width, height, (j + 1, i));
    SumAtAppend(g, l, u);
    SumAtAppend(g, l + u, r);
    SumAtAppend(g, l + u + r, d);
  }

  /** Over a raster holding c everywhere the exact sum is c times the count, so the average
      is c. */
  lemma {:induction false} UniformSum(g: seq<seq<real>>, ps: seq<Cell>, c: real)
    requires AllIn(g, ps)
    requires forall k :: 0 <= k < |ps| ==> g[ps[k].0][ps[k].1] == c
    ensures SumAt(g, ps) == c * |ps| as real
  {
    if |ps| > 0 {
      UniformSum(g, ps[1..], c);
    }
  }

  /** The exact sum of values in [lo, hi] lies between lo and hi times the count: an
      average of neighbours lies within their range. */
  lemma {:induction false} SumWithinRange(g: seq<seq<real>>, ps: seq<Cell>, lo: real, hi: real)
    requires AllIn(g, ps)
    requires forall k :: 0 <= k < |ps| ==> lo <= g[ps[k].0][ps[k].1] <= hi
    ensures lo * |ps| as real <= SumAt(g, ps) <= hi * |ps| as real
  {
    if |ps| > 0 {
      var n, x := |ps[1..]| as real, g[ps[0].0][ps[0].1];
      SumWithinRange(g, ps[1..], lo, hi);
      assert lo <= x <= hi;
      assert |ps| as real == n + 1.0;
      assert lo * (n + 1.0) == lo * n + lo && hi * (n + 1.0) == hi * n + hi;
    }
  }

  /** On integer-valued cells the narrowing loses nothing: the int accumulation is the
      exact sum. */
  lemma {:induction false} IntegralValuesSumExactly(g: seq<seq<real>>, ps: seq<Cell>, acc: int)
    requires AllIn(g, ps)
    requires forall k :: 0 <= k < |ps| ==> g[ps[k].0][ps[k].1] == g[ps[k].0][ps[k].1].Floor as real
    ensures TruncatedSumAt(g, ps, acc) as real == acc as real + SumAt(g, ps)
  {
    if |ps| > 0 {
      var x := g[ps[0].0][ps[0].1];
      assert TruncToInt(acc as real + x) == acc + x.Floor;
      IntegralValuesSumExactly(g, ps[1..], acc + x.Floor);
    }
  }

  /** Values of magnitude below one never move the int counter off zero: whatever such
      values the neighbours hold, the source's sum is 0. */
  lemma {:induction false} SubUnitValuesSumToZero(g: seq<seq<real>>, ps: seq<Cell>)
    requires AllIn(g, ps)
    requires forall k :: 0 <= k < |ps| ==> -1.0 < g[ps[k].0][ps[k].1] < 1.0
    ensures TruncatedSumAt(g, ps, 0) == 0
  {
    if |ps| > 0 {
      assert TruncToInt(0 as real + g[ps[0].0][ps[0].1]) == 0;
      SubUnitValuesSumToZero(g, ps[1..]);
    }
  }

  /** In the 1 × 2 raster [0.0, 0.5], cell (0, 0) has the single neighbour 0.5: the
      source's sum is 0, below the neighbour's value, where the exact sum is 0.5. */
  lemma TruncationLeavesNeighbourRange()
    ensures Neighbours(0, 0, 2, 1) == [(0, 1)]
    ensures AllIn([[0.0, 0.5]], Neighbours(0, 0, 2, 1))
    ensures TruncatedSumAt([[0.0, 0.5]], Neighbours(0, 0, 2, 1), 0) == 0
    ensures SumAt([[0.0, 0.5]], Neighbours(0, 0, 2, 1)) == 0.5
  {
    var g, ps := [[0.0, 0.5]], Neighbours(0, 0, 2, 1);
    assert ps == [(0, 1)];
    assert ps[1..] == [];
  }

  /** getNeighborAverage as written, without its final division: the number of neighbours
      of cell (j, i) inside the width × height raster stored in `a`, and the int counter
      into which each neighbour's float value is added and narrowed. */
  method NeighborSumAndCount(a: array2<real>, i: int, j: int, width: int, height: int) returns (count: int, sum: int)
    requires 0 <= i < width <= a.Length1 && 0 <= j < height <= a.Length0
    ensures count == |Neighbours(i, j, width, height)|
    ensures AllIn(Cells(a), Neighbours(i, j, width, height))
    ensures sum == TruncatedSumAt(Cells(a), Neighbours(i, j, width, height), 0)
  {
    ghost var g := Cells(a);
    count, sum := 0, 0;
    if i > 0 {
      count := count + 1;
      sum := TruncToInt(sum as real + a[j, i - 1]);
    }
    assert sum == Step(g, width, height, (j, i - 1), 0);
    ghost var s1 := sum;
    if j > 0 {
      count := count + 1;
      sum := TruncToInt(sum as real + a[j - 1, i]);
    }
    assert sum == Step(g, width, height, (j - 1, i), s1);
    ghost var s2 := sum;
    if i < width - 1 {
      count := count + 1;
      sum := TruncToInt(sum as real + a[j, i + 1]);
    }
    assert sum == Step(g, width, height, (j, i + 1), s2);
    ghost var s3 := sum;
    if j < height - 1 {
      count := count + 1;
      sum := TruncToInt(sum as real + a[j + 1, i]);
    }
    assert sum == Step(g, width, height, (j + 1, i), s3);
    TruncatedNeighbours(g, i, j, width, height);
  }

  /** Corrected getNeighborAverage, without its final division: the sum is accumulated as a
      float, so it is the exact sum of the neighbours' values. */
  method NeighborSumAndCountExact(a: array2<real>, i: int, j: int, width: int, height: int) returns (count: int, sum: real)
    requires 0 <= i < width <= a.Length1 && 0 <= j < height <= a.Length0
    ensures count == |Neighbours(i, j, width, height)|
    ensures AllIn(Cells(a), Neighbours(i, j, width, height))
    ensures sum == SumAt(Cells(a), Neighbours(i, j, width, height))
  {
    ghost var g := Cells(a);
    ghost var left, up, right, down := (j, i - 1), (j - 1, i), (j, i + 1), (j + 1, i);
    count, sum := 0, 0.0;
    if i > 0 {
      count := count + 1;
      sum := sum + a[j, i - 1];
    }
    assert count == |IfInside(width, height, left)| && sum == Padded(g, width, height, left);
    if j > 0 {
      count := count + 1;
      sum := sum + a[j - 1, i];
    }
    assert count == |IfInside(width, height, left)| + |IfInside(width, height, up)|;
    assert sum == Padded(g, width, height, left) + Padded(g, width, height, up);
    if i < width - 1 {
      count := count + 1;
      sum := sum + a[j, i + 1];
    }
    assert count == |IfInside(width, height, left)| + |IfInside(width, height, up)| + |IfInside(width, height, right)|;
    assert sum == Padded(g, width, height, left) + Padded(g, width, height, up) + Padded(g, width, height, right);
    if j < height - 1 {
      count := count + 1;
      sum := sum + a[j + 1, i];
    }
    SumIsZeroPadded(g, i, j, width, height);
  }
}
