/** MainActivity.getPreviewSize: from the camera's supported sizes, given as (height, width)
    pairs, choose the one whose pixel count is nearest a requested count, and record it in
    the activity's mCameraHeight / mCameraWidth. */
module PreviewSize {

  /** A camera size as (height, width). */
  type Size = (int, int)

  /** |height * width - nPixels|: how far a size is from the requested pixel count. */
  function Distance(s: Size, nPixels: int): (d: nat)
    ensures d == 0 <==> s.0 * s.1 == nPixels
  {
    if s.0 * s.1 < nPixels then nPixels - s.0 * s.1 else s.0 * s.1 - nPixels
  }

  /** Index k is a first minimum: no entry is nearer than entry k, and every entry
      before it is strictly farther. */
  predicate FirstNearest(sizes: seq<Size>, nPixels: int, k: int) {
    0 <= k < |sizes| &&
    (forall m :: 0 <= m < |sizes| ==> Distance(sizes[k], nPixels) <= Distance(sizes[m], nPixels)) &&
    (forall m :: 0 <= m < k ==> Distance(sizes[k], nPixels) < Distance(sizes[m], nPixels))
  }

  /** The index of the size a left-to-right scan with a strict `<` ends on: the last entry
      replaces the best of the others only when it is strictly nearer. */
  function NearestFit(sizes: seq<Size>, nPixels: int): (k: nat)
    requires |sizes| > 0
    ensures FirstNearest(sizes, nPixels, k)
  {
    if |sizes| == 1 then 0
    else
      var k := NearestFit(sizes[..|sizes| - 1], nPixels);
      if Distance(sizes[|sizes| - 1], nPixels) < Distance(sizes[k], nPixels) then |sizes| - 1 else k
  }

  /** There is only one first minimum, so the choice is determined by the list. */
  lemma FirstNearestIsUnique(sizes: seq<Size>, nPixels: int, k: int, k': int)
    requires FirstNearest(sizes, nPixels, k) && FirstNearest(sizes, nPixels, k')
    ensures k == k'
  {
    var d, d' := Distance(sizes[k], nPixels), Distance(sizes[k'], nPixels);
    assert d <= d' <= d;
    assert k < k' ==> d' < d;
    assert k' < k ==> d < d';
  }

  /** A size with exactly the requested pixel count is chosen unless an earlier one also
      has it. */
  lemma ExactFitWins(sizes: seq<Size>, nPixels: int, k: int)
    requires 0 <= k < |sizes| && sizes[k].0 * sizes[k].1 == nPixels
    requires forall m :: 0 <= m < k ==> sizes[m].0 * sizes[m].1 != nPixels
    ensures NearestFit(sizes, nPixels) == k
  {
    var n := NearestFit(sizes, nPixels);
    assert Distance(sizes[n], nPixels) <= Distance(sizes[k], nPixels) == 0;
    FirstNearestIsUnique(sizes, nPixels, n, k);
  }

  /** One more entry: the scan keeps its choice unless the new entry is strictly nearer. */
  lemma NearestFitStep(sizes: seq<Size>, nPixels: int, n: int)
    requires 0 < n < |sizes|
    ensures NearestFit(sizes[..n + 1], nPixels) ==
      if Distance(sizes[n], nPixels) < Distance(sizes[NearestFit(sizes[..n], nPixels)], nPixels)
      then n else NearestFit(sizes[..n], nPixels)
  {
    assert sizes[..n + 1][..n] == sizes[..n];
  }

  /** The part of MainActivity that getPreviewSize writes. */
  class MainActivity {
    var cameraHeight: int
    var cameraWidth: int

    constructor (height: int, width: int)
      ensures cameraHeight == height && cameraWidth == width
    {
      cameraHeight, cameraWidth := height, width;
    }

    /** The selection loop, with the source's sentinel dMinPixels = -1 for "nothing chosen
        yet". An empty list leaves the recorded size as it was; otherwise the recorded size
        is the earliest entry nearest to nPixels. */
    method GetPreviewSize(sizes: seq<Size>, nPixels: int)
      modifies this
      ensures |sizes| == 0 ==> cameraHeight == old(cameraHeight) && cameraWidth == old(cameraWidth)
      ensures |sizes| > 0 ==> (cameraHeight, cameraWidth) == sizes[NearestFit(sizes, nPixels)]
      ensures |sizes| > 0 ==> FirstNearest(sizes, nPixels, NearestFit(sizes, nPixels))
    {
      var dMinPixels := -1;
      var n := 0;
      ghost var k := 0;
      while n < |sizes|
        invariant 0 <= n <= |sizes|
        invariant n == 0 ==> dMinPixels == -1 && cameraHeight == old(cameraHeight) && cameraWidth == old(cameraWidth)
        invariant n > 0 ==> k == NearestFit(sizes[..n], nPixels) && dMinPixels == Distance(sizes[k], nPixels)
        invariant n > 0 ==> (cameraHeight, cameraWidth) == sizes[k]
      {
        var (height, width) := sizes[n];
        var dPixels := height * width - nPixels;
        if dPixels < 0 {
          dPixels := -dPixels;
        }
        if n > 0 {
          NearestFitStep(sizes, nPixels, n);
        }
        if dMinPixels < 0 || dPixels < dMinPixels {
          cameraHeight, cameraWidth := height, width;
          dMinPixels := dPixels;
          k := n;
        }
        n := n + 1;
      }
      assert sizes[..n] == sizes;
    }
  }
}
