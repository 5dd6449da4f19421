/** The nearest-palette-entry searches: findNearestOnLookup over RGBA
    entries by squared distance, and the per-pixel alpha search of the DXT5
    compressor by absolute difference. Both scan left to right and replace
    the best entry only on a strictly smaller distance, so the lowest index
    wins ties. */
module Nearest {
  import opened Bytes

  /** What a left-to-right scan keeps, starting from entry k with `best`
      holding distance `bestD`: an entry replaces the kept one only when its
      distance is strictly smaller. The result is either the starting `best`
      (no later entry beats bestD) or the first entry of least distance
      from k on, which beats bestD. */
  function ScanNearest(d: seq<int>, k: nat, best: nat, bestD: int): (r: nat)
    requires k <= |d|
    ensures || (r == best && forall j :: k <= j < |d| ==> bestD <= d[j])
            || (&& k <= r < |d| && d[r] < bestD
                && (forall j :: k <= j < |d| ==> d[r] <= d[j])
                && (forall j :: k <= j < r ==> d[r] < d[j]))
    decreases |d| - k
  {
    if k == |d| then best
    else if d[k] < bestD then ScanNearest(d, k + 1, k, d[k])
    else ScanNearest(d, k + 1, best, bestD)
  }

  /** A scan started with a bound no distance exceeds returns the first entry
      of least distance. */
  lemma ScanFindsFirstMinimum(d: seq<int>, bound: int)
    requires |d| > 0 && forall j :: 0 <= j < |d| ==> d[j] <= bound
    ensures var r := ScanNearest(d, 0, 0, bound);
      && r < |d|
      && (forall j :: 0 <= j < |d| ==> d[r] <= d[j])
      && (forall j :: 0 <= j < r ==> d[r] < d[j])
  {
  }

  /** The squared RGBA distance between `color` and entry k of `lookup`, as
      DXTUtils.js sums it (red, blue, green, alpha). */
  function SquaredDistance(color: seq<u8>, lookup: seq<u8>, k: nat): (dist: nat)
    requires |color| == 4 && 4 * k + 4 <= |lookup|
    ensures dist < Infinity
  {
    var dr: int := color[0] as int - lookup[4 * k];
    var dg: int := color[1] as int - lookup[4 * k + 1];
    var db: int := color[2] as int - lookup[4 * k + 2];
    var da: int := color[3] as int - lookup[4 * k + 3];
    assert dr * dr <= 255 * 255 && dg * dg <= 255 * 255 by {
      Square255(dr); Square255(dg);
    }
    assert db * db <= 255 * 255 && da * da <= 255 * 255 by {
      Square255(db); Square255(da);
    }
    dr * dr + db * db + dg * dg + da * da
  }

  lemma Square255(x: int)
    requires -255 <= x <= 255
    ensures 0 <= x * x <= 255 * 255
  {
    var y := if x < 0 then -x else x;
    assert x * x == y * y;
    MulMono(y, 255, y);
  }

  /** Stands for the search's initial `minDistance = Infinity`: it exceeds
      every squared distance between two RGBA byte quadruples. */
  const Infinity: int := 4 * 255 * 255 + 1

  /** The distance of `color` to every whole entry of `lookup`. */
  function ColorDistances(color: seq<u8>, lookup: seq<u8>): (d: seq<int>)
    requires |color| == 4
    ensures |d| == |lookup| / 4
  {
    seq(|lookup| / 4, k requires 0 <= k < |lookup| / 4 => SquaredDistance(color, lookup, k))
  }

  /** The index findNearestOnLookup returns: the first entry of least squared
      distance to `color`, or 0 when the lookup is empty. */
  function NearestColor(color: seq<u8>, lookup: seq<u8>): (r: nat)
    requires |color| == 4
    ensures |lookup| < 4 ==> r == 0
    ensures |lookup| >= 4 ==>
      && r < |lookup| / 4
      && (forall k :: 0 <= k < |lookup| / 4 ==>
            SquaredDistance(color, lookup, r) <= SquaredDistance(color, lookup, k))
      && (forall k :: 0 <= k < r ==>
            SquaredDistance(color, lookup, r) < SquaredDistance(color, lookup, k))
  {
    var d := ColorDistances(color, lookup);
    if |lookup| >= 4 then
      ScanFindsFirstMinimum(d, Infinity);
      assert forall k :: 0 <= k < |lookup| / 4 ==> d[k] == SquaredDistance(color, lookup, k);
      ScanNearest(d, 0, 0, Infinity)
    else
      ScanNearest(d, 0, 0, Infinity)
  }

  /** findNearestOnLookup. */
  method FindNearestOnLookup(color: seq<u8>, lookup: seq<u8>) returns (minIndex: nat)
    requires |color| == 4 && |lookup| % 4 == 0
    ensures minIndex == NearestColor(color, lookup)
  {
    ghost var d := ColorDistances(color, lookup);
    var minDistance := Infinity;
    minIndex := 0;
    var i := 0;
    ghost var k := 0;
    while i < |lookup|
      invariant 0 <= i <= |lookup| && i == 4 * k
      invariant ScanNearest(d, k, minIndex, minDistance) == ScanNearest(d, 0, 0, Infinity)
    {
      var deltaR := color[0] as int - lookup[i + 0];
      var deltaG := color[1] as int - lookup[i + 1];
      var deltaB := color[2] as int - lookup[i + 2];
      var deltaA := color[3] as int - lookup[i + 3];
      var distance := deltaR * deltaR + deltaB * deltaB + deltaG * deltaG + deltaA * deltaA;
      assert distance == d[k];
      if distance < minDistance {
        minDistance := distance;
        minIndex := i / 4;
      }
      i, k := i + 4, k + 1;
    }
  }

  function Abs(x: int): nat
  {
    if x < 0 then -x else x
  }

  /** The absolute alpha difference to every entry of an alpha palette. */
  function AlphaDistances(srcAlpha: u8, alphaLookup: seq<u8>): (d: seq<int>)
    ensures |d| == |alphaLookup|
  {
    seq(|alphaLookup|, j requires 0 <= j < |alphaLookup| => Abs(srcAlpha - alphaLookup[j]))
  }

  /** The index the DXT5 compressor picks for one alpha: its search starts
      from index 0 with distance 255, which no byte difference exceeds, so
      the result is the first entry of least absolute difference. */
  function NearestAlpha(srcAlpha: u8, alphaLookup: seq<u8>): (r: nat)
    requires |alphaLookup| > 0
    ensures r < |alphaLookup|
    ensures forall j :: 0 <= j < |alphaLookup| ==>
      Abs(srcAlpha - alphaLookup[r]) <= Abs(srcAlpha - alphaLookup[j])
    ensures forall j :: 0 <= j < r ==>
      Abs(srcAlpha - alphaLookup[r]) < Abs(srcAlpha - alphaLookup[j])
  {
    var d := AlphaDistances(srcAlpha, alphaLookup);
    ScanFindsFirstMinimum(d, 255);
    var r := ScanNearest(d, 0, 0, 255);
    assert forall j :: 0 <= j < |alphaLookup| ==> d[j] == Abs(srcAlpha - alphaLookup[j]);
    r
  }

  /** The inner search loop of compressBlockDXT5 for one source alpha. */
  method NearestAlphaIndex(srcAlpha: u8, alphaLookup: seq<u8>) returns (nearestIndex: nat)
    requires |alphaLookup| == 8
    ensures nearestIndex == NearestAlpha(srcAlpha, alphaLookup)
  {
    ghost var d := AlphaDistances(srcAlpha, alphaLookup);
    nearestIndex := 0;
    var nearestDistance := 255;
    for j := 0 to 8
      invariant ScanNearest(d, j, nearestIndex, nearestDistance) == ScanNearest(d, 0, 0, 255)
    {
      var delta := Abs(srcAlpha - alphaLookup[j]);
      if delta < nearestDistance {
        nearestDistance := delta;
        nearestIndex := j;
      }
    }
  }
}
