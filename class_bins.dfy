/** Classification of a continuous class value (an age or a size) into one of
    the bins delimited by an ordered sequence of thresholds.

    Bin k is the closed-open interval [c[k], c[k+1]); the last bin is open
    upwards; values below the first threshold fall in no bin at all. */
module ClassBins {

  /** v lies in the closed-open interval between thresholds k and k + 1. */
  predicate InBin(c: seq<real>, k: int, v: real)
  {
    0 <= k < |c| - 1 && c[k] <= v < c[k + 1]
  }

  /** v lies in bin k, counting the last bin as open-ended upwards. */
  predicate Contains(c: seq<real>, k: int, v: real)
  {
    0 <= k < |c| && c[k] <= v && (k == |c| - 1 || v < c[k + 1])
  }

  /** Each threshold is at least the one before it. */
  predicate NonDecreasing(c: seq<real>)
  {
    forall i :: 0 <= i < |c| - 1 ==> c[i] <= c[i + 1]
  }

  /** The scan of classOf from index k on: the first interval that holds v,
      or the last index when none does. */
  function ScanFrom(c: seq<real>, v: real, k: nat): (r: nat)
    requires k < |c|
    ensures k <= r < |c|
    ensures r < |c| - 1 ==> InBin(c, r, v)
    ensures forall j :: k <= j < r ==> !InBin(c, j, v)
    ensures c[k] <= v ==> forall j :: k <= j <= r ==> c[j] <= v
    decreases |c| - k
  {
    if k == |c| - 1 then k
    else if c[k] <= v && v < c[k + 1] then k
    else ScanFrom(c, v, k + 1)
  }

  /** The bin index classOf returns for v: -1 below the first threshold,
      otherwise the first k with c[k] <= v < c[k+1], otherwise the last index. */
  function BinOf(c: seq<real>, v: real): (r: int)
    requires |c| >= 1
    ensures r == -1 <==> v < c[0]
    ensures r != -1 ==> 0 <= r < |c| && c[r] <= v
    ensures 0 <= r < |c| - 1 ==> InBin(c, r, v)
    ensures forall j :: 0 <= j < r ==> !InBin(c, j, v)
    ensures r == |c| - 1 ==> forall j :: 0 <= j < |c| ==> c[j] <= v
  {
    if v < c[0] then -1 else ScanFrom(c, v, 0)
  }

  /** Over non-decreasing thresholds, every threshold at or after i is at least c[i]. */
  lemma {:induction false} NonDecreasingSpan(c: seq<real>, i: int, j: int)
    requires NonDecreasing(c) && 0 <= i <= j < |c|
    ensures c[i] <= c[j]
    decreases j - i
  {
    if i < j {
      NonDecreasingSpan(c, i, j - 1);
    }
  }

  /** At or above the first threshold, the bin found always contains v; when the
      thresholds are non-decreasing it is the only bin that does. */
  lemma BinOfUnique(c: seq<real>, v: real, k: int)
    requires |c| >= 1 && c[0] <= v
    ensures Contains(c, BinOf(c, v), v)
    ensures NonDecreasing(c) && Contains(c, k, v) ==> k == BinOf(c, v)
  {
    var r := BinOf(c, v);
    if NonDecreasing(c) && Contains(c, k, v) && k > r {
      NonDecreasingSpan(c, r + 1, k);
    }
  }

  /** The boundary cases for the thresholds [2, 5, 9]. */
  lemma BoundaryExamples()
    ensures BinOf([2.0, 5.0, 9.0], 1.0) == -1
    ensures BinOf([2.0, 5.0, 9.0], 2.0) == 0
    ensures BinOf([2.0, 5.0, 9.0], 4.999) == 0
    ensures BinOf([2.0, 5.0, 9.0], 5.0) == 1
    ensures BinOf([2.0, 5.0, 9.0], 8.999) == 1
    ensures BinOf([2.0, 5.0, 9.0], 9.0) == 2
    ensures BinOf([2.0, 5.0, 9.0], 100.0) == 2
  {
  }
}
