/** The nearest-centroid choice of one assignment step (lib/KMeans.cpp:244-256): scan the
    centroids in order, keep the first strict minimum, stop after the first dissimilarity that is
    at most the tolerance. */
module Nearest {
  import opened KMeansTypes

  /** Dissimilarity of a point's vector to every centroid, in centroid order. */
  function Dissims(v: SparseVec, cs: seq<Centroid>, dis: Dissimilarity): (ds: seq<real>)
    ensures |ds| == |cs|
    ensures forall k :: 0 <= k < |cs| ==> ds[k] == dis(v, cs[k].vec, cs[k].l2norm) as real
  {
    seq(|cs|, k requires 0 <= k < |cs| => dis(v, cs[k].vec, cs[k].l2norm) as real)
  }

  /** Dissimilarities only depend on the centroids' vectors and norms, not on their members. */
  lemma DissimsIgnoreMembers(v: SparseVec, a: seq<Centroid>, b: seq<Centroid>, dis: Dissimilarity)
    requires |a| == |b|
    requires forall k :: 0 <= k < |a| ==> a[k].vec == b[k].vec && a[k].l2norm == b[k].l2norm
    ensures Dissims(v, a, dis) == Dissims(v, b, dis)
  {
  }

  /** How many centroids the scan looks at: all of them, or up to and including the first whose
      dissimilarity is at most `tol`. */
  function ScanLength(ds: seq<real>, tol: real): (n: nat)
    ensures n <= |ds|
    ensures |ds| > 0 ==> n > 0
    ensures forall j :: 0 <= j < n - 1 ==> ds[j] > tol
    ensures n == |ds| || ds[n - 1] <= tol
  {
    ScanFrom(ds, tol, 0)
  }

  /** How many centroids the scan has looked at when it ends, having started at position k. */
  function ScanFrom(ds: seq<real>, tol: real, k: nat): (n: nat)
    requires k <= |ds|
    ensures k <= n <= |ds|
    ensures k < |ds| ==> n > k
    ensures forall j :: k <= j < n - 1 ==> ds[j] > tol
    ensures n == |ds| || ds[n - 1] <= tol
    decreases |ds| - k
  {
    if k == |ds| then k
    else if ds[k] <= tol then k + 1
    else ScanFrom(ds, tol, k + 1)
  }

  /** `t` is what the scan picks: the first position attaining the minimum of the scanned prefix. */
  ghost predicate IsNearest(ds: seq<real>, tol: real, t: int)
  {
    var n := ScanLength(ds, tol);
    0 <= t < n
    && (forall j :: 0 <= j < n ==> ds[t] <= ds[j])
    && (forall j :: 0 <= j < t ==> ds[t] < ds[j])
  }

  /** The choice is deterministic: at most one position satisfies IsNearest. */
  lemma NearestIsUnique(ds: seq<real>, tol: real, t1: int, t2: int)
    requires IsNearest(ds, tol, t1) && IsNearest(ds, tol, t2)
    ensures t1 == t2
  {
  }

  /** First position of the minimum of ds[..n]. */
  function FirstMinimum(ds: seq<real>, n: nat): (t: nat)
    requires 0 < n <= |ds|
    ensures t < n
    ensures forall j :: 0 <= j < n ==> ds[t] <= ds[j]
    ensures forall j :: 0 <= j < t ==> ds[t] < ds[j]
  {
    if n == 1 then 0
    else
      var t := FirstMinimum(ds, n - 1);
      if ds[n - 1] < ds[t] then n - 1 else t
  }

  /** Every non-empty centroid list has a nearest centroid. */
  lemma NearestExists(ds: seq<real>, tol: real)
    requires |ds| > 0
    ensures exists t :: IsNearest(ds, tol, t)
  {
    var t := FirstMinimum(ds, ScanLength(ds, tol));
    assert IsNearest(ds, tol, t);
  }

  /** When the scan stops early, the picked dissimilarity is itself within the tolerance. */
  lemma EarlyExitIsWithinTolerance(ds: seq<real>, tol: real, t: int)
    requires IsNearest(ds, tol, t)
    requires ScanLength(ds, tol) < |ds|
    ensures ds[t] <= tol
  {
  }

  /** The picked dissimilarity is never worse than any centroid's by more than max(tol, 0). */
  lemma NearestIsAlmostMinimal(ds: seq<real>, tol: real, t: int, j: int)
    requires IsNearest(ds, tol, t)
    requires 0 <= j < |ds| && tol >= 0.0
    requires forall k :: 0 <= k < |ds| ==> ds[k] >= 0.0
    ensures ds[t] <= ds[j] + tol
  {
    var n := ScanLength(ds, tol);
    if j >= n {
      assert ds[n - 1] <= tol;
    }
  }

  /** Scans the centroids in order for the point vector v (lib/KMeans.cpp:243-256): keeps the
      first strict minimum, starting from 3, and stops after the first dissimilarity within tol. */
  method NearestCentroid(cs: seq<Centroid>, v: SparseVec, dis: Dissimilarity, tol: real) returns (tar: int, minDissim: real)
    requires |cs| > 0
    ensures IsNearest(Dissims(v, cs, dis), tol, tar)
    ensures minDissim == Dissims(v, cs, dis)[tar]
  {
    ghost var ds := Dissims(v, cs, dis);
    minDissim := 3.0;
    tar := -1;
    var k := 0;
    while k < |cs|
      invariant 0 <= k <= |cs|
      invariant forall j :: 0 <= j < k ==> ds[j] > tol
      invariant k == 0 ==> minDissim == 3.0
      invariant k > 0 ==> 0 <= tar < k && minDissim == ds[tar]
      invariant k > 0 ==> (forall j :: 0 <= j < k ==> ds[tar] <= ds[j]) && (forall j :: 0 <= j < tar ==> ds[tar] < ds[j])
    {
      var dissim := dis(v, cs[k].vec, cs[k].l2norm) as real;
      if dissim < minDissim {
        minDissim := dissim;
        tar := k;
      }
      if dissim <= tol {
        assert ScanLength(ds, tol) == k + 1;
        return;
      }
      k := k + 1;
    }
    assert ScanLength(ds, tol) == |ds|;
  }
}
