/** The records the K-means engine keeps (lib/KMeans.hpp). Numeric vector contents are not
    modelled: a vector is named by what it was built from. */
module KMeansTypes {

  /** Cosine dissimilarity lies in [0, 2], below the scan's starting value 3. */
  type Dissim = r: real | 0.0 <= r <= 2.0

  /** A raw point as ingested (KMeans::Point). */
  datatype Point = Point(id: int, attribute: seq<int>, value: seq<real>)

  /** The L2-normalised sparse vector of length `size` built from a raw point's attribute and
      value lists. */
  datatype SparseVec = Normalized(size: int, attribute: seq<int>, value: seq<real>)

  /** A centroid's dense vector: a copy of one point's vector, or the arithmetic mean of the
      vectors of its members. */
  datatype CentroidVec = CopyOf(source: SparseVec) | MeanOf(members: seq<SparseVec>)

  /** A centroid's cached l2norm: fixed at 1, or the Euclidean norm of the mean of its members. */
  datatype Norm = UnitNorm | NormOfMean(members: seq<SparseVec>)

  /** The `centroid` value of a point that no pass has assigned yet. */
  const Unassigned: int := -1

  /** A vectorised point (KMeans::_S_Point); `centroid` is the id of its cluster. */
  datatype SPoint = SPoint(id: int, vec: SparseVec, centroid: int)

  /** A centroid together with its cluster (KMeans::_Centroid); `pts` lists members as indices
      into the vectorised point list, front first. */
  datatype Centroid = Centroid(id: int, pts: seq<nat>, vec: CentroidVec, l2norm: Norm)

  /** One entry of the iteration history: the count returned by the pass and the objective
      value (the elapsed time is not modelled). */
  datatype IterationInfo = IterationInfo(updatedCentroids: int, objValue: real)

  /** Cosine dissimilarity between a point's vector and a centroid's vector and norm. */
  type Dissimilarity = (SparseVec, CentroidVec, Norm) -> Dissim

  function Min(a: int, b: int): int { if a <= b then a else b }

  function Max(a: int, b: int): int { if a >= b then a else b }

  /** The largest element, as std::max_element finds it. */
  function MaxElement(s: seq<int>): (m: int)
    requires |s| > 0
    ensures m in s
    ensures forall x :: x in s ==> x <= m
  {
    if |s| == 1 then s[0]
    else
      var rest := MaxElement(s[1..]);
      assert forall x :: x in s ==> x == s[0] || x in s[1..];
      if s[0] >= rest then s[0] else rest
  }

  /** The `centroid` fields of a point list, in order. */
  function Fields(sp: seq<SPoint>): (f: seq<int>)
    ensures |f| == |sp| && forall i :: 0 <= i < |sp| ==> f[i] == sp[i].centroid
  {
    seq(|sp|, i requires 0 <= i < |sp| => sp[i].centroid)
  }

  /** Some element of a non-empty set (the source walks its sets and maps in an order the model
      does not fix). */
  method PickOne(s: set<int>) returns (x: int)
    requires s != {}
    ensures x in s
  {
    // Only there to give the `:|` below a witness: a non-empty set has an element.
    if forall y :: y !in s {
      assert false;
    }
    x :| x in s;
  }

  /** A non-empty set of ids has a least element, where std::set iteration starts. */
  lemma {:induction false} SetMinimum(s: set<int>) returns (m: int)
    requires s != {}
    ensures m in s && forall x :: x in s ==> m <= x
    decreases |s|
  {
    // Only there to give the `:|` below a witness: a non-empty set has an element.
    if forall y :: y !in s {
      assert false;
    }
    var y :| y in s;
    if s == {y} {
      m := y;
    } else {
      var m' := SetMinimum(s - {y});
      m := if y < m' then y else m';
      forall x | x in s ensures m <= x {
        if x != y {
          assert x in s - {y};
        }
      }
    }
  }

  /** The vectors of a point list, in order; the passes change fields, never these. */
  function VecsOf(sp: seq<SPoint>): (vs: seq<SparseVec>)
    ensures |vs| == |sp| && forall i :: 0 <= i < |sp| ==> vs[i] == sp[i].vec
  {
    seq(|sp|, i requires 0 <= i < |sp| => sp[i].vec)
  }

  /** The vectors of a member list. */
  function MemberVecs(sp: seq<SPoint>, list: seq<nat>): (vs: seq<SparseVec>)
    requires forall j :: 0 <= j < |list| ==> list[j] < |sp|
    ensures |vs| == |list| && forall j :: 0 <= j < |list| ==> vs[j] == sp[list[j]].vec
  {
    seq(|list|, j requires 0 <= j < |list| => sp[list[j]].vec)
  }

  /** Strictly decreasing, hence without repeats. */
  ghost predicate Descending(s: seq<int>)
  {
    forall a, b :: 0 <= a < b < |s| ==> s[a] > s[b]
  }
}
