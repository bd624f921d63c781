/** The shape the member lists keep between passes (lib/KMeans.hpp:55, 60-67): centroid ids
    equal their positions, and the lists partition the vectorised points, each point listed by
    the cluster its `centroid` field names. */
module Membership {
  import opened KMeansTypes
  import opened Moves

  ghost predicate IdsArePositions(cs: seq<Centroid>)
  {
    forall k :: 0 <= k < |cs| ==> cs[k].id == k
  }

  /** Every member is a point whose field names the list holding it, no list repeats a point,
      and every point is in the list its field names. */
  ghost predicate Partitioned(sp: seq<SPoint>, cs: seq<Centroid>)
  {
    (forall k, j :: 0 <= k < |cs| && 0 <= j < |cs[k].pts| ==> cs[k].pts[j] < |sp| && sp[cs[k].pts[j]].centroid == k)
    && (forall k, a, b :: 0 <= k < |cs| && 0 <= a < b < |cs[k].pts| ==> cs[k].pts[a] != cs[k].pts[b])
    && (forall i :: 0 <= i < |sp| ==> 0 <= sp[i].centroid < |cs| && i in cs[sp[i].centroid].pts)
  }

  /** In a partition each point is listed by exactly one cluster, exactly once. */
  lemma ListedExactlyOnce(sp: seq<SPoint>, cs: seq<Centroid>, i: int, k: int)
    requires Partitioned(sp, cs)
    requires 0 <= i < |sp| && 0 <= k < |cs|
    ensures i in cs[k].pts <==> sp[i].centroid == k
    ensures sp[i].centroid == k ==> multiset(cs[k].pts)[i] == 1
  {
    if sp[i].centroid == k {
      DistinctCount(cs[k].pts, i);
    }
  }

  /** In a partition, no point's field names a cluster with an empty list. */
  lemma EmptyListUnnamed(sp: seq<SPoint>, cs: seq<Centroid>, k: int)
    requires Partitioned(sp, cs)
    requires 0 <= k < |cs| && cs[k].pts == []
    ensures forall i :: 0 <= i < |sp| ==> sp[i].centroid != k
  {
    forall i | 0 <= i < |sp|
      ensures sp[i].centroid != k
    {
      assert i in cs[sp[i].centroid].pts;
    }
  }

  /** A repetition-free list holds each of its elements once. */
  lemma {:induction false} DistinctCount(s: seq<nat>, x: nat)
    requires forall a, b :: 0 <= a < b < |s| ==> s[a] != s[b]
    requires x in s
    ensures multiset(s)[x] == 1
  {
    var n := |s| - 1;
    assert s == s[..n] + [s[n]];
    if s[n] == x {
      assert x !in s[..n];
    } else {
      DistinctCount(s[..n], x);
    }
  }

  /** The distinct entries of a list. */
  function Elems(s: seq<nat>): set<nat>
  {
    set x | x in s
  }

  /** A repetition-free list has as many distinct elements as entries. */
  lemma {:induction false} DistinctCard(s: seq<nat>)
    requires forall a, b :: 0 <= a < b < |s| ==> s[a] != s[b]
    ensures |Elems(s)| == |s|
  {
    if |s| > 0 {
      var n := |s| - 1;
      assert forall a, b :: 0 <= a < b < n ==> s[..n][a] != s[..n][b];
      DistinctCard(s[..n]);
      assert s == s[..n] + [s[n]];
      forall j | 0 <= j < n ensures s[..n][j] != s[n] {
        assert s[..n][j] == s[j];
      }
      assert s[n] !in Elems(s[..n]);
      assert Elems(s) == Elems(s[..n]) + {s[n]};
    } else {
      assert Elems(s) == {};
    }
  }

  /** Total number of members over all clusters. */
  function TotalMembers(cs: seq<Centroid>): nat
  {
    if |cs| == 0 then 0 else TotalMembers(cs[..|cs| - 1]) + |cs[|cs| - 1].pts|
  }

  /** The points whose field is below m. */
  ghost function FieldsBelow(sp: seq<SPoint>, m: int): set<int>
  {
    set i | 0 <= i < |sp| && sp[i].centroid < m
  }

  /** The points whose field is k. */
  ghost function FieldsAt(sp: seq<SPoint>, k: int): set<int>
  {
    set i | 0 <= i < |sp| && sp[i].centroid == k
  }

  /** The first m lists together hold exactly the points whose field is below m. */
  lemma {:induction false} MembersBelow(sp: seq<SPoint>, cs: seq<Centroid>, m: nat)
    requires Partitioned(sp, cs)
    requires m <= |cs|
    ensures TotalMembers(cs[..m]) == |FieldsBelow(sp, m)|
  {
    if m == 0 {
      assert FieldsBelow(sp, m) == {};
    } else {
      MembersBelow(sp, cs, m - 1);
      assert cs[..m][..m - 1] == cs[..m - 1];
      FieldsBelowSplit(sp, m - 1);
      ListSize(sp, cs, m - 1);
    }
  }

  /** The points below m + 1 are those below m and, apart from them, those at m. */
  lemma FieldsBelowSplit(sp: seq<SPoint>, m: int)
    ensures |FieldsBelow(sp, m + 1)| == |FieldsBelow(sp, m)| + |FieldsAt(sp, m)|
  {
    assert FieldsBelow(sp, m + 1) == FieldsBelow(sp, m) + FieldsAt(sp, m);
    assert FieldsBelow(sp, m) !! FieldsAt(sp, m);
  }

  /** In a partition list k holds as many entries as there are points whose field is k. */
  lemma ListSize(sp: seq<SPoint>, cs: seq<Centroid>, k: int)
    requires Partitioned(sp, cs) && 0 <= k < |cs|
    ensures |FieldsAt(sp, k)| == |cs[k].pts|
  {
    var list := cs[k].pts;
    forall i ensures i in FieldsAt(sp, k) <==> i in list {
      if 0 <= i < |sp| {
        ListedExactlyOnce(sp, cs, i, k);
      }
    }
    assert FieldsAt(sp, k) == Elems(list);
    DistinctCard(list);
  }

  /** When every field is below m, the points with a field below m are all the points. */
  lemma {:induction false} AllFieldsBelow(sp: seq<SPoint>, n: nat, m: int)
    requires n <= |sp|
    requires forall i :: 0 <= i < |sp| ==> sp[i].centroid < m
    ensures |set i | 0 <= i < n && sp[i].centroid < m| == n
  {
    if n > 0 {
      AllFieldsBelow(sp, n - 1, m);
      assert (set i | 0 <= i < n && sp[i].centroid < m) == (set i | 0 <= i < n - 1 && sp[i].centroid < m) + {n - 1};
    }
  }

  /** In a partition the lists hold, together, exactly as many entries as there are points. */
  lemma PartitionCoversAll(sp: seq<SPoint>, cs: seq<Centroid>)
    requires Partitioned(sp, cs)
    ensures TotalMembers(cs) == |sp|
  {
    MembersBelow(sp, cs, |cs|);
    assert cs[..|cs|] == cs;
    AllFieldsBelow(sp, |sp|, |cs|);
    assert FieldsBelow(sp, |cs|) == set i | 0 <= i < |sp| && sp[i].centroid < |cs|;
  }

  /** If no list holds more than one entry and one list is empty, there are fewer entries than lists. */
  lemma {:induction false} FewMembersIfNoDonor(cs: seq<Centroid>, e: nat)
    requires e < |cs| && cs[e].pts == []
    requires forall k :: 0 <= k < |cs| ==> |cs[k].pts| <= 1
    ensures TotalMembers(cs) < |cs|
  {
    var n := |cs| - 1;
    var front := cs[..n];
    assert forall k :: 0 <= k < n ==> front[k] == cs[k];
    if e == n {
      AtMostOneEach(front);
    } else {
      FewMembersIfNoDonor(front, e);
    }
  }

  lemma {:induction false} AtMostOneEach(cs: seq<Centroid>)
    requires forall k :: 0 <= k < |cs| ==> |cs[k].pts| <= 1
    ensures TotalMembers(cs) <= |cs|
  {
    if |cs| > 0 {
      var n := |cs| - 1;
      assert forall k :: 0 <= k < n ==> cs[..n][k] == cs[k];
      AtMostOneEach(cs[..n]);
    }
  }

  /** With at least as many points as clusters, an empty cluster implies some cluster holds
      more than one member: the fallback donor search succeeds. */
  lemma DonorExists(sp: seq<SPoint>, cs: seq<Centroid>, e: nat)
    requires Partitioned(sp, cs)
    requires |cs| <= |sp|
    requires e < |cs| && cs[e].pts == []
    ensures exists k :: 0 <= k < |cs| && |cs[k].pts| > 1
  {
    PartitionCoversAll(sp, cs);
    if forall k :: 0 <= k < |cs| ==> |cs[k].pts| <= 1 {
      FewMembersIfNoDonor(cs, e);
    }
  }

  /** Lists rebuilt by an assignment pass (each the points whose field names it) partition the
      points whenever every field names a cluster. */
  lemma MembersRevPartition(sp: seq<SPoint>, cs: seq<Centroid>)
    requires forall i :: 0 <= i < |sp| ==> 0 <= sp[i].centroid < |cs|
    requires forall k :: 0 <= k < |cs| ==> cs[k].pts == MembersRev(Fields(sp), k)
    ensures Partitioned(sp, cs)
  {
    var f := Fields(sp);
    forall k, j | 0 <= k < |cs| && 0 <= j < |cs[k].pts|
      ensures cs[k].pts[j] < |sp| && sp[cs[k].pts[j]].centroid == k
    {
      MembersRevHolds(f, k, cs[k].pts[j]);
    }
    forall k | 0 <= k < |cs|
      ensures forall a, b :: 0 <= a < b < |cs[k].pts| ==> cs[k].pts[a] != cs[k].pts[b]
    {
      MembersRevDecreasing(f, k);
    }
    forall i | 0 <= i < |sp|
      ensures i in cs[sp[i].centroid].pts
    {
      MembersRevHolds(f, sp[i].centroid, i);
    }
  }

  /** cs' is cs with the front member of `from` moved to the front of `to` (other fields of the
      centroids may differ). */
  ghost predicate MovedFront(cs: seq<Centroid>, cs': seq<Centroid>, from: int, to: int)
    requires 0 <= from < |cs| && |cs[from].pts| > 0
  {
    |cs'| == |cs|
    && cs'[from].pts == cs[from].pts[1..]
    && (0 <= to < |cs| && to != from ==> cs'[to].pts == [cs[from].pts[0]] + cs[to].pts)
    && forall k :: 0 <= k < |cs| && k != from && k != to ==> cs'[k].pts == cs[k].pts
  }

  /** Moving the front member of cluster `from` to the front of cluster `to`, and setting that
      point's field to `to`, keeps the partition. */
  lemma MovePreservesPartition(sp: seq<SPoint>, cs: seq<Centroid>, from: int, to: int, sp': seq<SPoint>, cs': seq<Centroid>)
    requires Partitioned(sp, cs)
    requires 0 <= from < |cs| && 0 <= to < |cs| && from != to && |cs[from].pts| > 0
    requires sp' == sp[cs[from].pts[0] := sp[cs[from].pts[0]].(centroid := to)]
    requires MovedFront(cs, cs', from, to)
    ensures Partitioned(sp', cs')
  {
    MoveKeepsFields(sp, cs, from, to, sp', cs');
    MoveKeepsDistinct(sp, cs, from, to, cs');
    MoveKeepsCover(sp, cs, from, to, sp', cs');
  }

  lemma MoveKeepsFields(sp: seq<SPoint>, cs: seq<Centroid>, from: int, to: int, sp': seq<SPoint>, cs': seq<Centroid>)
    requires Partitioned(sp, cs)
    requires 0 <= from < |cs| && 0 <= to < |cs| && from != to && |cs[from].pts| > 0
    requires sp' == sp[cs[from].pts[0] := sp[cs[from].pts[0]].(centroid := to)]
    requires MovedFront(cs, cs', from, to)
    ensures forall k, j :: 0 <= k < |cs'| && 0 <= j < |cs'[k].pts| ==> cs'[k].pts[j] < |sp'| && sp'[cs'[k].pts[j]].centroid == k
  {
    var p := cs[from].pts[0];
    forall k, j | 0 <= k < |cs'| && 0 <= j < |cs'[k].pts|
      ensures cs'[k].pts[j] < |sp'| && sp'[cs'[k].pts[j]].centroid == k
    {
      if k == from {
        assert cs'[k].pts[j] == cs[from].pts[j + 1] != p;
      } else if k == to {
        if j > 0 {
          assert cs'[k].pts[j] == cs[to].pts[j - 1];
        }
      }
    }
  }

  lemma MoveKeepsDistinct(sp: seq<SPoint>, cs: seq<Centroid>, from: int, to: int, cs': seq<Centroid>)
    requires Partitioned(sp, cs)
    requires 0 <= from < |cs| && 0 <= to < |cs| && from != to && |cs[from].pts| > 0
    requires MovedFront(cs, cs', from, to)
    ensures forall k, a, b :: 0 <= k < |cs'| && 0 <= a < b < |cs'[k].pts| ==> cs'[k].pts[a] != cs'[k].pts[b]
  {
    forall k, a, b | 0 <= k < |cs'| && 0 <= a < b < |cs'[k].pts|
      ensures cs'[k].pts[a] != cs'[k].pts[b]
    {
      if k == from {
        assert cs'[k].pts[a] == cs[from].pts[a + 1] && cs'[k].pts[b] == cs[from].pts[b + 1];
      } else if k == to {
        assert cs'[k].pts[b] == cs[to].pts[b - 1];
        if a > 0 {
          assert cs'[k].pts[a] == cs[to].pts[a - 1];
        }
      }
    }
  }

  lemma MoveKeepsCover(sp: seq<SPoint>, cs: seq<Centroid>, from: int, to: int, sp': seq<SPoint>, cs': seq<Centroid>)
    requires Partitioned(sp, cs)
    requires 0 <= from < |cs| && 0 <= to < |cs| && from != to && |cs[from].pts| > 0
    requires sp' == sp[cs[from].pts[0] := sp[cs[from].pts[0]].(centroid := to)]
    requires MovedFront(cs, cs', from, to)
    ensures forall i :: 0 <= i < |sp'| ==> 0 <= sp'[i].centroid < |cs'| && i in cs'[sp'[i].centroid].pts
  {
    var p := cs[from].pts[0];
    forall i | 0 <= i < |sp'|
      ensures 0 <= sp'[i].centroid < |cs'| && i in cs'[sp'[i].centroid].pts
    {
      if i == p {
        assert cs'[to].pts[0] == p;
      } else if sp[i].centroid == from {
        var j :| 0 <= j < |cs[from].pts| && cs[from].pts[j] == i;
        assert cs'[from].pts[j - 1] == i;
      } else if sp[i].centroid == to {
        var j :| 0 <= j < |cs[to].pts| && cs[to].pts[j] == i;
        assert cs'[to].pts[j + 1] == i;
      }
    }
  }
}
