/** Repairing empty clusters (lib/KMeans.cpp:275-339) and recomputing centroids
    (lib/KMeans.cpp:341-354): each touched cluster left empty takes the front member of a cluster
    holding more than one point, and the centroids of the listed clusters become the mean of
    their members. */
module Repair {
  import opened KMeansTypes
  import opened Membership
  import opened Seeding

  /** The points keep their ids and vectors; only their fields may differ. */
  ghost predicate SameVectors(a: seq<SPoint>, b: seq<SPoint>)
  {
    |a| == |b| && forall i :: 0 <= i < |a| ==> a[i].id == b[i].id && a[i].vec == b[i].vec
  }

  /** A member list before and after repairs: a repaired list was empty and now holds one point;
      a list of at most one member is untouched; a longer list only loses points from its front
      and keeps at least one. */
  ghost predicate PtsEvolved(a: seq<nat>, b: seq<nat>, repaired: bool)
  {
    if repaired then a == [] && |b| == 1
    else if |a| <= 1 then b == a
    else 1 <= |b| <= |a| && b == a[|a| - |b|..]
  }

  /** One cluster before and after repairs: a repaired centroid is a copy of its single member's
      vector with norm 1; any other keeps its vector and norm. */
  ghost predicate ClusterEvolved(a: Centroid, b: Centroid, vecs: seq<SparseVec>, repaired: bool)
  {
    b.id == a.id
    && PtsEvolved(a.pts, b.pts, repaired)
    && if repaired then b.pts[0] < |vecs| && b.vec == CopyOf(vecs[b.pts[0]]) && b.l2norm == UnitNorm
       else b.vec == a.vec && b.l2norm == a.l2norm
  }

  /** c1 is c0 after repairs of exactly the clusters in `repaired`. */
  ghost predicate Evolved(c0: seq<Centroid>, c1: seq<Centroid>, vecs: seq<SparseVec>, repaired: set<int>)
  {
    |c1| == |c0| && forall k :: 0 <= k < |c0| ==> ClusterEvolved(c0[k], c1[k], vecs, k in repaired)
  }

  lemma EvolvedRefl(c: seq<Centroid>, vecs: seq<SparseVec>)
    ensures Evolved(c, c, vecs, {})
  {
    forall k | 0 <= k < |c| ensures ClusterEvolved(c[k], c[k], vecs, false) {
      assert c[k].pts[|c[k].pts| - |c[k].pts|..] == c[k].pts;
    }
  }

  /** Repairs compose: two rounds are one round repairing both sets. */
  lemma EvolvedTrans(c0: seq<Centroid>, c1: seq<Centroid>, c2: seq<Centroid>, vecs: seq<SparseVec>, r1: set<int>, r2: set<int>)
    requires Evolved(c0, c1, vecs, r1) && Evolved(c1, c2, vecs, r2)
    ensures Evolved(c0, c2, vecs, r1 + r2)
  {
    forall k | 0 <= k < |c0| ensures ClusterEvolved(c0[k], c2[k], vecs, k in r1 + r2) {
      assert ClusterEvolved(c0[k], c1[k], vecs, k in r1);
      assert ClusterEvolved(c1[k], c2[k], vecs, k in r2);
      var a, b, c := c0[k].pts, c1[k].pts, c2[k].pts;
      if k !in r1 && k !in r2 && |a| > 1 && |b| > 1 {
        assert c == a[|a| - |c|..];
      }
    }
  }

  /** One donation (lib/KMeans.cpp:302-309, 327-332): the front member of cluster `from` moves to
      the front of the list of cluster `to` and takes `to` as its field, and `to`'s centroid
      becomes a copy of that point's vector with norm 1. */
  function Donate(sp: seq<SPoint>, cs: seq<Centroid>, from: int, to: int): (seq<SPoint>, seq<Centroid>)
    requires 0 <= from < |cs| && 0 <= to < |cs|
    requires |cs[from].pts| > 0 && cs[from].pts[0] < |sp|
  {
    var p := cs[from].pts[0];
    var cs1 := cs[from := cs[from].(pts := cs[from].pts[1..])];
    (sp[p := sp[p].(centroid := to)],
     cs1[to := cs1[to].(pts := [p] + cs1[to].pts, vec := CopyOf(sp[p].vec), l2norm := UnitNorm)])
  }

  /** Every member index names a point. */
  ghost predicate MembersInRange(sp: seq<SPoint>, cs: seq<Centroid>)
  {
    forall k, j :: 0 <= k < |cs| && 0 <= j < |cs[k].pts| ==> cs[k].pts[j] < |sp|
  }

  /** Every listed id names a cluster. */
  ghost predicate IdsBelow(ids: seq<int>, n: int)
  {
    forall j :: 0 <= j < |ids| ==> 0 <= ids[j] < n
  }

  lemma DonateInRange(sp: seq<SPoint>, cs: seq<Centroid>, from: int, to: int)
    requires MembersInRange(sp, cs) && 0 <= from < |cs| && 0 <= to < |cs| && |cs[from].pts| > 0
    ensures var (sp', cs') := Donate(sp, cs, from, to);
      |sp'| == |sp| && |cs'| == |cs| && MembersInRange(sp', cs')
  {
  }

  /** The reference for one donor's turn (lib/KMeans.cpp:298-310): while empty clusters are left
      and donor `d` holds more than one point, its front member goes to the next one. Returns the
      points, the clusters and the empty clusters still left, a suffix of `left`. */
  ghost function DrainOf(sp: seq<SPoint>, cs: seq<Centroid>, left: seq<int>, d: int): (r: (seq<SPoint>, seq<Centroid>, seq<int>))
    requires MembersInRange(sp, cs) && 0 <= d < |cs| && IdsBelow(left, |cs|)
    ensures |r.0| == |sp| && |r.1| == |cs| && MembersInRange(r.0, r.1)
    ensures IsSuffix(r.2, left) && IdsBelow(r.2, |cs|)
    decreases |left|
  {
    if left == [] || |cs[d].pts| <= 1 then (sp, cs, left)
    else
      DonateInRange(sp, cs, d, left[0]);
      var (sp1, cs1) := Donate(sp, cs, d, left[0]);
      DrainOf(sp1, cs1, left[1..], d)
  }

  /** The reference for the donor pass (lib/KMeans.cpp:292-312): the turns of donors n, n+1, ...
      of `nonempty`, stopping once no empty cluster is left. */
  ghost function DonorPassOf(sp: seq<SPoint>, cs: seq<Centroid>, left: seq<int>, nonempty: seq<int>, n: nat)
    : (r: (seq<SPoint>, seq<Centroid>, seq<int>))
    requires MembersInRange(sp, cs) && IdsBelow(left, |cs|) && IdsBelow(nonempty, |cs|) && n <= |nonempty|
    ensures |r.0| == |sp| && |r.1| == |cs| && MembersInRange(r.0, r.1)
    ensures IsSuffix(r.2, left) && IdsBelow(r.2, |cs|)
    decreases |nonempty| - n
  {
    if n == |nonempty| || left == [] then (sp, cs, left)
    else
      var t := DrainOf(sp, cs, left, nonempty[n]);
      assert |t.1| == |cs| && IdsBelow(nonempty, |t.1|);
      var r := DonorPassOf(t.0, t.1, t.2, nonempty, n + 1);
      SuffixChain(left, t.2, r.2);
      r
  }

  /** `c` is what is left of `a` once some of its front is dropped. */
  ghost predicate IsSuffix(c: seq<int>, a: seq<int>)
  {
    |c| <= |a| && c == a[|a| - |c|..]
  }

  /** A suffix of a suffix is a suffix. */
  lemma SuffixChain(a: seq<int>, b: seq<int>, c: seq<int>)
    requires IsSuffix(b, a) && IsSuffix(c, b)
    ensures IsSuffix(c, a)
  {
  }

  /** The first cluster from position k on that holds more than one point, or -1. */
  function FirstDonorFrom(cs: seq<Centroid>, k: nat): (d: int)
    ensures d == -1 || (k <= d < |cs| && |cs[d].pts| > 1)
    ensures d == -1 ==> forall i :: k <= i < |cs| ==> |cs[i].pts| <= 1
    ensures d != -1 ==> forall i :: k <= i < d ==> |cs[i].pts| <= 1
    decreases |cs| - k
  {
    if k >= |cs| then -1 else if |cs[k].pts| > 1 then k else FirstDonorFrom(cs, k + 1)
  }

  /** The reference for the fallback pass (lib/KMeans.cpp:314-338): each empty cluster in turn
      takes the front member of the first cluster holding more than one point, until none does.
      Returns the points, the clusters, the empty clusters still left and the donors, the latest
      first; there is one donor per repaired cluster. */
  ghost function FallbackOf(sp: seq<SPoint>, cs: seq<Centroid>, left: seq<int>)
    : (r: (seq<SPoint>, seq<Centroid>, seq<int>, seq<int>))
    requires MembersInRange(sp, cs) && IdsBelow(left, |cs|)
    ensures |r.0| == |sp| && |r.1| == |cs| && MembersInRange(r.0, r.1)
    ensures |r.3| + |r.2| == |left| && r.2 == left[|r.3|..]
    ensures IdsBelow(r.3, |cs|)
    decreases |left|
  {
    if left == [] then (sp, cs, left, [])
    else
      var d := FirstDonorFrom(cs, 0);
      if d == -1 then (sp, cs, left, [])
      else
        DonateInRange(sp, cs, d, left[0]);
        var (sp1, cs1) := Donate(sp, cs, d, left[0]);
        var r := FallbackOf(sp1, cs1, left[1..]);
        (r.0, r.1, r.2, r.3 + [d])
  }

  /** The reference for both repair rounds (lib/KMeans.cpp:289-339): the donor pass over the
      touched clusters that kept members, then the fallback over what it left. Returns the
      points, the clusters, the fallback donors and the clusters still empty. */
  ghost function RepairOf(sp: seq<SPoint>, cs: seq<Centroid>, empty: seq<int>, nonempty: seq<int>)
    : (r: (seq<SPoint>, seq<Centroid>, seq<int>, seq<int>))
    requires MembersInRange(sp, cs) && IdsBelow(empty, |cs|) && IdsBelow(nonempty, |cs|)
    ensures |r.0| == |sp| && |r.1| == |cs| && MembersInRange(r.0, r.1) && IdsBelow(r.2, |cs|)
  {
    var (sp1, cs1, left) := DonorPassOf(sp, cs, empty, nonempty, 0);
    var (sp2, cs2, rest, donors) := FallbackOf(sp1, cs1, left);
    (sp2, cs2, donors, rest)
  }

  /** Every listed cluster recomputed from the members' vectors in `sp`; the others unchanged. */
  ghost function RecomputedAll(sp: seq<SPoint>, cs: seq<Centroid>, list: seq<int>): (r: seq<Centroid>)
    requires MembersInRange(sp, cs)
    ensures |r| == |cs|
  {
    seq(|cs|, k requires 0 <= k < |cs| => if k in list then Recomputed(sp, cs[k]) else cs[k])
  }

  /** The reference for the whole update (lib/KMeans.cpp:275-355), given the touched clusters
      split into the empty ones and the others: repairs, then lists the fallback donors ahead of
      the others; below the threshold it returns 0 and recomputes nothing, otherwise it
      recomputes every listed centroid and returns the list's length. */
  ghost function UpdateOf(sp: seq<SPoint>, cs: seq<Centroid>, empty: seq<int>, nonempty: seq<int>, threshold: int)
    : (r: (seq<SPoint>, seq<Centroid>, int, seq<int>))
    requires MembersInRange(sp, cs) && IdsBelow(empty, |cs|) && IdsBelow(nonempty, |cs|)
  {
    var (sp1, cs1, donors, rest) := RepairOf(sp, cs, empty, nonempty);
    var list := donors + nonempty;
    if |list| < threshold then (sp1, cs1, 0, list)
    else (sp1, RecomputedAll(sp, cs1, list), |list|, list)
  }

  /** An update that lists no cluster changes nothing: no cluster kept members, so the donor
      pass has no donor, the fallback gave no point, and nothing is recomputed. */
  lemma UnlistedUpdateKeeps(sp: seq<SPoint>, cs: seq<Centroid>, empty: seq<int>, nonempty: seq<int>, threshold: int)
    requires MembersInRange(sp, cs) && IdsBelow(empty, |cs|) && IdsBelow(nonempty, |cs|)
    requires UpdateOf(sp, cs, empty, nonempty, threshold).3 == []
    ensures UpdateOf(sp, cs, empty, nonempty, threshold).0 == sp
    ensures UpdateOf(sp, cs, empty, nonempty, threshold).1 == cs
  {
    var (sp1, cs1, donors, rest) := RepairOf(sp, cs, empty, nonempty);
    assert nonempty == [] && donors == [];
    assert DonorPassOf(sp, cs, empty, nonempty, 0) == (sp, cs, empty);
    assert sp1 == sp && cs1 == cs;
    assert RecomputedAll(sp, cs1, []) == cs1;
  }

  /** A cluster holding more than one point after repairs was not repaired and held more than
      one point before. */
  lemma HadMore(c0: seq<Centroid>, c1: seq<Centroid>, vecs: seq<SparseVec>, repaired: set<int>, d: int)
    requires Evolved(c0, c1, vecs, repaired)
    requires 0 <= d < |c1| && |c1[d].pts| > 1
    ensures d !in repaired && |c0[d].pts| > 1
  {
    assert ClusterEvolved(c0[d], c1[d], vecs, d in repaired);
  }

  /** A donation from a cluster of more than one member to an empty one keeps the partition and
      the ids, and is a repair of `to` alone. */
  lemma DonateKeeps(sp0: seq<SPoint>, sp: seq<SPoint>, cs: seq<Centroid>, from: int, to: int)
    requires Partitioned(sp, cs) && IdsArePositions(cs) && SameVectors(sp0, sp)
    requires 0 <= from < |cs| && 0 <= to < |cs|
    requires |cs[from].pts| > 1 && cs[to].pts == []
    ensures var (sp', cs') := Donate(sp, cs, from, to);
      Partitioned(sp', cs') && IdsArePositions(cs') && SameVectors(sp0, sp')
      && Evolved(cs, cs', VecsOf(sp0), {to})
  {
    var (sp', cs') := Donate(sp, cs, from, to);
    assert MovedFront(cs, cs', from, to);
    MovePreservesPartition(sp, cs, from, to, sp', cs');
    var a := cs[from].pts;
    assert cs'[from].pts == a[|a| - |cs'[from].pts|..];
    assert ClusterEvolved(cs[from], cs'[from], VecsOf(sp0), false);
    assert ClusterEvolved(cs[to], cs'[to], VecsOf(sp0), true);
    forall k | 0 <= k < |cs| && k != from && k != to ensures ClusterEvolved(cs[k], cs'[k], VecsOf(sp0), false) {
      var b := cs[k].pts;
      assert b[|b| - |b|..] == b;
    }
  }

  /** Splits the touched ids, walked in increasing order, into the clusters left empty and the
      others, each pushed on the front of its list (lib/KMeans.cpp:282-288). */
  method SplitTouched(cs: seq<Centroid>, ids: set<int>) returns (empty: seq<int>, nonempty: seq<int>)
    requires forall x :: x in ids ==> 0 <= x < |cs|
    ensures TouchedSplit(cs, ids, empty, nonempty)
    ensures |empty| + |nonempty| == |ids|
  {
    empty, nonempty := [], [];
    var rest := ids;
    while rest != {}
      invariant SplitSoFar(cs, ids, rest, empty, nonempty)
      decreases rest
    {
      ghost var least := SetMinimum(rest);
      var cid :| cid in rest && forall x :: x in rest ==> cid <= x;
      SplitStep(cs, ids, rest, empty, nonempty, cid);
      if cs[cid].pts == [] {
        empty := [cid] + empty;
      } else {
        nonempty := [cid] + nonempty;
      }
      rest := rest - {cid};
    }
    assert forall j :: 0 <= j < |empty| ==> empty[j] in empty;
    assert forall j :: 0 <= j < |nonempty| ==> nonempty[j] in nonempty;
  }

  /** The split after the clusters outside `rest` were taken, least first: each taken cluster
      went to the front of `empty` or `nonempty`, so both descend and the rest lie above them. */
  ghost predicate SplitSoFar(cs: seq<Centroid>, ids: set<int>, rest: set<int>, empty: seq<int>, nonempty: seq<int>)
  {
    (forall x :: x in ids ==> 0 <= x < |cs|) && rest <= ids
    && (forall x :: x in empty <==> x in ids && x !in rest && cs[x].pts == [])
    && (forall x :: x in nonempty <==> x in ids && x !in rest && cs[x].pts != [])
    && (empty != [] ==> forall x :: x in rest ==> empty[0] < x)
    && (nonempty != [] ==> forall x :: x in rest ==> nonempty[0] < x)
    && Descending(empty) && Descending(nonempty)
    && |empty| + |nonempty| + |rest| == |ids|
  }

  /** Taking the least cluster left keeps the split. */
  lemma SplitStep(cs: seq<Centroid>, ids: set<int>, rest: set<int>, empty: seq<int>, nonempty: seq<int>, cid: int)
    requires SplitSoFar(cs, ids, rest, empty, nonempty)
    requires cid in rest && forall x :: x in rest ==> cid <= x
    ensures cs[cid].pts == [] ==> SplitSoFar(cs, ids, rest - {cid}, [cid] + empty, nonempty)
    ensures cs[cid].pts != [] ==> SplitSoFar(cs, ids, rest - {cid}, empty, [cid] + nonempty)
  {
  }

  /** The touched clusters split as the source splits them: `empty` holds those left empty and
      `nonempty` the others, each in decreasing order. */
  ghost predicate TouchedSplit(cs: seq<Centroid>, ids: set<int>, empty: seq<int>, nonempty: seq<int>)
  {
    (forall x :: x in ids ==> 0 <= x < |cs|)
    && (forall x :: x in empty <==> x in ids && cs[x].pts == [])
    && (forall x :: x in nonempty <==> x in ids && cs[x].pts != [])
    && Descending(empty) && Descending(nonempty)
    && IdsBelow(empty, |cs|) && IdsBelow(nonempty, |cs|)
  }

  /** The split is determined by the clusters and the touched set. */
  lemma TouchedSplitUnique(cs: seq<Centroid>, ids: set<int>, e1: seq<int>, n1: seq<int>, e2: seq<int>, n2: seq<int>)
    requires TouchedSplit(cs, ids, e1, n1) && TouchedSplit(cs, ids, e2, n2)
    ensures e1 == e2 && n1 == n2
  {
    DescendingUnique(e1, e2);
    DescendingUnique(n1, n2);
  }

  /** Sequences with the same elements are empty together. */
  lemma SameElementsEmpty(a: seq<int>, b: seq<int>)
    requires forall x :: x in a <==> x in b
    ensures a == [] <==> b == []
  {
    if a != [] {
      var x := a[0];
      assert x in a;
      assert x in b;
    }
    if b != [] {
      var x := b[0];
      assert x in b;
      assert x in a;
    }
  }

  /** Two decreasing sequences with the same elements are equal. */
  lemma {:induction false} DescendingUnique(a: seq<int>, b: seq<int>)
    requires Descending(a) && Descending(b)
    requires forall x :: x in a <==> x in b
    ensures a == b
    decreases |a|
  {
    SameElementsEmpty(a, b);
    if a != [] {
      assert a[0] in a && b[0] in b;
      var i :| 0 <= i < |b| && b[i] == a[0];
      var j :| 0 <= j < |a| && a[j] == b[0];
      assert a[0] == b[0] by {
        assert b[0] >= b[i] && a[0] >= a[j];
      }
      forall x ensures x in a[1..] <==> x in b[1..] {
        if x in a[1..] {
          var k :| 0 <= k < |a[1..]| && a[1..][k] == x;
          assert a[k + 1] == x && x < a[0] && x in a && x in b;
          var m :| 0 <= m < |b| && b[m] == x;
          assert m != 0 && b[1..][m - 1] == x;
        }
        if x in b[1..] {
          var k :| 0 <= k < |b[1..]| && b[1..][k] == x;
          assert b[k + 1] == x && x < b[0] && x in b && x in a;
          var m :| 0 <= m < |a| && a[m] == x;
          assert m != 0 && a[1..][m - 1] == x;
        }
      }
      DescendingUnique(a[1..], b[1..]);
    }
  }

  /** The state of a repair round over the empty clusters `empty`: the points and clusters are a
      partition of the same vectors, the clusters still to repair are a suffix of `empty`, all
      still empty, and the others have been repaired. */
  ghost predicate Donated(sp: seq<SPoint>, cs: seq<Centroid>, empty: seq<int>, sp': seq<SPoint>, cs': seq<Centroid>, left: seq<int>)
  {
    Partitioned(sp', cs') && IdsArePositions(cs') && SameVectors(sp, sp')
    && |left| <= |empty| && left == empty[|empty| - |left|..]
    && Evolved(cs, cs', VecsOf(sp), Values(empty[..|empty| - |left|]))
    && forall j :: 0 <= j < |left| ==> 0 <= left[j] < |cs'| && cs'[left[j]].pts == []
  }

  /** Nothing is repaired before the first donation. */
  lemma DonatedStart(sp: seq<SPoint>, cs: seq<Centroid>, empty: seq<int>)
    requires Partitioned(sp, cs) && IdsArePositions(cs)
    requires forall j :: 0 <= j < |empty| ==> 0 <= empty[j] < |cs| && cs[empty[j]].pts == []
    ensures Donated(sp, cs, empty, sp, cs, empty)
  {
    EvolvedRefl(cs, VecsOf(sp));
    assert empty[..0] == [];
    assert Values(empty[..0]) == {};
    assert empty[0..] == empty;
  }

  /** A donation from a cluster of more than one member to the next empty cluster repairs it and
      keeps every cluster of at most one member at most one. */
  lemma DonatedStep(sp: seq<SPoint>, cs: seq<Centroid>, empty: seq<int>, sp': seq<SPoint>, cs': seq<Centroid>, left: seq<int>, from: int)
    requires Descending(empty)
    requires Donated(sp, cs, empty, sp', cs', left)
    requires left != [] && 0 <= from < |cs'| && |cs'[from].pts| > 1
    ensures var (sp'', cs'') := Donate(sp', cs', from, left[0]);
      Donated(sp, cs, empty, sp'', cs'', left[1..])
      && forall k :: 0 <= k < |cs'| && |cs'[k].pts| <= 1 ==> |cs''[k].pts| <= 1
  {
    var to := left[0];
    var (sp'', cs'') := Donate(sp', cs', from, to);
    var done := |empty| - |left|;
    SuffixStep(empty, left);
    DonateKeeps(sp, sp', cs', from, to);
    EvolvedTrans(cs, cs', cs'', VecsOf(sp), Values(empty[..done]), {to});
    DonateElsewhere(sp', cs', from, to);
    StillEmpty(cs', cs'', left, from);
  }

  /** Taking the next empty cluster off `left` leaves a shorter suffix of `empty`, adds that
      cluster to the repaired ones, and every cluster still left is below it. */
  lemma SuffixStep(empty: seq<int>, left: seq<int>)
    requires Descending(empty)
    requires |left| <= |empty| && left == empty[|empty| - |left|..] && left != []
    ensures left[1..] == empty[|empty| - |left[1..]|..]
    ensures Values(empty[..|empty| - |left[1..]|]) == Values(empty[..|empty| - |left|]) + {left[0]}
    ensures forall j :: 0 <= j < |left[1..]| ==> left[1..][j] < left[0]
  {
    var done := |empty| - |left|;
    assert empty[done] == left[0];
    ValuesStep(empty, done);
    forall j | 0 <= j < |left[1..]| ensures left[1..][j] < left[0] {
      assert left[1..][j] == empty[done + 1 + j];
    }
  }

  /** A donation changes only the donor and the receiver, and the receiver, empty before, ends
      up with one member. */
  lemma DonateElsewhere(sp: seq<SPoint>, cs: seq<Centroid>, from: int, to: int)
    requires 0 <= from < |cs| && 0 <= to < |cs| && from != to
    requires |cs[from].pts| > 0 && cs[from].pts[0] < |sp| && cs[to].pts == []
    ensures var cs' := Donate(sp, cs, from, to).1;
      |cs'| == |cs| && |cs'[to].pts| == 1
      && forall k :: 0 <= k < |cs| && k != from && k != to ==> cs'[k] == cs[k]
  {
  }

  /** The clusters still left after `left[0]` are untouched by a donation from a cluster that is
      not empty, so they stay empty; a cluster that held at most one member still does. */
  lemma StillEmpty(cs: seq<Centroid>, cs': seq<Centroid>, left: seq<int>, from: int)
    requires left != [] && 0 <= from < |cs| && |cs[from].pts| > 1 && |cs'| == |cs|
    requires forall j :: 0 <= j < |left| ==> 0 <= left[j] < |cs| && cs[left[j]].pts == []
    requires forall j :: 0 <= j < |left[1..]| ==> left[1..][j] < left[0]
    requires |cs'[left[0]].pts| == 1
    requires forall k :: 0 <= k < |cs| && k != from && k != left[0] ==> cs'[k] == cs[k]
    ensures forall j :: 0 <= j < |left[1..]| ==> 0 <= left[1..][j] < |cs'| && cs'[left[1..][j]].pts == []
    ensures forall k :: 0 <= k < |cs| && |cs[k].pts| <= 1 ==> |cs'[k].pts| <= 1
  {
    forall j | 0 <= j < |left[1..]| ensures 0 <= left[1..][j] < |cs'| && cs'[left[1..][j]].pts == [] {
      assert left[1..][j] == left[j + 1];
    }
  }

  /** The first cluster holding more than one point, or -1 when there is none
      (lib/KMeans.cpp:323-336). */
  method FirstDonor(cs: seq<Centroid>) returns (d: int)
    ensures d == -1 || (0 <= d < |cs| && |cs[d].pts| > 1)
    ensures d == -1 ==> forall k :: 0 <= k < |cs| ==> |cs[k].pts| <= 1
    ensures d != -1 ==> forall k :: 0 <= k < d ==> |cs[k].pts| <= 1
    ensures d == FirstDonorFrom(cs, 0)
  {
    d := 0;
    while d < |cs|
      invariant 0 <= d <= |cs|
      invariant forall k :: 0 <= k < d ==> |cs[k].pts| <= 1
      invariant FirstDonorFrom(cs, 0) == FirstDonorFrom(cs, d)
    {
      if |cs[d].pts| > 1 {
        return;
      }
      d := d + 1;
    }
    d := -1;
  }

  /** The first repair pass (lib/KMeans.cpp:292-312): the touched clusters that kept members, in
      order, each give their front member to the next empty cluster while they hold more than
      one. If empty clusters are left, every one of those donors is down to one member. */
  method DonorPass(sp: seq<SPoint>, cs: seq<Centroid>, empty: seq<int>, nonempty: seq<int>)
    returns (sp': seq<SPoint>, cs': seq<Centroid>, left: seq<int>)
    requires Partitioned(sp, cs) && IdsArePositions(cs)
    requires forall j :: 0 <= j < |empty| ==> 0 <= empty[j] < |cs| && cs[empty[j]].pts == []
    requires Descending(empty)
    requires forall j :: 0 <= j < |nonempty| ==> 0 <= nonempty[j] < |cs|
    ensures Donated(sp, cs, empty, sp', cs', left)
    ensures left != [] ==> DownToOne(cs', nonempty)
    ensures (sp', cs', left) == DonorPassOf(sp, cs, empty, nonempty, 0)
  {
    sp', cs', left := sp, cs, empty;
    DonatedStart(sp, cs, empty);
    DonatedInRange(sp, cs, empty, sp, cs, empty);
    for n := 0 to |nonempty|
      invariant Donated(sp, cs, empty, sp', cs', left)
      invariant left != [] ==> DownToOne(cs', nonempty[..n])
      invariant MembersInRange(sp', cs') && IdsBelow(left, |cs'|) && IdsBelow(nonempty, |cs'|)
      invariant DonorPassOf(sp, cs, empty, nonempty, 0) == DonorPassOf(sp', cs', left, nonempty, n)
    {
      if left == [] {
        break;
      }
      sp', cs', left := DonorTurn(sp, cs, empty, nonempty, n, sp', cs', left);
      DonatedInRange(sp, cs, empty, sp', cs', left);
    }
    if left != [] {
      assert nonempty[..|nonempty|] == nonempty;
    }
  }

  /** The turn of donor n: after it, when empty clusters are still left, donors 0 to n are all
      down to one member. */
  method DonorTurn(sp: seq<SPoint>, cs: seq<Centroid>, empty: seq<int>, nonempty: seq<int>, n: int,
                   sp0: seq<SPoint>, cs0: seq<Centroid>, left0: seq<int>)
    returns (sp': seq<SPoint>, cs': seq<Centroid>, left: seq<int>)
    requires Descending(empty)
    requires Donated(sp, cs, empty, sp0, cs0, left0)
    requires 0 <= n < |nonempty| && 0 <= nonempty[n] < |cs0|
    requires left0 != [] && DownToOne(cs0, nonempty[..n])
    ensures Donated(sp, cs, empty, sp', cs', left)
    ensures left != [] ==> DownToOne(cs', nonempty[..n + 1])
    ensures (sp', cs', left) == DrainOf(sp0, cs0, left0, nonempty[n])
  {
    var necid := nonempty[n];
    assert nonempty[..n + 1] == nonempty[..n] + [necid];
    DonatedInRange(sp, cs, empty, sp0, cs0, left0);
    sp', cs', left := Drain(sp, cs, empty, sp0, cs0, left0, necid);
    if left != [] {
      DownToOneKept(cs0, cs', nonempty[..n]);
      DownToOnePush(cs', nonempty[..n], necid);
    }
  }

  lemma DownToOnePush(cs: seq<Centroid>, ids: seq<int>, k: int)
    requires DownToOne(cs, ids) && 0 <= k < |cs| && |cs[k].pts| <= 1
    ensures DownToOne(cs, ids + [k])
  {
  }

  /** One donor's turn (lib/KMeans.cpp:298-310): while empty clusters are left and the donor
      holds more than one point, its front member goes to the next empty cluster. Afterwards
      the donor is down to one point unless no empty cluster is left, and a cluster that held at
      most one point still does. */
  method Drain(sp: seq<SPoint>, cs: seq<Centroid>, empty: seq<int>,
               sp0: seq<SPoint>, cs0: seq<Centroid>, left0: seq<int>, necid: int)
    returns (sp': seq<SPoint>, cs': seq<Centroid>, left: seq<int>)
    requires Descending(empty)
    requires Donated(sp, cs, empty, sp0, cs0, left0)
    requires 0 <= necid < |cs0|
    ensures Donated(sp, cs, empty, sp', cs', left)
    ensures left != [] ==> |cs'[necid].pts| <= 1
    ensures |cs'| == |cs0| && forall k :: 0 <= k < |cs0| && |cs0[k].pts| <= 1 ==> |cs'[k].pts| <= 1
    ensures (sp', cs', left) == DrainOf(sp0, cs0, left0, necid)
  {
    sp', cs', left := sp0, cs0, left0;
    DonatedInRange(sp, cs, empty, sp0, cs0, left0);
    while left != [] && |cs'[necid].pts| > 1
      invariant Donated(sp, cs, empty, sp', cs', left)
      invariant |cs'| == |cs0| && forall k :: 0 <= k < |cs0| && |cs0[k].pts| <= 1 ==> |cs'[k].pts| <= 1
      invariant MembersInRange(sp', cs') && IdsBelow(left, |cs'|)
      invariant DrainOf(sp0, cs0, left0, necid) == DrainOf(sp', cs', left, necid)
      decreases |left|
    {
      DonatedStep(sp, cs, empty, sp', cs', left, necid);
      sp', cs' := Donate(sp', cs', necid, left[0]).0, Donate(sp', cs', necid, left[0]).1;
      left := left[1..];
      DonatedInRange(sp, cs, empty, sp', cs', left);
    }
  }

  /** A repair round's state names only points and clusters that exist. */
  lemma DonatedInRange(sp: seq<SPoint>, cs: seq<Centroid>, empty: seq<int>, sp': seq<SPoint>, cs': seq<Centroid>, left: seq<int>)
    requires Donated(sp, cs, empty, sp', cs', left)
    ensures MembersInRange(sp', cs') && IdsBelow(left, |cs'|)
  {
  }

  /** Every listed cluster holds at most one point. */
  ghost predicate DownToOne(cs: seq<Centroid>, ids: seq<int>)
  {
    forall j :: 0 <= j < |ids| ==> 0 <= ids[j] < |cs| && |cs[ids[j]].pts| <= 1
  }

  lemma DownToOneKept(cs: seq<Centroid>, cs': seq<Centroid>, ids: seq<int>)
    requires DownToOne(cs, ids) && |cs'| == |cs|
    requires forall k :: 0 <= k < |cs| && |cs[k].pts| <= 1 ==> |cs'[k].pts| <= 1
    ensures DownToOne(cs', ids)
  {
  }

  /** Every listed cluster held more than one point. */
  ghost predicate HeldMore(cs: seq<Centroid>, donors: seq<int>)
  {
    forall j :: 0 <= j < |donors| ==> 0 <= donors[j] < |cs| && |cs[donors[j]].pts| > 1
  }

  lemma HeldMorePush(cs: seq<Centroid>, donors: seq<int>, d: int)
    requires HeldMore(cs, donors) && 0 <= d < |cs| && |cs[d].pts| > 1
    ensures HeldMore(cs, [d] + donors)
  {
  }

  /** The fallback pass (lib/KMeans.cpp:314-338): each empty cluster still left takes the front
      member of the first cluster holding more than one point, and that cluster's id is pushed on
      the front of `donors`. Once no cluster holds more than one point the rest stay empty. */
  method FallbackPass(sp: seq<SPoint>, cs: seq<Centroid>, left: seq<int>)
    returns (sp': seq<SPoint>, cs': seq<Centroid>, donors: seq<int>)
    requires Partitioned(sp, cs) && IdsArePositions(cs)
    requires forall j :: 0 <= j < |left| ==> 0 <= left[j] < |cs| && cs[left[j]].pts == []
    requires Descending(left)
    ensures |donors| <= |left|
    ensures Donated(sp, cs, left, sp', cs', left[|donors|..])
    ensures HeldMore(cs, donors)
    ensures |donors| < |left| ==> forall k :: 0 <= k < |cs'| ==> |cs'[k].pts| <= 1
    ensures (sp', cs', left[|donors|..], donors) == FallbackOf(sp, cs, left)
  {
    sp', cs', donors := sp, cs, [];
    var rest := left;
    DonatedStart(sp, cs, left);
    DonatedInRange(sp, cs, left, sp', cs', rest);
    assert FallbackOf(sp, cs, left).3 + [] == FallbackOf(sp, cs, left).3;
    for t := 0 to |left|
      invariant |donors| <= t && |rest| == |left| - |donors|
      invariant Donated(sp, cs, left, sp', cs', rest)
      invariant HeldMore(cs, donors)
      invariant |donors| < t ==> forall k :: 0 <= k < |cs'| ==> |cs'[k].pts| <= 1
      invariant MembersInRange(sp', cs') && IdsBelow(rest, |cs'|)
      invariant var r := FallbackOf(sp', cs', rest); FallbackOf(sp, cs, left) == (r.0, r.1, r.2, r.3 + donors)
      invariant |donors| < t ==> FallbackOf(sp', cs', rest) == (sp', cs', rest, [])
    {
      var d := FirstDonor(cs');
      if d != -1 {
        assert |donors| == t;
        DonatedStep(sp, cs, left, sp', cs', rest, d);
        HadMore(cs, cs', VecsOf(sp), Values(left[..|left| - |rest|]), d);
        HeldMorePush(cs, donors, d);
        FallbackStep(sp', cs', rest, donors, d);
        sp', cs' := Donate(sp', cs', d, rest[0]).0, Donate(sp', cs', d, rest[0]).1;
        donors := [d] + donors;
        rest := rest[1..];
        DonatedInRange(sp, cs, left, sp', cs', rest);
      }
    }
    assert rest == left[|donors|..];
    assert FallbackOf(sp', cs', rest) == (sp', cs', rest, []);
    assert [] + donors == donors;
  }

  /** One fallback donation, seen from the reference: the donor joins the donors already
      pushed. */
  lemma FallbackStep(sp: seq<SPoint>, cs: seq<Centroid>, rest: seq<int>, donors: seq<int>, d: int)
    requires MembersInRange(sp, cs) && IdsBelow(rest, |cs|) && rest != []
    requires d == FirstDonorFrom(cs, 0) && d != -1
    ensures var (sp1, cs1) := Donate(sp, cs, d, rest[0]);
      MembersInRange(sp1, cs1) && |cs1| == |cs| && IdsBelow(rest[1..], |cs1|)
      && var r := FallbackOf(sp, cs, rest); var r1 := FallbackOf(sp1, cs1, rest[1..]);
         (r.0, r.1, r.2, r.3 + donors) == (r1.0, r1.1, r1.2, r1.3 + ([d] + donors))
  {
    DonateInRange(sp, cs, d, rest[0]);
    var (sp1, cs1) := Donate(sp, cs, d, rest[0]);
    var r1 := FallbackOf(sp1, cs1, rest[1..]);
    assert r1.3 + [d] + donors == r1.3 + ([d] + donors);
  }

  /** A cluster whose centroid is recomputed: the mean of its members' vectors and that mean's
      norm (lib/KMeans.cpp:345-352). */
  function Recomputed(sp: seq<SPoint>, c: Centroid): (r: Centroid)
    requires forall j :: 0 <= j < |c.pts| ==> c.pts[j] < |sp|
    ensures r.id == c.id && r.pts == c.pts
  {
    c.(vec := MeanOf(MemberVecs(sp, c.pts)), l2norm := NormOfMean(MemberVecs(sp, c.pts)))
  }

  /** Recomputes the centroid of every listed cluster, a cluster listed twice once more to the
      same value (lib/KMeans.cpp:345-352). */
  method RecomputeCentroids(sp: seq<SPoint>, cs: seq<Centroid>, list: seq<int>) returns (cs': seq<Centroid>)
    requires forall k, j :: 0 <= k < |cs| && 0 <= j < |cs[k].pts| ==> cs[k].pts[j] < |sp|
    requires forall j :: 0 <= j < |list| ==> 0 <= list[j] < |cs|
    ensures |cs'| == |cs|
    ensures forall k :: 0 <= k < |cs| ==> cs'[k] == if k in list then Recomputed(sp, cs[k]) else cs[k]
    ensures cs' == RecomputedAll(sp, cs, list)
  {
    cs' := cs;
    for j := 0 to |list|
      invariant |cs'| == |cs|
      invariant forall k :: 0 <= k < |cs| ==> cs'[k] == if k in list[..j] then Recomputed(sp, cs[k]) else cs[k]
    {
      var cid := list[j];
      cs' := cs'[cid := Recomputed(sp, cs'[cid])];
      assert list[..j + 1] == list[..j] + [cid];
    }
    assert list[..|list|] == list;
    assert cs' == RecomputedAll(sp, cs, list);
  }

  /** Two repair rounds, the second over what the first left empty, are one round. */
  lemma DonatedTrans(sp: seq<SPoint>, cs: seq<Centroid>, empty: seq<int>, sp1: seq<SPoint>, cs1: seq<Centroid>, left: seq<int>,
                     sp2: seq<SPoint>, cs2: seq<Centroid>, rest: seq<int>)
    requires Donated(sp, cs, empty, sp1, cs1, left) && Donated(sp1, cs1, left, sp2, cs2, rest)
    ensures Donated(sp, cs, empty, sp2, cs2, rest)
  {
    var e, l, r := |empty|, |left|, |rest|;
    assert VecsOf(sp1) == VecsOf(sp);
    EvolvedTrans(cs, cs1, cs2, VecsOf(sp), Values(empty[..e - l]), Values(left[..l - r]));
    SuffixOfSuffix(empty, left, rest);
  }

  /** A suffix of a suffix is a suffix, and what lies before it is what lay before each. */
  lemma SuffixOfSuffix(empty: seq<int>, left: seq<int>, rest: seq<int>)
    requires |left| <= |empty| && left == empty[|empty| - |left|..]
    requires |rest| <= |left| && rest == left[|left| - |rest|..]
    ensures rest == empty[|empty| - |rest|..]
    ensures Values(empty[..|empty| - |rest|]) == Values(empty[..|empty| - |left|]) + Values(left[..|left| - |rest|])
  {
    var e, l, r := |empty|, |left|, |rest|;
    assert empty[..e - r] == empty[..e - l] + left[..l - r];
  }

  /** A cluster that had members, or was repaired, has members after repairs. */
  lemma KeepsMembers(c0: seq<Centroid>, c1: seq<Centroid>, vecs: seq<SparseVec>, repaired: set<int>, k: int)
    requires Evolved(c0, c1, vecs, repaired) && 0 <= k < |c0|
    requires c0[k].pts != [] || k in repaired
    ensures |c1[k].pts| >= 1
  {
    assert ClusterEvolved(c0[k], c1[k], vecs, k in repaired);
  }

  /** One cluster after the update: its member list evolved by repairs; a repaired centroid is a
      copy of its single member's vector with norm 1, a recomputed one the mean of its members,
      and any other is unchanged. */
  ghost predicate SettledCluster(sp: seq<SPoint>, a: Centroid, b: Centroid, repaired: bool, recomputed: bool)
  {
    b.id == a.id
    && PtsEvolved(a.pts, b.pts, repaired)
    && (forall j :: 0 <= j < |b.pts| ==> b.pts[j] < |sp|)
    && if repaired then b.vec == CopyOf(sp[b.pts[0]].vec) && b.l2norm == UnitNorm
       else if recomputed then b.vec == MeanOf(MemberVecs(sp, b.pts)) && b.l2norm == NormOfMean(MemberVecs(sp, b.pts))
       else b.vec == a.vec && b.l2norm == a.l2norm
  }

  /** An empty cluster that was not repaired is still empty after the update. */
  lemma UnrepairedEmptyStays(sp: seq<SPoint>, c0: seq<Centroid>, c1: seq<Centroid>, repaired: set<int>, list: seq<int>,
                             recomputed: bool, k: int)
    requires Settled(sp, c0, c1, repaired, list, recomputed)
    requires 0 <= k < |c0| && k !in repaired && c0[k].pts == []
    ensures c1[k].pts == []
  {
    assert SettledCluster(sp, c0[k], c1[k], false, recomputed && k in list);
  }

  /** An update never reaches an empty cluster that is not among the touched ones: it is still
      empty afterwards. */
  lemma UpdateKeepsUntouched(sp: seq<SPoint>, cs: seq<Centroid>, ids: set<int>, threshold: int,
                             sp': seq<SPoint>, cs': seq<Centroid>, updated: int, repaired: set<int>, list: seq<int>, k: int)
    requires UpdateDone(sp, cs, ids, threshold, sp', cs', updated, repaired, list)
    requires 0 <= k < |cs| && k !in ids && cs[k].pts == []
    ensures cs'[k].pts == []
  {
    UnrepairedEmptyStays(sp, cs, cs', repaired, list, |list| >= threshold, k);
  }

  /** Every cluster after the update, where the listed ones are recomputed when `recomputed`. */
  ghost predicate Settled(sp: seq<SPoint>, c0: seq<Centroid>, c1: seq<Centroid>, repaired: set<int>, list: seq<int>, recomputed: bool)
  {
    |c1| == |c0|
    && forall k :: 0 <= k < |c0| ==> SettledCluster(sp, c0[k], c1[k], k in repaired, recomputed && k in list)
  }

  lemma Settles(sp: seq<SPoint>, cs: seq<Centroid>, cs2: seq<Centroid>, cs': seq<Centroid>, repaired: set<int>, list: seq<int>, recomputed: bool)
    requires Evolved(cs, cs2, VecsOf(sp), repaired)
    requires forall k, j :: 0 <= k < |cs2| && 0 <= j < |cs2[k].pts| ==> cs2[k].pts[j] < |sp|
    requires forall j :: 0 <= j < |list| ==> list[j] !in repaired
    requires |cs'| == |cs2|
    requires forall k :: 0 <= k < |cs2| ==> cs'[k] == if recomputed && k in list then Recomputed(sp, cs2[k]) else cs2[k]
    ensures Settled(sp, cs, cs', repaired, list, recomputed)
  {
    forall k | 0 <= k < |cs| ensures SettledCluster(sp, cs[k], cs'[k], k in repaired, recomputed && k in list) {
      assert ClusterEvolved(cs[k], cs2[k], VecsOf(sp), k in repaired);
    }
  }

  /** The clusters the update lists for recomputing: none was repaired and each has a member
      to divide by; each was touched or gave a point away; every touched cluster that kept
      members is listed; and the list is no longer than the touched set. */
  ghost predicate ListOutcome(cs: seq<Centroid>, cs': seq<Centroid>, ids: set<int>, repaired: set<int>, list: seq<int>)
    requires |cs'| == |cs|
  {
    (forall j :: 0 <= j < |list| ==>
      0 <= list[j] < |cs| && list[j] !in repaired && |cs'[list[j]].pts| >= 1
      && (list[j] in ids || |cs[list[j]].pts| > 1))
    && (forall k :: k in ids && 0 <= k < |cs| && cs[k].pts != [] ==> k in list)
    && |list| <= |ids|
  }

  /** Clusters that gave a point in the fallback held more than one point to begin with, and
      were not repaired by either round. */
  lemma DonorsHeldMore(cs: seq<Centroid>, cs1: seq<Centroid>, vecs: seq<SparseVec>, r1: set<int>, left: seq<int>, m: nat, donors: seq<int>)
    requires Evolved(cs, cs1, vecs, r1) && HeldMore(cs1, donors)
    requires m <= |left|
    requires forall j :: 0 <= j < |left| ==> 0 <= left[j] < |cs1| && cs1[left[j]].pts == []
    ensures forall j :: 0 <= j < |donors| ==> donors[j] !in r1 + Values(left[..m]) && |cs[donors[j]].pts| > 1
  {
    forall j | 0 <= j < |donors| ensures donors[j] !in r1 + Values(left[..m]) && |cs[donors[j]].pts| > 1 {
      HadMore(cs, cs1, vecs, r1, donors[j]);
      assert forall i :: 0 <= i < m ==> left[..m][i] == left[i];
    }
  }

  lemma ListHolds(sp: seq<SPoint>, cs: seq<Centroid>, cs': seq<Centroid>, ids: set<int>, repaired: set<int>, recomputed: bool,
                  donors: seq<int>, nonempty: seq<int>)
    requires Settled(sp, cs, cs', repaired, donors + nonempty, recomputed)
    requires forall x :: x in nonempty <==> x in ids && 0 <= x < |cs| && cs[x].pts != []
    requires forall x :: x in repaired ==> 0 <= x < |cs| && cs[x].pts == []
    requires forall j :: 0 <= j < |donors| ==> 0 <= donors[j] < |cs| && donors[j] !in repaired && |cs[donors[j]].pts| > 1
    requires |donors| + |nonempty| <= |ids|
    ensures ListOutcome(cs, cs', ids, repaired, donors + nonempty)
  {
    var list := donors + nonempty;
    forall j | 0 <= j < |list| ensures 0 <= list[j] < |cs| && list[j] !in repaired && |cs'[list[j]].pts| >= 1
      && (list[j] in ids || |cs[list[j]].pts| > 1)
    {
      var k := list[j];
      if j >= |donors| {
        assert k == nonempty[j - |donors|] && k in nonempty;
      }
      assert SettledCluster(sp, cs[k], cs'[k], false, recomputed && k in list);
    }
    forall k | k in ids && 0 <= k < |cs| && cs[k].pts != [] ensures k in list {
      var i :| 0 <= i < |nonempty| && nonempty[i] == k;
      assert list[|donors| + i] == k;
    }
  }

  /** Repairs the touched clusters left empty (lib/KMeans.cpp:289-339): the donor pass when some
      touched cluster kept members, then the fallback for those still empty. Returns the clusters
      that gave a point in the fallback. With no more clusters than points, none stays empty. */
  method RepairEmpty(sp: seq<SPoint>, cs: seq<Centroid>, empty: seq<int>, nonempty: seq<int>)
    returns (sp': seq<SPoint>, cs': seq<Centroid>, donors: seq<int>, ghost rest: seq<int>)
    requires Partitioned(sp, cs) && IdsArePositions(cs)
    requires forall j :: 0 <= j < |empty| ==> 0 <= empty[j] < |cs| && cs[empty[j]].pts == []
    requires Descending(empty)
    requires forall j :: 0 <= j < |nonempty| ==> 0 <= nonempty[j] < |cs|
    ensures Donated(sp, cs, empty, sp', cs', rest)
    ensures |donors| + |rest| <= |empty|
    ensures |cs| <= |sp| ==> rest == []
    ensures forall j :: 0 <= j < |donors| ==>
      0 <= donors[j] < |cs| && donors[j] !in Values(empty[..|empty| - |rest|]) && |cs[donors[j]].pts| > 1
    ensures (sp', cs', donors, rest) == RepairOf(sp, cs, empty, nonempty)
  {
    var sp1, cs1, left := sp, cs, empty;
    sp', cs', donors := sp, cs, [];
    DonatedStart(sp, cs, empty);
    DonatedInRange(sp, cs, empty, sp, cs, empty);
    if empty != [] {
      if nonempty != [] {
        sp1, cs1, left := DonorPass(sp, cs, empty, nonempty);
      }
      sp', cs' := sp1, cs1;
      if left != [] {
        DonatedDescends(sp, cs, empty, sp1, cs1, left);
        sp', cs', donors := FallbackPass(sp1, cs1, left);
      } else {
        DonatedStart(sp1, cs1, left);
      }
    } else {
      DonatedStart(sp1, cs1, left);
    }
    rest := left[|donors|..];
    assert (sp1, cs1, left) == DonorPassOf(sp, cs, empty, nonempty, 0);
    assert (sp', cs', rest, donors) == FallbackOf(sp1, cs1, left);
    RepairEmptyEnd(sp, cs, empty, sp1, cs1, left, sp', cs', donors);
  }

  lemma DonatedDescends(sp: seq<SPoint>, cs: seq<Centroid>, empty: seq<int>, sp': seq<SPoint>, cs': seq<Centroid>, left: seq<int>)
    requires Donated(sp, cs, empty, sp', cs', left) && Descending(empty)
    ensures Descending(left)
  {
    SuffixDescends(empty, left);
  }

  lemma SuffixDescends(s: seq<int>, t: seq<int>)
    requires Descending(s) && |t| <= |s| && t == s[|s| - |t|..]
    ensures Descending(t)
  {
    forall a, b | 0 <= a < b < |t| ensures t[a] > t[b] {
      assert t[a] == s[|s| - |t| + a] && t[b] == s[|s| - |t| + b];
    }
  }

  /** What the two rounds of RepairEmpty establish together. */
  lemma RepairEmptyEnd(sp: seq<SPoint>, cs: seq<Centroid>, empty: seq<int>, sp1: seq<SPoint>, cs1: seq<Centroid>, left: seq<int>,
                       sp': seq<SPoint>, cs': seq<Centroid>, donors: seq<int>)
    requires Donated(sp, cs, empty, sp1, cs1, left)
    requires |donors| <= |left|
    requires Donated(sp1, cs1, left, sp', cs', left[|donors|..])
    requires HeldMore(cs1, donors)
    requires |donors| < |left| ==> forall k :: 0 <= k < |cs'| ==> |cs'[k].pts| <= 1
    ensures var rest := left[|donors|..];
      Donated(sp, cs, empty, sp', cs', rest)
      && |donors| + |rest| <= |empty|
      && (|cs| <= |sp| ==> rest == [])
      && forall j :: 0 <= j < |donors| ==>
           0 <= donors[j] < |cs| && donors[j] !in Values(empty[..|empty| - |rest|]) && |cs[donors[j]].pts| > 1
  {
    var rest := left[|donors|..];
    DonatedTrans(sp, cs, empty, sp1, cs1, left, sp', cs', rest);
    if |cs| <= |sp| {
      NoneLeft(sp, cs, empty, sp', cs', rest);
    }
    DonorsKept(sp, cs, empty, cs1, left, donors);
  }

  /** With no more clusters than points, a round that stops early has repaired everything:
      an empty cluster would leave some cluster holding more than one point. */
  lemma NoneLeft(sp: seq<SPoint>, cs: seq<Centroid>, empty: seq<int>, sp': seq<SPoint>, cs': seq<Centroid>, rest: seq<int>)
    requires Donated(sp, cs, empty, sp', cs', rest)
    requires rest != [] ==> forall k :: 0 <= k < |cs'| ==> |cs'[k].pts| <= 1
    requires |cs| <= |sp|
    ensures rest == []
  {
    if rest != [] {
      DonorExists(sp', cs', rest[0]);
    }
  }

  /** The fallback donors, stated against the clusters before both rounds. */
  lemma DonorsKept(sp: seq<SPoint>, cs: seq<Centroid>, empty: seq<int>, cs1: seq<Centroid>, left: seq<int>, donors: seq<int>)
    requires |left| <= |empty| && left == empty[|empty| - |left|..]
    requires Evolved(cs, cs1, VecsOf(sp), Values(empty[..|empty| - |left|]))
    requires forall j :: 0 <= j < |left| ==> 0 <= left[j] < |cs1| && cs1[left[j]].pts == []
    requires HeldMore(cs1, donors) && |donors| <= |left|
    ensures forall j :: 0 <= j < |donors| ==>
      0 <= donors[j] < |cs| && donors[j] !in Values(empty[..|empty| - |left| + |donors|]) && |cs[donors[j]].pts| > 1
  {
    var r1 := Values(empty[..|empty| - |left|]);
    assert empty[..|empty| - |left| + |donors|] == empty[..|empty| - |left|] + left[..|donors|];
    assert Values(empty[..|empty| - |left| + |donors|]) == r1 + Values(left[..|donors|]);
    DonorsHeldMore(cs, cs1, VecsOf(sp), r1, left, |donors|, donors);
  }

  /** Changing centroid vectors keeps the partition and the ids. */
  lemma ListsKeepPartition(sp: seq<SPoint>, cs: seq<Centroid>, cs': seq<Centroid>)
    requires Partitioned(sp, cs) && IdsArePositions(cs)
    requires |cs'| == |cs| && forall k :: 0 <= k < |cs| ==> cs'[k].pts == cs[k].pts && cs'[k].id == cs[k].id
    ensures Partitioned(sp, cs') && IdsArePositions(cs')
  {
  }

  /** What updating the centroids leaves: the points, with the same vectors, are still
      partitioned by the clusters, numbered by position; `repaired` holds touched clusters that
      were empty, and when there are no more clusters than points it holds all of them; every
      cluster is settled as SettledCluster says, the listed ones recomputed exactly when the list
      reaches the threshold; the list is as ListOutcome says; and the count returned is 0 below the
      threshold and the list's length otherwise. */
  ghost predicate UpdateDone(sp: seq<SPoint>, cs: seq<Centroid>, ids: set<int>, threshold: int,
                             sp': seq<SPoint>, cs': seq<Centroid>, updated: int, repaired: set<int>, list: seq<int>)
  {
    Partitioned(sp', cs') && IdsArePositions(cs') && SameVectors(sp, sp')
    && repaired <= ids && (forall k :: k in repaired ==> 0 <= k < |cs| && cs[k].pts == [])
    && (|cs| <= |sp| ==> forall k :: k in ids && 0 <= k < |cs| && cs[k].pts == [] ==> k in repaired)
    && Settled(sp, cs, cs', repaired, list, |list| >= threshold)
    && ListOutcome(cs, cs', ids, repaired, list)
    && updated == if |list| < threshold then 0 else |list|
  }

  /** The count an update returns is 0, or at least the threshold and at most the number of
      touched clusters. */
  lemma UpdateCount(sp: seq<SPoint>, cs: seq<Centroid>, ids: set<int>, threshold: int,
                    sp': seq<SPoint>, cs': seq<Centroid>, updated: int, repaired: set<int>, list: seq<int>)
    requires UpdateDone(sp, cs, ids, threshold, sp', cs', updated, repaired, list)
    ensures updated == 0 || threshold <= updated <= |ids|
  {
  }

  /** Updating the centroids after a pass (lib/KMeans.cpp:275-355): the touched clusters are
      split into those left empty and the others; the empty ones are repaired, first from the
      others and then from any cluster holding more than one point; the clusters that gave a point
      in the fallback are listed with the touched ones that kept members; if the list is shorter
      than the threshold nothing is recomputed and 0 is returned, otherwise every listed centroid
      becomes the mean of its members and the list's length is returned. When there are no more
      clusters than points, every touched empty cluster is repaired. */
  method UpdateCentroids(sp: seq<SPoint>, cs: seq<Centroid>, ids: set<int>, threshold: int)
    returns (sp': seq<SPoint>, cs': seq<Centroid>, updated: int, ghost repaired: set<int>, list: seq<int>,
             empty: seq<int>, nonempty: seq<int>)
    requires Partitioned(sp, cs) && IdsArePositions(cs)
    requires forall x :: x in ids ==> 0 <= x < |cs|
    ensures UpdateDone(sp, cs, ids, threshold, sp', cs', updated, repaired, list)
    ensures TouchedSplit(cs, ids, empty, nonempty) && MembersInRange(sp, cs)
    ensures (sp', cs', updated, list) == UpdateOf(sp, cs, empty, nonempty, threshold)
  {
    empty, nonempty := SplitTouched(cs, ids);
    var cs2, donors;
    ghost var rest;
    sp', cs2, donors, rest := RepairEmpty(sp, cs, empty, nonempty);
    repaired := Values(empty[..|empty| - |rest|]);
    cs', updated, list := RecomputeListed(sp, cs2, donors, nonempty, threshold);
    UpdateDoneHolds(sp, cs, ids, threshold, empty, nonempty, sp', cs2, donors, rest, cs', updated, list);
    UpdateOfMatches(sp, cs, empty, nonempty, threshold, sp', cs2, donors, rest, cs', updated, list);
  }

  /** Lists the fallback donors ahead of the touched clusters that kept members; below the
      threshold returns 0 and recomputes nothing, otherwise recomputes every listed centroid and
      returns the list's length (lib/KMeans.cpp:341-354). */
  method RecomputeListed(sp: seq<SPoint>, cs: seq<Centroid>, donors: seq<int>, nonempty: seq<int>, threshold: int)
    returns (cs': seq<Centroid>, updated: int, list: seq<int>)
    requires MembersInRange(sp, cs) && IdsBelow(donors, |cs|) && IdsBelow(nonempty, |cs|)
    ensures list == donors + nonempty
    ensures updated == if |list| < threshold then 0 else |list|
    ensures cs' == if |list| < threshold then cs else RecomputedAll(sp, cs, list)
  {
    list := donors + nonempty;
    updated := |list|;
    if updated < threshold {
      updated := 0;
      cs' := cs;
    } else {
      cs' := RecomputeCentroids(sp, cs, list);
    }
  }

  /** What the repairs and the recomputing establish together. */
  lemma UpdateDoneHolds(sp: seq<SPoint>, cs: seq<Centroid>, ids: set<int>, threshold: int,
                        empty: seq<int>, nonempty: seq<int>, sp': seq<SPoint>, cs2: seq<Centroid>, donors: seq<int>, rest: seq<int>,
                        cs': seq<Centroid>, updated: int, list: seq<int>)
    requires Partitioned(sp, cs) && IdsArePositions(cs)
    requires TouchedSplit(cs, ids, empty, nonempty) && |empty| + |nonempty| == |ids|
    requires Donated(sp, cs, empty, sp', cs2, rest)
    requires |donors| + |rest| <= |empty|
    requires |cs| <= |sp| ==> rest == []
    requires forall j :: 0 <= j < |donors| ==>
      0 <= donors[j] < |cs| && donors[j] !in Values(empty[..|empty| - |rest|]) && |cs[donors[j]].pts| > 1
    requires MembersInRange(sp, cs2)
    requires list == donors + nonempty
    requires updated == if |list| < threshold then 0 else |list|
    requires cs' == if |list| < threshold then cs2 else RecomputedAll(sp, cs2, list)
    ensures UpdateDone(sp, cs, ids, threshold, sp', cs', updated, Values(empty[..|empty| - |rest|]), list)
  {
    assert forall j :: 0 <= j < |empty| ==> empty[j] in empty;
    assert forall j :: 0 <= j < |nonempty| ==> nonempty[j] in nonempty;
    var repaired := Values(empty[..|empty| - |rest|]);
    if |cs| <= |sp| {
      assert empty[..|empty|] == empty;
    }
    var recomputed := |list| >= threshold;
    ListsKeepPartition(sp', cs2, cs');
    Settles(sp, cs, cs2, cs', repaired, list, recomputed);
    ListHolds(sp, cs, cs', ids, repaired, recomputed, donors, nonempty);
  }

  lemma UpdateOfMatches(sp: seq<SPoint>, cs: seq<Centroid>, empty: seq<int>, nonempty: seq<int>, threshold: int,
                        sp': seq<SPoint>, cs2: seq<Centroid>, donors: seq<int>, rest: seq<int>,
                        cs': seq<Centroid>, updated: int, list: seq<int>)
    requires MembersInRange(sp, cs) && IdsBelow(empty, |cs|) && IdsBelow(nonempty, |cs|)
    requires (sp', cs2, donors, rest) == RepairOf(sp, cs, empty, nonempty)
    requires list == donors + nonempty
    requires updated == if |list| < threshold then 0 else |list|
    requires cs' == if |list| < threshold then cs2 else RecomputedAll(sp, cs2, list)
    ensures (sp', cs', updated, list) == UpdateOf(sp, cs, empty, nonempty, threshold)
  {
  }

  /** Two points in cluster 0 and an empty touched cluster 1: the fallback gives one point of
      cluster 0 to cluster 1, and cluster 0, listed as its donor, is the one centroid recomputed
      and counted. */
  lemma FallbackDonorCounted(v: SparseVec)
    ensures var sp := [SPoint(0, v, 0), SPoint(1, v, 0)];
      var cs := [Centroid(0, [1, 0], CopyOf(v), UnitNorm), Centroid(1, [], CopyOf(v), UnitNorm)];
      MembersInRange(sp, cs)
      && UpdateOf(sp, cs, [1], [], 0).2 == 1 && UpdateOf(sp, cs, [1], [], 0).3 == [0]
  {
    var sp := [SPoint(0, v, 0), SPoint(1, v, 0)];
    var cs := [Centroid(0, [1, 0], CopyOf(v), UnitNorm), Centroid(1, [], CopyOf(v), UnitNorm)];
    FallbackDonorListed(sp, cs);
  }

  /** The repairs of that example: one fallback donation from cluster 0. */
  lemma FallbackDonorListed(sp: seq<SPoint>, cs: seq<Centroid>)
    requires |sp| == 2 && |cs| == 2 && cs[0].pts == [1, 0] && cs[1].pts == []
    ensures MembersInRange(sp, cs) && RepairOf(sp, cs, [1], []).2 == [0]
  {
    assert MembersInRange(sp, cs) by {
      forall k, j | 0 <= k < |cs| && 0 <= j < |cs[k].pts|
        ensures cs[k].pts[j] < |sp|
      {
        assert k == 0;
      }
    }
    assert FirstDonorFrom(cs, 0) == 0;
    SingleFallback(sp, cs, 1);
    assert DonorPassOf(sp, cs, [1], [], 0) == (sp, cs, [1]);
  }

  /** One empty cluster left for the fallback, and a cluster with points to spare: the first
      such cluster is the one donor. */
  lemma SingleFallback(sp: seq<SPoint>, cs: seq<Centroid>, e: int)
    requires MembersInRange(sp, cs) && 0 <= e < |cs| && FirstDonorFrom(cs, 0) != -1
    ensures FallbackOf(sp, cs, [e]).3 == [FirstDonorFrom(cs, 0)]
  {
    var d := FirstDonorFrom(cs, 0);
    DonateInRange(sp, cs, d, e);
    var (sp1, cs1) := Donate(sp, cs, d, e);
    assert [e][1..] == [];
    assert FallbackOf(sp1, cs1, []).3 == [];
  }
}
