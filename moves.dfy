/** What one assignment pass records (lib/KMeans.cpp:239-267): the member lists it rebuilds, the
    points it moves, the clusters it touches and the objective value it sums. Every function
    here reads a prefix of the points, so each pass step extends it by one point. */
module Moves {
  import opened KMeansTypes
  import opened Nearest

  /** Number of positions where the two field lists differ: the points a pass moved. */
  function CountDiff(before: seq<int>, after: seq<int>): nat
    requires |before| == |after|
  {
    if |before| == 0 then 0
    else
      var n := |before| - 1;
      CountDiff(before[..n], after[..n]) + (if before[n] != after[n] then 1 else 0)
  }

  /** A pass moved no point exactly when no field changed. */
  lemma {:induction false} CountDiffZero(before: seq<int>, after: seq<int>)
    requires |before| == |after|
    ensures CountDiff(before, after) == 0 <==> before == after
    ensures CountDiff(before, after) <= |before|
  {
    if |before| > 0 {
      var n := |before| - 1;
      CountDiffZero(before[..n], after[..n]);
      if before[..n] == after[..n] && before[n] == after[n] {
        assert before == before[..n] + [before[n]];
        assert after == after[..n] + [after[n]];
      }
      if before == after {
        assert before[..n] == after[..n];
      }
    }
  }

  /** Ids a pass marks as touched: the new id of every moved point, and its old id unless it
      was unassigned. */
  function Touched(before: seq<int>, after: seq<int>): set<int>
    requires |before| == |after|
  {
    if |before| == 0 then {}
    else
      var n := |before| - 1;
      Touched(before[..n], after[..n])
        + (if before[n] != after[n] then {after[n]} + (if before[n] != Unassigned then {before[n]} else {}) else {})
  }

  /** Membership in the touched set, stated point by point. */
  lemma {:induction false} TouchedMembers(before: seq<int>, after: seq<int>, x: int)
    requires |before| == |after|
    ensures x in Touched(before, after) <==>
      exists i :: 0 <= i < |before| && before[i] != after[i] && (x == after[i] || (x == before[i] && x != Unassigned))
  {
    if |before| > 0 {
      var n := |before| - 1;
      TouchedMembers(before[..n], after[..n], x);
      if x in Touched(before, after) && x !in Touched(before[..n], after[..n]) {
        assert before[n] != after[n] && (x == after[n] || (x == before[n] && x != Unassigned));
      }
      if exists i :: 0 <= i < |before| && before[i] != after[i] && (x == after[i] || (x == before[i] && x != Unassigned)) {
        var i :| 0 <= i < |before| && before[i] != after[i] && (x == after[i] || (x == before[i] && x != Unassigned));
        if i < n {
          assert before[..n][i] == before[i] && after[..n][i] == after[i];
        }
      }
    }
  }

  /** An id that no field names, before or after, is not touched. */
  lemma UnnamedUntouched(before: seq<int>, after: seq<int>, k: int)
    requires |before| == |after|
    requires forall i :: 0 <= i < |before| ==> before[i] != k && after[i] != k
    ensures k !in Touched(before, after)
  {
    TouchedMembers(before, after, k);
  }

  /** No point moved exactly when nothing was touched. */
  lemma TouchedEmptyIffNoMove(before: seq<int>, after: seq<int>)
    requires |before| == |after|
    ensures Touched(before, after) == {} <==> CountDiff(before, after) == 0
  {
    CountDiffZero(before, after);
    if CountDiff(before, after) != 0 {
      var i :| 0 <= i < |before| && before[i] != after[i];
      TouchedMembers(before, after, after[i]);
    } else {
      forall x ensures x !in Touched(before, after) {
        TouchedMembers(before, after, x);
      }
    }
  }

  /** When the old fields are unassigned or below K and the new ones below K, every touched id
      is a valid position below K. */
  lemma TouchedInRange(before: seq<int>, after: seq<int>, K: int)
    requires |before| == |after|
    requires forall i :: 0 <= i < |before| ==> before[i] == Unassigned || 0 <= before[i] < K
    requires forall i :: 0 <= i < |after| ==> 0 <= after[i] < K
    ensures forall x :: x in Touched(before, after) ==> 0 <= x < K
  {
    forall x | x in Touched(before, after) ensures 0 <= x < K {
      TouchedMembers(before, after, x);
    }
  }

  /** Extending both field prefixes by position i adds that position's move, touched ids and
      membership. */
  lemma PassStep(before: seq<int>, after: seq<int>, i: int)
    requires |before| == |after| && 0 <= i < |after|
    ensures CountDiff(before[..i + 1], after[..i + 1])
      == CountDiff(before[..i], after[..i]) + (if before[i] != after[i] then 1 else 0)
    ensures Touched(before[..i + 1], after[..i + 1])
      == Touched(before[..i], after[..i])
         + (if before[i] != after[i] then {after[i]} + (if before[i] != Unassigned then {before[i]} else {}) else {})
    ensures forall k :: MembersRev(after[..i + 1], k) == (if after[i] == k then [i] else []) + MembersRev(after[..i], k)
  {
    assert before[..i + 1][..i] == before[..i];
    assert after[..i + 1][..i] == after[..i];
  }

  /** The member list a pass builds for cluster k: every point whose field is k, latest first
      (each point is pushed on the front). */
  function MembersRev(f: seq<int>, k: int): seq<nat>
  {
    if |f| == 0 then []
    else
      var n := |f| - 1;
      (if f[n] == k then [n] else []) + MembersRev(f[..n], k)
  }

  /** The list holds exactly the points whose field is k. */
  lemma {:induction false} MembersRevHolds(f: seq<int>, k: int, j: int)
    ensures j in MembersRev(f, k) <==> 0 <= j < |f| && f[j] == k
  {
    if |f| > 0 {
      var n := |f| - 1;
      MembersRevHolds(f[..n], k, j);
      if 0 <= j < n {
        assert f[..n][j] == f[j];
      }
    }
  }

  /** A cluster that no field names gets an empty list. */
  lemma {:induction false} MembersRevNone(f: seq<int>, k: int)
    requires forall i :: 0 <= i < |f| ==> f[i] != k
    ensures MembersRev(f, k) == []
  {
    if |f| > 0 {
      var n := |f| - 1;
      assert forall i :: 0 <= i < n ==> f[..n][i] == f[i];
      MembersRevNone(f[..n], k);
    }
  }

  /** The list is strictly decreasing, so it repeats no point. */
  lemma {:induction false} MembersRevDecreasing(f: seq<int>, k: int)
    ensures forall a, b :: 0 <= a < b < |MembersRev(f, k)| ==> MembersRev(f, k)[a] > MembersRev(f, k)[b]
  {
    if |f| > 0 {
      var n := |f| - 1;
      var rest := MembersRev(f[..n], k);
      MembersRevDecreasing(f[..n], k);
      forall x | x in rest ensures x < n {
        MembersRevHolds(f[..n], k, x);
      }
      var head: seq<nat> := if f[n] == k then [n] else [];
      assert MembersRev(f, k) == head + rest;
      forall a, b | 0 <= a < b < |head + rest|
        ensures (head + rest)[a] > (head + rest)[b]
      {
        if a < |head| {
          assert (head + rest)[b] == rest[b - 1] && rest[b - 1] in rest;
        } else {
          assert (head + rest)[a] == rest[a - |head|];
        }
      }
    }
  }

  /** A point's term of the objective: its dissimilarity to the centroid its field names. */
  function Term(p: SPoint, cs: seq<Centroid>, dis: Dissimilarity): real
    requires 0 <= p.centroid < |cs|
  {
    dis(p.vec, cs[p.centroid].vec, cs[p.centroid].l2norm) as real
  }

  /** Sum of the terms of the first n points. */
  function ObjectiveOf(sp: seq<SPoint>, n: nat, cs: seq<Centroid>, dis: Dissimilarity): real
    requires n <= |sp|
    requires forall i :: 0 <= i < n ==> 0 <= sp[i].centroid < |cs|
  {
    if n == 0 then 0.0 else ObjectiveOf(sp, n - 1, cs, dis) + Term(sp[n - 1], cs, dis)
  }

  /** The objective over the first n points depends on those points only. */
  lemma {:induction false} ObjectiveAgrees(sp: seq<SPoint>, sp': seq<SPoint>, n: nat, cs: seq<Centroid>, dis: Dissimilarity)
    requires n <= |sp| && n <= |sp'|
    requires forall i :: 0 <= i < n ==> sp'[i] == sp[i] && 0 <= sp[i].centroid < |cs|
    ensures ObjectiveOf(sp', n, cs, dis) == ObjectiveOf(sp, n, cs, dis)
  {
    if n > 0 {
      ObjectiveAgrees(sp, sp', n - 1, cs, dis);
    }
  }

  /** n copies of x added up. */
  function Times(n: nat, x: real): real
  {
    if n == 0 then 0.0 else Times(n - 1, x) + x
  }

  /** When every term is within tol of the other assignment's, the objective is within n times
      tol of the other's. */
  lemma {:induction false} ObjectiveBound(sp: seq<SPoint>, other: seq<SPoint>, n: nat, cs: seq<Centroid>, dis: Dissimilarity, tol: real)
    requires n <= |sp| && n <= |other|
    requires forall i :: 0 <= i < n ==> 0 <= sp[i].centroid < |cs| && 0 <= other[i].centroid < |cs|
    requires forall i :: 0 <= i < n ==> Term(sp[i], cs, dis) <= Term(other[i], cs, dis) + tol
    ensures ObjectiveOf(sp, n, cs, dis) <= ObjectiveOf(other, n, cs, dis) + Times(n, tol)
  {
    if n > 0 {
      ObjectiveBound(sp, other, n - 1, cs, dis, tol);
    }
  }

  /** The assignment a pass chooses has an objective within n times tol of any other assignment
      of the same n points to the same centroids (exactly minimal when no scan stops early). */
  lemma PassObjectiveIsMinimal(sp: seq<SPoint>, other: seq<SPoint>, n: nat, cs: seq<Centroid>, dis: Dissimilarity, tol: real)
    requires tol >= 0.0
    requires n <= |sp| && n <= |other|
    requires forall i :: 0 <= i < n ==> other[i].vec == sp[i].vec && 0 <= other[i].centroid < |cs|
    requires forall i :: 0 <= i < n ==> 0 <= sp[i].centroid < |cs|
    requires forall i :: 0 <= i < n ==> IsNearest(Dissims(sp[i].vec, cs, dis), tol, sp[i].centroid)
    ensures ObjectiveOf(sp, n, cs, dis) <= ObjectiveOf(other, n, cs, dis) + Times(n, tol)
  {
    forall i | 0 <= i < n ensures Term(sp[i], cs, dis) <= Term(other[i], cs, dis) + tol {
      StepIsAlmostMinimal(sp[i], other[i], cs, dis, tol);
    }
    ObjectiveBound(sp, other, n, cs, dis, tol);
  }

  /** One point's term is within tol of any other choice for that point. */
  lemma StepIsAlmostMinimal(p: SPoint, q: SPoint, cs: seq<Centroid>, dis: Dissimilarity, tol: real)
    requires tol >= 0.0 && p.vec == q.vec
    requires 0 <= p.centroid < |cs| && 0 <= q.centroid < |cs|
    requires IsNearest(Dissims(p.vec, cs, dis), tol, p.centroid)
    ensures Term(p, cs, dis) <= Term(q, cs, dis) + tol
  {
    NearestIsAlmostMinimal(Dissims(p.vec, cs, dis), tol, p.centroid, q.centroid);
  }

}
