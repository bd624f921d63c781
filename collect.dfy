/** What collecting the solution builds (lib/KMeans.cpp:162-172): for every centroid in order,
    the ids of its members pushed on the front of a fresh list, the point-to-cluster map filled
    member by member, and the list pushed on the front of the clusters list. */
module Collection {
  import opened KMeansTypes
  import opened Membership

  /** The ids of the listed points, last listed first. */
  function RevIds(sp: seq<SPoint>, list: seq<nat>): (r: seq<int>)
    requires forall j :: 0 <= j < |list| ==> list[j] < |sp|
    ensures |r| == |list|
    ensures forall j :: 0 <= j < |list| ==> r[j] == sp[list[|list| - 1 - j]].id
  {
    if |list| == 0 then []
    else
      var n := |list| - 1;
      var rest := RevIds(sp, list[..n]);
      [sp[list[n]].id] + rest
  }

  /** The map m after every listed point's id is mapped to v, in list order. */
  function Record(m: map<int, int>, sp: seq<SPoint>, list: seq<nat>, v: int): map<int, int>
    requires forall j :: 0 <= j < |list| ==> list[j] < |sp|
  {
    if |list| == 0 then m
    else
      var n := |list| - 1;
      Record(m, sp, list[..n], v)[sp[list[n]].id := v]
  }

  /** Recording adds exactly the listed ids, all mapped to v, and keeps m elsewhere. */
  lemma {:induction false} RecordSpec(m: map<int, int>, sp: seq<SPoint>, list: seq<nat>, v: int, x: int)
    requires forall j :: 0 <= j < |list| ==> list[j] < |sp|
    ensures x in Record(m, sp, list, v) <==> x in m || exists j :: 0 <= j < |list| && sp[list[j]].id == x
    ensures (exists j :: 0 <= j < |list| && sp[list[j]].id == x) ==> Record(m, sp, list, v)[x] == v
    ensures x in m && (forall j :: 0 <= j < |list| ==> sp[list[j]].id != x) ==> Record(m, sp, list, v)[x] == m[x]
  {
    if |list| > 0 {
      var n := |list| - 1;
      var front := list[..n];
      assert forall j :: 0 <= j < n ==> front[j] == list[j];
      RecordSpec(m, sp, front, v, x);
      if exists j :: 0 <= j < |list| && sp[list[j]].id == x {
        var j :| 0 <= j < |list| && sp[list[j]].id == x;
        if j < n && sp[list[n]].id != x {
          assert sp[front[j]].id == x;
        }
      }
    }
  }

  /** The point-to-cluster map after the first k clusters are recorded. */
  function Recorded(sp: seq<SPoint>, cs: seq<Centroid>, k: nat): map<int, int>
    requires k <= |cs|
    requires forall c, j :: 0 <= c < |cs| && 0 <= j < |cs[c].pts| ==> cs[c].pts[j] < |sp|
  {
    if k == 0 then map[] else Record(Recorded(sp, cs, k - 1), sp, cs[k - 1].pts, k - 1)
  }

  ghost predicate DistinctIds(sp: seq<SPoint>)
  {
    forall a, b :: 0 <= a < b < |sp| ==> sp[a].id != sp[b].id
  }

  /** After k clusters, a point's id is mapped exactly when its field is below k, and then to its
      field. */
  lemma {:induction false} RecordedValue(sp: seq<SPoint>, cs: seq<Centroid>, k: nat, i: int)
    requires Partitioned(sp, cs) && DistinctIds(sp)
    requires k <= |cs| && 0 <= i < |sp|
    ensures sp[i].centroid < k ==> sp[i].id in Recorded(sp, cs, k) && Recorded(sp, cs, k)[sp[i].id] == sp[i].centroid
  {
    if k > 0 {
      if sp[i].centroid == k - 1 {
        RecordedLast(sp, cs, k, i);
      } else if sp[i].centroid < k - 1 {
        RecordedValue(sp, cs, k - 1, i);
        RecordedEarlier(sp, cs, k, i);
      }
    }
  }

  lemma RecordedLast(sp: seq<SPoint>, cs: seq<Centroid>, k: nat, i: int)
    requires Partitioned(sp, cs)
    requires 0 < k <= |cs| && 0 <= i < |sp| && sp[i].centroid == k - 1
    ensures sp[i].id in Recorded(sp, cs, k) && Recorded(sp, cs, k)[sp[i].id] == k - 1
  {
    var list := cs[k - 1].pts;
    IdListed(sp, list, i);
    RecordSpec(Recorded(sp, cs, k - 1), sp, list, k - 1, sp[i].id);
  }

  /** A listed point's id is the id of some entry of the list. */
  lemma IdListed(sp: seq<SPoint>, list: seq<nat>, i: nat)
    requires forall j :: 0 <= j < |list| ==> list[j] < |sp|
    requires i < |sp| && i in list
    ensures exists j :: 0 <= j < |list| && sp[list[j]].id == sp[i].id
  {
    var j :| 0 <= j < |list| && list[j] == i;
    assert sp[list[j]].id == sp[i].id;
  }

  lemma RecordedEarlier(sp: seq<SPoint>, cs: seq<Centroid>, k: nat, i: int)
    requires Partitioned(sp, cs) && DistinctIds(sp)
    requires 0 < k <= |cs| && 0 <= i < |sp| && sp[i].centroid != k - 1
    requires sp[i].id in Recorded(sp, cs, k - 1)
    ensures sp[i].id in Recorded(sp, cs, k) && Recorded(sp, cs, k)[sp[i].id] == Recorded(sp, cs, k - 1)[sp[i].id]
  {
    var list := cs[k - 1].pts;
    forall j | 0 <= j < |list| ensures sp[list[j]].id != sp[i].id {
      assert sp[list[j]].centroid == k - 1;
    }
    RecordSpec(Recorded(sp, cs, k - 1), sp, list, k - 1, sp[i].id);
  }

  /** Every key of the map is the id of some point. */
  lemma {:induction false} RecordedKeys(sp: seq<SPoint>, cs: seq<Centroid>, k: nat, x: int)
    requires Partitioned(sp, cs)
    requires k <= |cs|
    requires x in Recorded(sp, cs, k)
    ensures exists i :: 0 <= i < |sp| && sp[i].id == x
  {
    var list := cs[k - 1].pts;
    RecordSpec(Recorded(sp, cs, k - 1), sp, list, k - 1, x);
    if x in Recorded(sp, cs, k - 1) {
      RecordedKeys(sp, cs, k - 1, x);
    } else {
      var j :| 0 <= j < |list| && sp[list[j]].id == x;
      assert sp[list[j]].id == x;
    }
  }

  /** Collects one cluster's list (lib/KMeans.cpp:164-170): walks its members in order, pushing
      each id on the front of a fresh list and mapping it to v. */
  method CollectCluster(sp: seq<SPoint>, list: seq<nat>, pc0: map<int, int>, v: int) returns (ids: seq<int>, pc: map<int, int>)
    requires forall j :: 0 <= j < |list| ==> list[j] < |sp|
    ensures ids == RevIds(sp, list)
    ensures pc == Record(pc0, sp, list, v)
  {
    ids, pc := [], pc0;
    for j := 0 to |list|
      invariant ids == RevIds(sp, list[..j])
      invariant pc == Record(pc0, sp, list[..j], v)
    {
      assert list[..j + 1][..j] == list[..j];
      ids := [sp[list[j]].id] + ids;
      pc := pc[sp[list[j]].id := v];
    }
    assert list[..|list|] == list;
  }

  /** Collects every cluster in order (lib/KMeans.cpp:160-172), each list pushed on the front of
      the clusters list, so position r holds cluster |cs| - 1 - r; ids map to the cluster's id. */
  method CollectAll(sp: seq<SPoint>, cs: seq<Centroid>) returns (cl: seq<seq<int>>, pc: map<int, int>)
    requires IdsArePositions(cs)
    requires forall c, j :: 0 <= c < |cs| && 0 <= j < |cs[c].pts| ==> cs[c].pts[j] < |sp|
    ensures pc == Recorded(sp, cs, |cs|)
    ensures |cl| == |cs| && forall r :: 0 <= r < |cs| ==> cl[r] == RevIds(sp, cs[|cs| - 1 - r].pts)
  {
    cl, pc := [], map[];
    for k := 0 to |cs|
      invariant pc == Recorded(sp, cs, k)
      invariant |cl| == k && forall r :: 0 <= r < k ==> cl[r] == RevIds(sp, cs[k - 1 - r].pts)
    {
      var ids;
      ids, pc := CollectCluster(sp, cs[k].pts, pc, cs[k].id);
      cl := [ids] + cl;
    }
  }

  /** After every cluster is recorded, the map sends each point's id to its field, and has no
      other keys. */
  lemma RecordedAll(sp: seq<SPoint>, cs: seq<Centroid>)
    requires Partitioned(sp, cs) && DistinctIds(sp)
    ensures forall i :: 0 <= i < |sp| ==> sp[i].id in Recorded(sp, cs, |cs|) && Recorded(sp, cs, |cs|)[sp[i].id] == sp[i].centroid
    ensures forall x :: x in Recorded(sp, cs, |cs|) ==> exists i :: 0 <= i < |sp| && sp[i].id == x
  {
    forall i | 0 <= i < |sp| ensures sp[i].id in Recorded(sp, cs, |cs|) && Recorded(sp, cs, |cs|)[sp[i].id] == sp[i].centroid {
      RecordedValue(sp, cs, |cs|, i);
    }
    forall x | x in Recorded(sp, cs, |cs|) ensures exists i :: 0 <= i < |sp| && sp[i].id == x {
      RecordedKeys(sp, cs, |cs|, x);
    }
  }

  /** Collects the solution (lib/KMeans.cpp:160-172): position r of the clusters list holds the
      ids of cluster |cs| - 1 - r, last member first; the map sends every point's id to its
      cluster and has no other keys. */
  method CollectSolution(sp: seq<SPoint>, cs: seq<Centroid>) returns (cl: seq<seq<int>>, pc: map<int, int>)
    requires Partitioned(sp, cs) && IdsArePositions(cs) && DistinctIds(sp)
    ensures |cl| == |cs| && forall r :: 0 <= r < |cs| ==> cl[r] == RevIds(sp, cs[|cs| - 1 - r].pts)
    ensures forall i :: 0 <= i < |sp| ==> sp[i].id in pc && pc[sp[i].id] == sp[i].centroid
    ensures forall x :: x in pc ==> exists i :: 0 <= i < |sp| && sp[i].id == x
  {
    cl, pc := CollectAll(sp, cs);
    RecordedAll(sp, cs);
  }
}
