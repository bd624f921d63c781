/** The K-means engine (lib/KMeans.hpp:27-138, lib/KMeans.cpp): a point store, the vectorised
    points, the centroids with their member lists, and the clustering loop over them. */
module Engine {
  import opened KMeansTypes
  import opened Nearest
  import opened Moves
  import opened Membership
  import opened Seeding
  import opened Collection
  import opened Evaluation
  import opened Repair

  /** The L2-normalised sparse vector of a stored point, of length dim + 1. */
  function VectorOf(p: Point, dim: int): SparseVec
  {
    Normalized(dim + 1, p.attribute, p.value)
  }

  /** sp holds one vector per stored point, each under its own id. */
  ghost predicate IsVectorization(sp: seq<SPoint>, store: map<int, Point>, dim: int)
  {
    |sp| == |store|
    && (forall i :: 0 <= i < |sp| ==> sp[i].id in store && sp[i].vec == VectorOf(store[sp[i].id], dim))
    && DistinctIds(sp)
  }

  /** The ids of a point list, in order. */
  function IdsOf(sp: seq<SPoint>): (ids: seq<int>)
    ensures |ids| == |sp| && forall i :: 0 <= i < |sp| ==> ids[i] == sp[i].id
  {
    seq(|sp|, i requires 0 <= i < |sp| => sp[i].id)
  }

  /** The ids of a member list. */
  function MemberIds(sp: seq<SPoint>, list: seq<nat>): (ids: seq<int>)
    requires forall j :: 0 <= j < |list| ==> list[j] < |sp|
    ensures |ids| == |list| && forall j :: 0 <= j < |list| ==> ids[j] == sp[list[j]].id
  {
    seq(|list|, j requires 0 <= j < |list| => sp[list[j]].id)
  }

  /** The centroids seeded from the chosen point indices: the last chosen first, numbered from
      base upwards, each a copy of its point's vector with unit norm. */
  function Seeded(sp: seq<SPoint>, chosen: seq<int>, base: int): (cs: seq<Centroid>)
    requires forall m :: 0 <= m < |chosen| ==> 0 <= chosen[m] < |sp|
    ensures |cs| == |chosen|
    ensures forall k :: 0 <= k < |cs| ==>
      cs[k] == Centroid(base + k, [], CopyOf(sp[chosen[|chosen| - 1 - k]].vec), UnitNorm)
  {
    if |chosen| == 0 then []
    else
      var n := |chosen| - 1;
      [Centroid(base, [], CopyOf(sp[chosen[n]].vec), UnitNorm)] + Seeded(sp, chosen[..n], base + 1)
  }

  /** The ids of the chosen points, the last chosen first. */
  function SeededIds(sp: seq<SPoint>, chosen: seq<int>): (ids: seq<int>)
    requires forall m :: 0 <= m < |chosen| ==> 0 <= chosen[m] < |sp|
    ensures |ids| == |chosen|
    ensures forall k :: 0 <= k < |ids| ==> ids[k] == sp[chosen[|chosen| - 1 - k]].id
  {
    if |chosen| == 0 then []
    else
      var n := |chosen| - 1;
      [sp[chosen[n]].id] + SeededIds(sp, chosen[..n])
  }

  /** Choosing one more index puts its centroid and its id in front. */
  lemma SeededStep(sp: seq<SPoint>, chosen: seq<int>, d: int, base: int)
    requires forall m :: 0 <= m < |chosen| ==> 0 <= chosen[m] < |sp|
    requires 0 <= d < |sp|
    ensures Seeded(sp, chosen + [d], base - 1) == [Centroid(base - 1, [], CopyOf(sp[d].vec), UnitNorm)] + Seeded(sp, chosen, base)
    ensures SeededIds(sp, chosen + [d]) == [sp[d].id] + SeededIds(sp, chosen)
  {
    assert (chosen + [d])[..|chosen|] == chosen;
  }

  /** The engine (class KMeans). Raw points live in `pts`; `sPts` holds their vectors;
      `centroids[k]` is cluster k, whose `pts` are indices into `sPts`. */
  class KMeans {
    var nClusters: int
    var nPoints: int
    var updateThreshold: int
    var dim: int
    var pts: map<int, Point>
    var sPts: seq<SPoint>
    var centroids: seq<Centroid>
    var completed: bool
    var objValue: real
    var iterInfo: seq<IterationInfo>
    var clustering: seq<seq<int>>
    var pointClustering: map<int, int>

    /** The point store: one well-formed point per id, counted by nPoints, every attribute index
        within dim. */
    ghost predicate StoreValid()
      reads this`nPoints, this`dim, this`pts
    {
      nPoints == |pts|
      && dim >= -1
      && (forall id :: id in pts ==> pts[id].id == id && 0 < |pts[id].attribute| == |pts[id].value|)
      && (forall id, a :: id in pts && a in pts[id].attribute ==> a <= dim)
    }

    ghost predicate Valid()
      reads this`nPoints, this`dim, this`pts, this`updateThreshold, this`centroids, this`sPts, this`completed
    {
      StoreValid()
      && updateThreshold >= 0
      && IdsArePositions(centroids)
      && Partitioned(sPts, centroids)
      && (completed ==> IsVectorization(sPts, pts, dim) && 1 <= |centroids| <= nPoints)
    }

    constructor (n: int)
      ensures Valid()
      ensures nClusters == n && nPoints == 0 && updateThreshold == 0 && dim == -1
      ensures pts == map[] && sPts == [] && centroids == [] && !completed
      ensures iterInfo == [] && clustering == [] && pointClustering == map[]
    {
      nClusters := n;
      nPoints := 0;
      updateThreshold := 0;
      dim := -1;
      pts := map[];
      sPts := [];
      centroids := [];
      completed := false;
      objValue := 0.0;
      iterInfo := [];
      clustering := [];
      pointClustering := map[];
    }

    method SetNumberOfClusters(n: int)
      modifies this`nClusters
      ensures nClusters == n
    {
      nClusters := n;
    }

    /** A negative threshold is stored as 0. */
    method SetCentroidUpdateThreshold(threshold: int)
      requires Valid()
      modifies this`updateThreshold
      ensures Valid()
      ensures updateThreshold >= 0
      ensures threshold >= 0 ==> updateThreshold == threshold
      ensures threshold < 0 ==> updateThreshold == 0
    {
      updateThreshold := if threshold < 0 then 0 else threshold;
    }

    /** Stores a point, or rejects it with 1 (no attributes), 2 (attribute and value lists of
        different lengths) or 3 (id already stored), checked in that order. */
    method AddDataPoint(id: int, attribute: seq<int>, value: seq<real>) returns (code: int)
      requires Valid()
      modifies this`completed, this`pts, this`nPoints, this`dim
      ensures Valid() && !completed
      ensures code == (if |attribute| == 0 then 1
                       else if |attribute| != |value| then 2
                       else if id in old(pts) then 3
                       else 0)
      ensures code != 0 ==> pts == old(pts) && nPoints == old(nPoints) && dim == old(dim)
      ensures code == 0 ==> pts == old(pts)[id := Point(id, attribute, value)]
                            && nPoints == old(nPoints) + 1
                            && dim == Max(old(dim), MaxElement(attribute))
    {
      completed := false;
      if |attribute| == 0 {
        return 1;
      }
      if |attribute| != |value| {
        return 2;
      }
      if id in pts {
        return 3;
      }
      var maxDim := MaxElement(attribute);
      if maxDim > dim {
        dim := maxDim;
      }
      pts := pts[id := Point(id, attribute, value)];
      nPoints := nPoints + 1;
      return 0;
    }

    /** Builds one unassigned vector per stored point, in the store's (unspecified) order. */
    method Vectorize()
      modifies this`sPts
      ensures IsVectorization(sPts, pts, dim)
      ensures forall i :: 0 <= i < |sPts| ==> sPts[i].centroid == Unassigned
    {
      sPts := [];
      var rest := pts.Keys;
      while rest != {}
        invariant rest <= pts.Keys
        invariant |sPts| + |rest| == |pts|
        invariant forall i :: 0 <= i < |sPts| ==>
          sPts[i].id in pts && sPts[i].id !in rest && sPts[i] == SPoint(sPts[i].id, VectorOf(pts[sPts[i].id], dim), Unassigned)
        invariant DistinctIds(sPts)
        decreases rest
      {
        var id := PickOne(rest);
        sPts := [SPoint(id, VectorOf(pts[id], dim), Unassigned)] + sPts;
        rest := rest - {id};
      }
    }

    /** The raw-data step as the source runs it when `run` follows an `addDataPoint`: fresh
        vectors are pushed in front of those an earlier run left, which are never cleared. */
    method VectorizeAsWritten()
      modifies this`sPts
      ensures |sPts| == |pts| + |old(sPts)|
      ensures IsVectorization(sPts[..|pts|], pts, dim)
      ensures sPts[|pts|..] == old(sPts)
    {
      var previous := sPts;
      Vectorize();
      sPts := sPts + previous;
      assert sPts[..|pts|] == sPts[..|sPts| - |previous|];
    }

    /** The counting part of evaluation (lib/KMeans.cpp:357-425): with labels ranked by size,
        each cluster's members are tallied per category, unlabelled members apart, and the
        largest cell of each row is added to the purity numerator, which never exceeds the number
        of points. */
    method Evaluate(labels: map<string, set<int>>, ranking: seq<string>)
      returns (rows: seq<seq<int>>, ungrouped: seq<int>, maxima: seq<int>, purity: int)
      requires IsRanking(labels, ranking)
      requires Partitioned(sPts, centroids)
      ensures |rows| == |centroids| && |ungrouped| == |centroids| && |maxima| == |centroids|
      ensures forall k :: 0 <= k < |centroids| ==>
        ClusterTally(MemberIds(sPts, centroids[k].pts), CategoryMap(labels, ranking), |ranking|, rows[k], ungrouped[k], maxima[k])
      ensures purity == Sum(maxima) && 0 <= purity <= |sPts|
    {
      var pc := BuildCategoryMap(labels, ranking);
      rows, ungrouped, maxima, purity := Tabulate(sPts, centroids, pc, |ranking|);
      PartitionCoversAll(sPts, centroids);
    }

    /** The set-up of a run on a non-empty store (lib/KMeans.cpp:103-127): caps K at the number
        of points, then either clears the previous solution, keeping the points' fields except
        those naming a cluster at or past K, which become unassigned, or vectorises the points
        afresh and empties the solution fields as well. Either way the points are a vectorisation of the store and no field names a cluster at
        or past K. */
    method Prepare()
      requires Valid() && nPoints >= 1
      modifies this`nClusters, this`sPts, this`centroids, this`pointClustering, this`clustering, this`iterInfo, this`completed
      ensures StoreValid()
      ensures nClusters == Min(old(nClusters), nPoints)
      ensures !completed && centroids == [] && pointClustering == map[] && clustering == [] && iterInfo == []
      ensures IsVectorization(sPts, pts, dim) && |sPts| == nPoints
      ensures FieldsOk(sPts, nClusters)
      ensures old(completed) ==> sPts == ForgetStale(old(sPts), nClusters)
      ensures !old(completed) ==> forall i :: 0 <= i < |sPts| ==> sPts[i].centroid == Unassigned
    {
      if nClusters > nPoints {
        nClusters := nPoints;
      }
      if completed {
        VectorizationKept(sPts, ForgetStale(sPts, nClusters), pts, dim);
        sPts := ForgetStale(sPts, nClusters);
        centroids, pointClustering, clustering, iterInfo := [], map[], [], [];
        completed := false;
      } else {
        Vectorize();
        centroids, pointClustering, clustering, iterInfo := [], map[], [], [];
      }
    }

    /** Clusters the stored points (lib/KMeans.cpp:98-180). With no points it returns 0 and
        changes nothing. Otherwise it caps K at the number of points, clears an earlier solution
        (or vectorises the points), seeds K centroids from the draws, and repeats the iteration
        while the returned count exceeds the threshold, recording each count and objective value;
        then it collects the solution, marks the run complete and returns the number of
        iterations. The repetition is bounded by maxIterations. */
    method Run(draws: seq<int>, dis: Dissimilarity, tol: real, maxIterations: nat)
      returns (iter: int, ghost trace: seq<(seq<SPoint>, seq<Centroid>)>, ghost rounds: seq<Round>)
      requires Valid()
      requires nClusters >= 1 && maxIterations >= 1
      requires forall j :: 0 <= j < |draws| ==> 0 <= draws[j] < nPoints
      requires |Values(draws)| >= Min(nClusters, nPoints)
      modifies this
      ensures Valid()
      ensures pts == old(pts) && nPoints == old(nPoints) && dim == old(dim) && updateThreshold == old(updateThreshold)
      ensures nPoints == 0 ==>
        (iter == 0 && completed == old(completed) && nClusters == old(nClusters)
         && sPts == old(sPts) && centroids == old(centroids) && iterInfo == old(iterInfo)
         && clustering == old(clustering) && pointClustering == old(pointClustering) && objValue == old(objValue))
      ensures nPoints > 0 ==> completed && nClusters == Min(old(nClusters), nPoints)
      ensures nPoints > 0 ==>
        (|trace| > 0 && IsVectorization(trace[0].0, pts, dim)
         && (old(completed) ==> trace[0].0 == ForgetStale(old(sPts), nClusters))
         && (!old(completed) ==> forall i :: 0 <= i < |trace[0].0| ==> trace[0].0[i].centroid == Unassigned)
         && Solution(trace[0].0, draws, nClusters, updateThreshold, maxIterations, dis, tol,
                     sPts, centroids, objValue, iterInfo, clustering, pointClustering, iter, trace, rounds))
    {
      trace, rounds := [], [];
      if nPoints < 1 {
        return 0, trace, rounds;
      }
      Prepare();
      iter, trace, rounds := SolveAndStore(draws, dis, tol, maxIterations);
    }

    /** Clusters the prepared points and stores the solution (lib/KMeans.cpp:130-179). */
    method SolveAndStore(draws: seq<int>, dis: Dissimilarity, tol: real, maxIterations: nat)
      returns (iter: int, ghost trace: seq<(seq<SPoint>, seq<Centroid>)>, ghost rounds: seq<Round>)
      requires StoreValid() && updateThreshold >= 0
      requires 1 <= nClusters <= nPoints && maxIterations >= 1
      requires forall j :: 0 <= j < |draws| ==> 0 <= draws[j] < nPoints
      requires |Values(draws)| >= nClusters
      requires IsVectorization(sPts, pts, dim) && |sPts| == nPoints && FieldsOk(sPts, nClusters)
      modifies this`sPts, this`centroids, this`objValue, this`iterInfo, this`clustering, this`pointClustering, this`completed
      ensures Valid() && completed
      ensures |trace| > 0 && trace[0].0 == old(sPts) && IsVectorization(trace[0].0, pts, dim)
      ensures Solution(trace[0].0, draws, nClusters, updateThreshold, maxIterations, dis, tol,
                       sPts, centroids, objValue, iterInfo, clustering, pointClustering, iter, trace, rounds)
    {
      ghost var sp0 := sPts;
      var sp, cs, obj, info, cl, pc;
      sp, cs, obj, info, cl, pc, iter, trace, rounds := Solve(sPts, nClusters, draws, updateThreshold, dis, tol, maxIterations);
      assert trace[0].0 == sp0;
      VectorizationKept(sp0, sp, pts, dim);
      Install(sp, cs, obj, info, cl, pc);
    }

    /** Stores the results of a run and marks it complete (lib/KMeans.cpp:179). */
    method Install(sp: seq<SPoint>, cs: seq<Centroid>, obj: real, info: seq<IterationInfo>, cl: seq<seq<int>>, pc: map<int, int>)
      requires StoreValid() && updateThreshold >= 0
      requires IdsArePositions(cs) && Partitioned(sp, cs)
      requires IsVectorization(sp, pts, dim) && 1 <= |cs| <= nPoints
      modifies this`sPts, this`centroids, this`objValue, this`iterInfo, this`clustering, this`pointClustering, this`completed
      ensures Valid() && completed
      ensures sPts == sp && centroids == cs && objValue == obj && iterInfo == info && clustering == cl && pointClustering == pc
    {
      sPts, centroids, objValue, iterInfo, clustering, pointClustering, completed := sp, cs, obj, info, cl, pc, true;
    }
  }

  /** Tabulates the clusters in order (lib/KMeans.cpp:392-421): a row, an unlabelled count and
      a largest cell per cluster, the largest cells summed into the purity numerator, which is at
      most the number of listed members. */
  method Tabulate(sp: seq<SPoint>, cs: seq<Centroid>, pc: map<int, int>, L: nat)
    returns (rows: seq<seq<int>>, ungrouped: seq<int>, maxima: seq<int>, purity: int)
    requires forall c, j :: 0 <= c < |cs| && 0 <= j < |cs[c].pts| ==> cs[c].pts[j] < |sp|
    requires forall p :: p in pc ==> 0 <= pc[p] < L
    ensures |rows| == |cs| && |ungrouped| == |cs| && |maxima| == |cs|
    ensures forall k :: 0 <= k < |cs| ==>
      ClusterTally(MemberIds(sp, cs[k].pts), pc, L, rows[k], ungrouped[k], maxima[k])
    ensures purity == Sum(maxima) && 0 <= purity <= TotalMembers(cs)
  {
    rows, ungrouped, maxima, purity := [], [], [], 0;
    for k := 0 to |cs|
      invariant |rows| == k && |ungrouped| == k && |maxima| == k
      invariant forall m :: 0 <= m < k ==>
        ClusterTally(MemberIds(sp, cs[m].pts), pc, L, rows[m], ungrouped[m], maxima[m])
      invariant purity == Sum(maxima) && 0 <= purity <= TotalMembers(cs[..k])
    {
      var row, u, m := EvaluateCluster(MemberIds(sp, cs[k].pts), pc, L);
      SumAppend(maxima, m);
      assert cs[..k + 1][..k] == cs[..k];
      rows, ungrouped, maxima := rows + [row], ungrouped + [u], maxima + [m];
      purity := purity + m;
    }
    assert cs[..|cs|] == cs;
  }

  /** Picks the initial centroids (lib/KMeans.cpp:199-225): walks ids K-1 down to 0, takes the
      next draw for each, and draws again on a repeat; centroid k copies the vector of the point
      drawn for it, and `initial` lists the chosen points' ids, centroid 0's first. */
  method InitializeCentroids(sp: seq<SPoint>, K: nat, draws: seq<int>) returns (cs: seq<Centroid>, initial: seq<int>)
    requires forall j :: 0 <= j < |draws| ==> 0 <= draws[j] < |sp|
    requires |Values(draws)| >= K
    ensures |Dedup(draws)| >= K
    ensures forall m :: 0 <= m < K ==> 0 <= Dedup(draws)[m] < |sp|
    ensures cs == Seeded(sp, Dedup(draws)[..K], 0)
    ensures initial == SeededIds(sp, Dedup(draws)[..K])
  {
    DedupSize(draws);
    cs := [];
    initial := [];
    var used: set<int> := {};
    var i := K;
    var j := 0;
    ghost var chosen: seq<int> := [];
    while i > 0
      invariant SeedingState(sp, draws, K, i, j, used, chosen, cs, initial)
      decreases |draws| - j
    {
      DrawsRemain(draws, j, K);
      i, j, used, chosen, cs, initial := SeedDraw(sp, draws, K, i, j, used, chosen, cs, initial);
    }
    DedupPrefix(draws, j);
  }

  /** Whether the seeding generator, as it is set up for n points (lib/KMeans.cpp:207), can
      return d: it draws uniformly from 0 to n, both ends included, so the valid point indices and
      n itself. */
  predicate DrawableAsWritten(n: int, d: int): (b: bool)
    ensures b <==> (0 <= d < n || (n >= 0 && d == n))
  {
    0 <= d <= n
  }

  /** The generator as set up can return a value that is no index of the n vectorised points:
      n itself, which then reads past the end of the point list. */
  lemma DrawCanOverrun(sp: seq<SPoint>)
    ensures exists d :: DrawableAsWritten(|sp|, d) && !(0 <= d < |sp|)
  {
    assert DrawableAsWritten(|sp|, |sp|);
  }

  /** Takes draw j (lib/KMeans.cpp:211-222): a value not drawn before becomes centroid i - 1,
      initialised from its point's vector; a repeat is skipped. */
  method SeedDraw(sp: seq<SPoint>, draws: seq<int>, K: int, i: int, j: int, used: set<int>,
                  ghost chosen: seq<int>, cs: seq<Centroid>, initial: seq<int>)
    returns (i': int, j': int, used': set<int>, ghost chosen': seq<int>, cs': seq<Centroid>, initial': seq<int>)
    requires forall m :: 0 <= m < |draws| ==> 0 <= draws[m] < |sp|
    requires SeedingState(sp, draws, K, i, j, used, chosen, cs, initial) && j < |draws| && i > 0
    ensures SeedingState(sp, draws, K, i', j', used', chosen', cs', initial')
    ensures j' == j + 1 && i - 1 <= i' <= i
  {
    SeedingStep(sp, draws, K, i, j, used, chosen, cs, initial);
    var d := draws[j];
    if d !in used {
      i' := i - 1;
      used', chosen' := used + {d}, chosen + [d];
      cs' := [Centroid(i', [], CopyOf(sp[d].vec), UnitNorm)] + cs;
      initial' := [sp[d].id] + initial;
    } else {
      i', used', chosen', cs', initial' := i, used, chosen, cs, initial;
    }
    j' := j + 1;
  }

  /** Seeding after j draws with i centroids still to pick: `used` holds the values drawn,
      `chosen` the first appearances, one per picked centroid, and the centroids and their ids
      are those the chosen points give, numbered from i upwards. */
  ghost predicate SeedingState(sp: seq<SPoint>, draws: seq<int>, K: int, i: int, j: int, used: set<int>,
                               chosen: seq<int>, cs: seq<Centroid>, initial: seq<int>)
  {
    0 <= i <= K && 0 <= j <= |draws|
    && used == Values(draws[..j])
    && chosen == Dedup(draws[..j]) && |chosen| == K - i
    && (forall m :: 0 <= m < |chosen| ==> 0 <= chosen[m] < |sp|)
    && cs == Seeded(sp, chosen, i)
    && initial == SeededIds(sp, chosen)
  }

  /** One more draw: a repeat changes nothing but the draw count; a new value picks centroid
      i - 1 from its point. */
  lemma SeedingStep(sp: seq<SPoint>, draws: seq<int>, K: int, i: int, j: int, used: set<int>,
                    chosen: seq<int>, cs: seq<Centroid>, initial: seq<int>)
    requires forall m :: 0 <= m < |draws| ==> 0 <= draws[m] < |sp|
    requires SeedingState(sp, draws, K, i, j, used, chosen, cs, initial) && j < |draws| && i > 0
    ensures var d := draws[j];
      if d in used then SeedingState(sp, draws, K, i, j + 1, used, chosen, cs, initial)
      else SeedingState(sp, draws, K, i - 1, j + 1, used + {d}, chosen + [d],
                        [Centroid(i - 1, [], CopyOf(sp[d].vec), UnitNorm)] + cs, [sp[d].id] + initial)
  {
    var d := draws[j];
    DedupStep(draws, j);
    if d !in used {
      SeededStep(sp, chosen, d, i);
    }
  }

  /** What a run leaves on its vectorised points: K centroids numbered by position whose member
      lists partition the points; between 1 and maxIterations iterations, one record each, every
      count but the last above the threshold and the last at most the threshold unless the bound
      was reached; the objective value of the last iteration; and the collected solution, with
      position r of the clusters list holding the ids of cluster K - 1 - r, last member first,
      and the map sending every point's id to its cluster and holding no other keys. The
      iterations are those of `trace`, which starts from sp0 and the centroids seeded from the
      first K distinct draws and ends at the final points and clusters: iteration t leads from
      trace[t] to trace[t + 1] and returns the count and objective value recorded in info[t]. */
  ghost predicate Solution(sp0: seq<SPoint>, draws: seq<int>, K: int, threshold: int, maxIterations: int,
                           dis: Dissimilarity, tol: real, sp: seq<SPoint>, cs: seq<Centroid>, obj: real,
                           info: seq<IterationInfo>, cl: seq<seq<int>>, pc: map<int, int>, iter: int,
                           trace: seq<(seq<SPoint>, seq<Centroid>)>, rounds: seq<Round>)
  {
    |cs| == K && IdsArePositions(cs) && Partitioned(sp, cs)
    && 1 <= iter <= maxIterations && |info| == iter && obj == info[iter - 1].objValue
    && (forall t :: 0 <= t < iter - 1 ==> info[t].updatedCentroids > threshold)
    && (iter < maxIterations ==> info[iter - 1].updatedCentroids <= threshold)
    && |cl| == |cs| && (forall r :: 0 <= r < |cs| ==> cl[r] == RevIds(sp, cs[|cs| - 1 - r].pts))
    && (forall i :: 0 <= i < |sp| ==> sp[i].id in pc && pc[sp[i].id] == sp[i].centroid)
    && (forall x :: x in pc ==> exists i :: 0 <= i < |sp| && sp[i].id == x)
    && K <= |Dedup(draws)| && (forall m :: 0 <= m < K ==> 0 <= Dedup(draws)[m] < |sp0|)
    && Ran(sp0, Seeded(sp0, Dedup(draws)[..K], 0), threshold, dis, tol, info, trace, rounds)
    && trace[iter] == (sp, cs)
  }

  /** The iterations recorded in `info`, run from sp0 and cs0: `trace` holds the state before
      each and after the last, and iteration t, with the ghost record rounds[t], leads from
      trace[t] to trace[t + 1] returning info[t]. */
  ghost predicate Ran(sp0: seq<SPoint>, cs0: seq<Centroid>, threshold: int, dis: Dissimilarity, tol: real,
                      info: seq<IterationInfo>, trace: seq<(seq<SPoint>, seq<Centroid>)>, rounds: seq<Round>)
  {
    |trace| == |info| + 1 && |rounds| == |info| && trace[0] == (sp0, cs0)
    && forall t {:trigger rounds[t]} :: 0 <= t < |info| ==>
         IterationDone(trace[t].0, trace[t].1, threshold, dis, tol, trace[t + 1].0, trace[t + 1].1,
                       info[t].objValue, info[t].updatedCentroids, rounds[t])
  }

  /** One more iteration from the last state extends the record. */
  lemma RanStep(sp0: seq<SPoint>, cs0: seq<Centroid>, threshold: int, dis: Dissimilarity, tol: real,
                info: seq<IterationInfo>, trace: seq<(seq<SPoint>, seq<Centroid>)>, rounds: seq<Round>,
                sp: seq<SPoint>, cs: seq<Centroid>, obj: real, u: int, r: Round)
    requires Ran(sp0, cs0, threshold, dis, tol, info, trace, rounds)
    requires IterationDone(trace[|info|].0, trace[|info|].1, threshold, dis, tol, sp, cs, obj, u, r)
    ensures Ran(sp0, cs0, threshold, dis, tol, info + [IterationInfo(u, obj)], trace + [(sp, cs)], rounds + [r])
  {
  }

  /** A run on vectorised points (lib/KMeans.cpp:129-172): seeds K centroids from the draws,
      runs the clustering loop from them and collects the solution. The points keep their ids
      and vectors. */
  method Solve(sp0: seq<SPoint>, K: nat, draws: seq<int>, threshold: int, dis: Dissimilarity, tol: real, maxIterations: nat)
    returns (sp: seq<SPoint>, cs: seq<Centroid>, obj: real, info: seq<IterationInfo>, cl: seq<seq<int>>, pc: map<int, int>, iter: int,
             ghost trace: seq<(seq<SPoint>, seq<Centroid>)>, ghost rounds: seq<Round>)
    requires K >= 1 && maxIterations >= 1
    requires forall j :: 0 <= j < |draws| ==> 0 <= draws[j] < |sp0|
    requires |Values(draws)| >= K
    requires FieldsOk(sp0, K) && DistinctIds(sp0)
    ensures Solution(sp0, draws, K, threshold, maxIterations, dis, tol, sp, cs, obj, info, cl, pc, iter, trace, rounds)
    ensures SameVectors(sp0, sp)
  {
    var initial;
    cs, initial := InitializeCentroids(sp0, K, draws);
    SeededFresh(sp0, Dedup(draws)[..K]);
    sp, cs, obj, info, iter, trace, rounds := Cluster(sp0, cs, threshold, dis, tol, maxIterations);
    assert DistinctIds(sp);
    cl, pc := CollectSolution(sp, cs);
  }

  /** The clustering loop (lib/KMeans.cpp:139-159): repeats the iteration, recording each
      returned count with the objective value after it, until the count is at most the threshold
      or maxIterations iterations have run. The points keep their vectors and end partitioned,
      and `trace` and `rounds` record every iteration as Ran says. */
  method Cluster(sp0: seq<SPoint>, cs0: seq<Centroid>, threshold: int, dis: Dissimilarity, tol: real, maxIterations: nat)
    returns (sp: seq<SPoint>, cs: seq<Centroid>, obj: real, info: seq<IterationInfo>, iter: int,
             ghost trace: seq<(seq<SPoint>, seq<Centroid>)>, ghost rounds: seq<Round>)
    requires |cs0| > 0 && IdsArePositions(cs0) && FieldsOk(sp0, |cs0|)
    requires maxIterations >= 1
    ensures |cs| == |cs0| && IdsArePositions(cs) && Partitioned(sp, cs) && SameVectors(sp0, sp)
    ensures 1 <= iter <= maxIterations && |info| == iter && obj == info[iter - 1].objValue
    ensures forall t :: 0 <= t < iter - 1 ==> info[t].updatedCentroids > threshold
    ensures iter < maxIterations ==> info[iter - 1].updatedCentroids <= threshold
    ensures Ran(sp0, cs0, threshold, dis, tol, info, trace, rounds) && trace[iter] == (sp, cs)
  {
    sp, cs, info := sp0, cs0, [];
    iter := 0;
    trace, rounds := [(sp0, cs0)], [];
    while true
      invariant 0 <= iter < maxIterations && |info| == iter
      invariant forall t :: 0 <= t < iter ==> info[t].updatedCentroids > threshold
      invariant |cs| == |cs0| && IdsArePositions(cs) && FieldsOk(sp, |cs0|)
      invariant SameVectors(sp0, sp)
      invariant Ran(sp0, cs0, threshold, dis, tol, info, trace, rounds) && trace[iter] == (sp, cs)
      decreases maxIterations - iter
    {
      var u;
      sp, cs, obj, u, trace, rounds := Step(sp0, cs0, threshold, dis, tol, info, trace, rounds, sp, cs);
      iter := iter + 1;
      info := info + [IterationInfo(u, obj)];
      if u <= threshold || iter == maxIterations {
        break;
      }
      PartitionedFieldsOk(sp, cs);
    }
  }

  /** One iteration from the last recorded state (lib/KMeans.cpp:141): runs it and extends the
      record as Ran says. */
  method Step(ghost sp0: seq<SPoint>, ghost cs0: seq<Centroid>, threshold: int, dis: Dissimilarity, tol: real,
              ghost info: seq<IterationInfo>, ghost trace: seq<(seq<SPoint>, seq<Centroid>)>, ghost rounds: seq<Round>,
              sp: seq<SPoint>, cs: seq<Centroid>)
    returns (sp': seq<SPoint>, cs': seq<Centroid>, obj: real, updated: int,
             ghost trace': seq<(seq<SPoint>, seq<Centroid>)>, ghost rounds': seq<Round>)
    requires |cs| > 0 && IdsArePositions(cs) && FieldsOk(sp, |cs|)
    requires Ran(sp0, cs0, threshold, dis, tol, info, trace, rounds) && trace[|info|] == (sp, cs)
    ensures |cs'| == |cs| && IdsArePositions(cs') && Partitioned(sp', cs') && SameVectors(sp, sp')
    ensures Ran(sp0, cs0, threshold, dis, tol, info + [IterationInfo(updated, obj)], trace', rounds')
    ensures trace' == trace + [(sp', cs')]
  {
    ghost var r;
    sp', cs', obj, updated, r := Iterate(sp, cs, threshold, dis, tol);
    IterationKeeps(sp, cs, threshold, dis, tol, sp', cs', obj, updated, r);
    RanStep(sp0, cs0, threshold, dis, tol, info, trace, rounds, sp', cs', obj, updated, r);
    trace', rounds' := trace + [(sp', cs')], rounds + [r];
  }

  /** The ghost record of one iteration: the points and clusters after the assignment pass, the
      touched clusters split into those left empty and the others, the clusters repaired and the
      clusters listed for recomputing. */
  datatype Round = Round(passed: seq<SPoint>, placed: seq<Centroid>, empty: seq<int>, nonempty: seq<int>,
                         repaired: set<int>, list: seq<int>)

  /** What one iteration does (lib/KMeans.cpp:227-273): the assignment pass gives the state in
      `r` and the objective value; if fewer points moved than the threshold, the moved count is
      returned and that state kept; otherwise the touched clusters are updated as UpdateDone says,
      by exactly the reference UpdateOf. Either way the points keep their vectors and the
      centroids, numbered by position, partition them. */
  ghost predicate IterationDone(sp: seq<SPoint>, cs: seq<Centroid>, threshold: int, dis: Dissimilarity, tol: real,
                                sp': seq<SPoint>, cs': seq<Centroid>, obj: real, updated: int, r: Round)
  {
    PassDone(sp, cs, dis, tol, r.passed, r.placed, obj)
    && (CountDiff(Fields(sp), Fields(r.passed)) < threshold ==>
          updated == CountDiff(Fields(sp), Fields(r.passed)) && sp' == r.passed && cs' == r.placed)
    && (CountDiff(Fields(sp), Fields(r.passed)) >= threshold ==>
          UpdateDone(r.passed, r.placed, Touched(Fields(sp), Fields(r.passed)), threshold, sp', cs', updated, r.repaired, r.list)
          && TouchedSplit(r.placed, Touched(Fields(sp), Fields(r.passed)), r.empty, r.nonempty)
          && MembersInRange(r.passed, r.placed)
          && (sp', cs', updated, r.list) == UpdateOf(r.passed, r.placed, r.empty, r.nonempty, threshold))
    && |cs'| == |cs| && IdsArePositions(cs') && Partitioned(sp', cs') && SameVectors(sp, sp')
  }

  /** An iteration keeps the numbering, the partition and the vectors. */
  lemma IterationKeeps(sp: seq<SPoint>, cs: seq<Centroid>, threshold: int, dis: Dissimilarity, tol: real,
                       sp': seq<SPoint>, cs': seq<Centroid>, obj: real, updated: int, r: Round)
    requires IterationDone(sp, cs, threshold, dis, tol, sp', cs', obj, updated, r)
    ensures |cs'| == |cs| && IdsArePositions(cs') && Partitioned(sp', cs') && SameVectors(sp, sp')
  {
  }

  /** With threshold 0, an iteration that returns 0 ends in a fixed point of the assignment
      pass: the count 0 leaves the recompute list empty, so the update changed nothing after the
      pass, and a second pass over the same centroid vectors makes the same picks and rebuilds
      the same lists. */
  lemma StableAtZero(sp: seq<SPoint>, cs: seq<Centroid>, dis: Dissimilarity, tol: real,
                     sp': seq<SPoint>, cs': seq<Centroid>, obj: real, updated: int, r: Round,
                     sp'': seq<SPoint>, cs'': seq<Centroid>, obj'': real)
    requires IterationDone(sp, cs, 0, dis, tol, sp', cs', obj, updated, r) && updated <= 0
    requires PassDone(sp', cs', dis, tol, sp'', cs'', obj'')
    ensures sp'' == sp' && cs'' == cs'
  {
    ZeroCountKeepsPass(sp, cs, dis, tol, sp', cs', obj, updated, r);
    PassIsIdempotent(sp, cs, dis, tol, sp', cs', obj, sp'', cs'', obj'');
  }

  /** With threshold 0, a count of 0 means the update left the pass's result as it was. */
  lemma ZeroCountKeepsPass(sp: seq<SPoint>, cs: seq<Centroid>, dis: Dissimilarity, tol: real,
                           sp': seq<SPoint>, cs': seq<Centroid>, obj: real, updated: int, r: Round)
    requires IterationDone(sp, cs, 0, dis, tol, sp', cs', obj, updated, r) && updated <= 0
    ensures PassDone(sp, cs, dis, tol, sp', cs', obj)
  {
    UnlistedUpdateKeeps(r.passed, r.placed, r.empty, r.nonempty, 0);
  }

  /** A second assignment pass over the result of a first one, with no update between them,
      makes the same picks and rebuilds the same lists: the centroid vectors are those the first
      pass used, and the nearest centroid is unique. */
  lemma PassIsIdempotent(sp: seq<SPoint>, cs: seq<Centroid>, dis: Dissimilarity, tol: real,
                         sp': seq<SPoint>, cs': seq<Centroid>, obj: real,
                         sp'': seq<SPoint>, cs'': seq<Centroid>, obj'': real)
    requires PassDone(sp, cs, dis, tol, sp', cs', obj)
    requires PassDone(sp', cs', dis, tol, sp'', cs'', obj'')
    ensures sp'' == sp' && cs'' == cs'
  {
    forall i | 0 <= i < |sp'|
      ensures sp''[i] == sp'[i]
    {
      DissimsIgnoreMembers(sp'[i].vec, cs, cs', dis);
      NearestIsUnique(Dissims(sp'[i].vec, cs, dis), tol, sp'[i].centroid, sp''[i].centroid);
    }
    assert Fields(sp'') == Fields(sp');
  }

  /** An empty cluster that no point had and no point picks is not touched, so the update never
      looks at it: it is still empty after the iteration, and no point names it. */
  lemma UntouchedEmptyStays(sp: seq<SPoint>, cs: seq<Centroid>, threshold: int, dis: Dissimilarity, tol: real,
                            sp': seq<SPoint>, cs': seq<Centroid>, obj: real, updated: int, r: Round, k: int)
    requires IterationDone(sp, cs, threshold, dis, tol, sp', cs', obj, updated, r)
    requires 0 <= k < |cs|
    requires forall i :: 0 <= i < |sp| ==> sp[i].centroid != k && !IsNearest(Dissims(sp[i].vec, cs, dis), tol, k)
    ensures cs'[k].pts == [] && forall i :: 0 <= i < |sp'| ==> sp'[i].centroid != k
  {
    PassThenUpdateAvoid(sp, cs, threshold, dis, tol, r.passed, r.placed, obj, sp', cs', updated, r.repaired, r.list, k);
  }

  /** The two halves of UntouchedEmptyStays: the pass leaves the cluster empty and unnamed, so
      it is not touched, and the update, if it runs, never reaches it. */
  lemma PassThenUpdateAvoid(sp: seq<SPoint>, cs: seq<Centroid>, threshold: int, dis: Dissimilarity, tol: real,
                            passed: seq<SPoint>, placed: seq<Centroid>, obj: real,
                            sp': seq<SPoint>, cs': seq<Centroid>, updated: int, repaired: set<int>, list: seq<int>, k: int)
    requires PassDone(sp, cs, dis, tol, passed, placed, obj)
    requires CountDiff(Fields(sp), Fields(passed)) < threshold ==> cs' == placed
    requires CountDiff(Fields(sp), Fields(passed)) >= threshold ==>
      UpdateDone(passed, placed, Touched(Fields(sp), Fields(passed)), threshold, sp', cs', updated, repaired, list)
    requires Partitioned(sp', cs') && |cs'| == |cs|
    requires 0 <= k < |cs|
    requires forall i :: 0 <= i < |sp| ==> sp[i].centroid != k && !IsNearest(Dissims(sp[i].vec, cs, dis), tol, k)
    ensures cs'[k].pts == [] && forall i :: 0 <= i < |sp'| ==> sp'[i].centroid != k
  {
    var before, after := Fields(sp), Fields(passed);
    PassAvoids(sp, cs, dis, tol, passed, placed, obj, k);
    UnnamedUntouched(before, after, k);
    if CountDiff(before, after) >= threshold {
      UpdateKeepsUntouched(passed, placed, Touched(before, after), threshold, sp', cs', updated, repaired, list, k);
    }
    EmptyListUnnamed(sp', cs', k);
  }

  /** A cluster that no point picks is left empty by the pass, and no point names it. */
  lemma PassAvoids(sp: seq<SPoint>, cs: seq<Centroid>, dis: Dissimilarity, tol: real,
                   sp': seq<SPoint>, cs': seq<Centroid>, obj: real, k: int)
    requires PassDone(sp, cs, dis, tol, sp', cs', obj) && 0 <= k < |cs|
    requires forall i :: 0 <= i < |sp| ==> !IsNearest(Dissims(sp[i].vec, cs, dis), tol, k)
    ensures cs'[k].pts == [] && forall i :: 0 <= i < |sp'| ==> sp'[i].centroid != k
  {
    forall i | 0 <= i < |sp'|
      ensures sp'[i].centroid != k
    {
      assert IsNearest(Dissims(sp[i].vec, cs, dis), tol, sp'[i].centroid);
    }
    MembersRevNone(Fields(sp'), k);
  }

  /** With a dissimilarity that is the same for every centroid, every pass picks centroid 0, so
      a cluster past 0 that no point had stays empty through the iteration. */
  lemma ConstantDissimilarityStep(sp: seq<SPoint>, cs: seq<Centroid>, threshold: int, dis: Dissimilarity, tol: real,
                                  sp': seq<SPoint>, cs': seq<Centroid>, obj: real, updated: int, r: Round,
                                  d: Dissim, k: int)
    requires IterationDone(sp, cs, threshold, dis, tol, sp', cs', obj, updated, r)
    requires forall v, c, n :: dis(v, c, n) == d
    requires 1 <= k < |cs| && forall i :: 0 <= i < |sp| ==> sp[i].centroid != k
    ensures |cs'| == |cs| && cs'[k].pts == [] && forall i :: 0 <= i < |sp'| ==> sp'[i].centroid != k
  {
    ConstantPicksFirst(sp, cs, dis, tol, d, k);
    UntouchedEmptyStays(sp, cs, threshold, dis, tol, sp', cs', obj, updated, r, k);
  }

  /** With a dissimilarity that is the same for every centroid, no point finds a centroid past 0
      nearest: centroid 0 is as near and comes first. */
  lemma ConstantPicksFirst(sp: seq<SPoint>, cs: seq<Centroid>, dis: Dissimilarity, tol: real, d: Dissim, k: int)
    requires forall v, c, n :: dis(v, c, n) == d
    requires 1 <= k < |cs|
    ensures forall i :: 0 <= i < |sp| ==> !IsNearest(Dissims(sp[i].vec, cs, dis), tol, k)
  {
    forall i | 0 <= i < |sp|
      ensures !IsNearest(Dissims(sp[i].vec, cs, dis), tol, k)
    {
      var ds := Dissims(sp[i].vec, cs, dis);
      assert ds[k] == ds[0];
    }
  }

  /** Every recorded state of a run with a constant dissimilarity, from points none of which
      names cluster k >= 1, leaves cluster k empty after the first iteration. */
  lemma {:induction false} ConstantDissimilarityKeepsEmpty(sp0: seq<SPoint>, cs0: seq<Centroid>, threshold: int,
                                                           dis: Dissimilarity, tol: real, info: seq<IterationInfo>,
                                                           trace: seq<(seq<SPoint>, seq<Centroid>)>, rounds: seq<Round>,
                                                           d: Dissim, k: int, t: int)
    requires Ran(sp0, cs0, threshold, dis, tol, info, trace, rounds)
    requires forall v, c, n :: dis(v, c, n) == d
    requires 1 <= k < |cs0| && forall i :: 0 <= i < |sp0| ==> sp0[i].centroid != k
    requires 0 <= t <= |info|
    ensures |trace[t].1| == |cs0| && forall i :: 0 <= i < |trace[t].0| ==> trace[t].0[i].centroid != k
    ensures t > 0 ==> trace[t].1[k].pts == []
  {
    if t > 0 {
      ConstantDissimilarityKeepsEmpty(sp0, cs0, threshold, dis, tol, info, trace, rounds, d, k, t - 1);
      var s := t - 1;
      var r := rounds[s];
      ConstantDissimilarityStep(trace[s].0, trace[s].1, threshold, dis, tol, trace[s + 1].0, trace[s + 1].1,
                                info[s].objValue, info[s].updatedCentroids, r, d, k);
    }
  }

  /** As written, a run can end with empty clusters though K is at most the number of points:
      with a constant dissimilarity and fresh fields, every cluster but cluster 0 ends empty. */
  lemma ConstantDissimilarityRun(sp0: seq<SPoint>, draws: seq<int>, K: int, threshold: int, maxIterations: int,
                                 dis: Dissimilarity, tol: real, sp: seq<SPoint>, cs: seq<Centroid>, obj: real,
                                 info: seq<IterationInfo>, cl: seq<seq<int>>, pc: map<int, int>, iter: int,
                                 trace: seq<(seq<SPoint>, seq<Centroid>)>, rounds: seq<Round>, d: Dissim)
    requires Solution(sp0, draws, K, threshold, maxIterations, dis, tol, sp, cs, obj, info, cl, pc, iter, trace, rounds)
    requires forall v, c, n :: dis(v, c, n) == d
    requires forall i :: 0 <= i < |sp0| ==> sp0[i].centroid == Unassigned
    ensures |cs| == K && forall k :: 1 <= k < K ==> cs[k].pts == []
  {
    var cs0 := Seeded(sp0, Dedup(draws)[..K], 0);
    forall k | 1 <= k < K
      ensures cs[k].pts == []
    {
      ConstantDissimilarityKeepsEmpty(sp0, cs0, threshold, dis, tol, info, trace, rounds, d, k, iter);
    }
  }

  /** A solution reached with threshold 0 before the iteration bound is stable: one more
      assignment pass moves no point and leaves every cluster as it is. */
  lemma SolutionIsStable(sp0: seq<SPoint>, draws: seq<int>, K: int, maxIterations: int, dis: Dissimilarity, tol: real,
                         sp: seq<SPoint>, cs: seq<Centroid>, obj: real, info: seq<IterationInfo>,
                         cl: seq<seq<int>>, pc: map<int, int>, iter: int,
                         trace: seq<(seq<SPoint>, seq<Centroid>)>, rounds: seq<Round>,
                         sp'': seq<SPoint>, cs'': seq<Centroid>, obj'': real)
    requires Solution(sp0, draws, K, 0, maxIterations, dis, tol, sp, cs, obj, info, cl, pc, iter, trace, rounds)
    requires iter < maxIterations
    requires PassDone(sp, cs, dis, tol, sp'', cs'', obj'')
    ensures sp'' == sp && cs'' == cs
  {
    var t := iter - 1;
    assert IterationDone(trace[t].0, trace[t].1, 0, dis, tol, trace[t + 1].0, trace[t + 1].1,
                         info[t].objValue, info[t].updatedCentroids, rounds[t]);
    StableAtZero(trace[t].0, trace[t].1, dis, tol, sp, cs, info[t].objValue, info[t].updatedCentroids, rounds[t],
                 sp'', cs'', obj'');
  }

  /** One iteration (lib/KMeans.cpp:227-273): an assignment pass, then, when at least the
      threshold of points moved, the update of the touched clusters, as IterationDone says. */
  method Iterate(sp: seq<SPoint>, cs: seq<Centroid>, threshold: int, dis: Dissimilarity, tol: real)
    returns (sp': seq<SPoint>, cs': seq<Centroid>, obj: real, updated: int, ghost round: Round)
    requires |cs| > 0 && IdsArePositions(cs)
    requires FieldsOk(sp, |cs|)
    ensures IterationDone(sp, cs, threshold, dis, tol, sp', cs', obj, updated, round)
  {
    var moved, touched;
    sp', cs', obj, moved, touched := AssignmentPass(sp, cs, dis, tol);
    round := Round(sp', cs', [], [], {}, []);
    updated := moved;
    PassDoneKeeps(sp, cs, dis, tol, sp', cs', obj);
    if moved >= threshold {
      TouchedInRange(Fields(sp), Fields(round.passed), |cs|);
      var l, e, ne;
      ghost var repaired;
      sp', cs', updated, repaired, l, e, ne := UpdateCentroids(sp', cs', touched, threshold);
      round := round.(empty := e, nonempty := ne, repaired := repaired, list := l);
      assert SameVectors(round.passed, sp');
    }
  }

  /** What an assignment pass leaves: the points keep their ids and vectors; each field names a
      nearest centroid (IsNearest) among the centroids before the pass; each centroid keeps its
      vector and lists exactly its points, latest first; the lists partition the points; and obj
      is the sum of the chosen dissimilarities. */
  ghost predicate PassDone(sp: seq<SPoint>, cs: seq<Centroid>, dis: Dissimilarity, tol: real,
                           sp': seq<SPoint>, cs': seq<Centroid>, obj: real)
  {
    |sp'| == |sp| && |cs'| == |cs|
    && (forall i :: 0 <= i < |sp| ==> sp'[i].id == sp[i].id && sp'[i].vec == sp[i].vec)
    && (forall i :: 0 <= i < |sp'| ==> 0 <= sp'[i].centroid < |cs|)
    && (forall i :: 0 <= i < |sp'| ==> IsNearest(Dissims(sp'[i].vec, cs, dis), tol, sp'[i].centroid))
    && (forall k :: 0 <= k < |cs| ==> cs'[k] == cs[k].(pts := MembersRev(Fields(sp'), k)))
    && Partitioned(sp', cs')
    && obj == ObjectiveOf(sp', |sp'|, cs, dis)
  }

  /** A pass keeps the numbering and the vectors. */
  lemma PassDoneKeeps(sp: seq<SPoint>, cs: seq<Centroid>, dis: Dissimilarity, tol: real,
                      sp': seq<SPoint>, cs': seq<Centroid>, obj: real)
    requires PassDone(sp, cs, dis, tol, sp', cs', obj) && IdsArePositions(cs)
    ensures IdsArePositions(cs') && SameVectors(sp, sp')
  {
  }

  /** One assignment pass (lib/KMeans.cpp:233-267): clears every member list, then puts each
      point, in order, on the front of its nearest centroid's list, summing the objective and
      counting the points whose cluster changed and the clusters they left or joined. */
  method AssignmentPass(sp: seq<SPoint>, cs: seq<Centroid>, dis: Dissimilarity, tol: real)
    returns (sp': seq<SPoint>, cs': seq<Centroid>, obj: real, moved: nat, touched: set<int>)
    requires |cs| > 0 && IdsArePositions(cs)
    ensures PassDone(sp, cs, dis, tol, sp', cs', obj)
    ensures moved == CountDiff(Fields(sp), Fields(sp'))
    ensures touched == Touched(Fields(sp), Fields(sp'))
  {
    obj := 0.0;
    var cleared := ClearMembers(cs);
    sp', cs' := sp, cleared;
    moved := 0;
    touched := {};
    var i := 0;
    PassStart(sp, cs, cs', dis, tol);
    while i < |sp'|
      invariant PassInvariant(sp, cs, sp', cs', obj, moved, touched, i, dis, tol)
      decreases |sp'| - i
    {
      sp', cs', obj, moved, touched := PlacePoint(sp, cs, sp', cs', obj, moved, touched, i, dis, tol);
      i := i + 1;
    }
    PassEnd(sp, cs, sp', cs', obj, moved, touched, dis, tol);
  }

  /** Empties every member list (lib/KMeans.cpp:235-236). */
  method ClearMembers(cs: seq<Centroid>) returns (cs': seq<Centroid>)
    ensures |cs'| == |cs|
    ensures forall k :: 0 <= k < |cs| ==> cs'[k] == cs[k].(pts := [])
  {
    cs' := cs;
    for k := 0 to |cs|
      invariant |cs'| == |cs|
      invariant forall m :: 0 <= m < |cs| ==> cs'[m] == cs[m].(pts := if m < k then [] else cs[m].pts)
    {
      cs' := cs'[k := cs'[k].(pts := [])];
    }
  }

  /** The body of the pass for point i (lib/KMeans.cpp:238-266): finds the nearest centroid,
      adds its dissimilarity to the objective, pushes i on the front of that centroid's list and,
      when the point changes cluster, records the move and the clusters it left and joined. */
  method PlacePoint(ghost sp0: seq<SPoint>, ghost c0: seq<Centroid>, sp: seq<SPoint>, cs: seq<Centroid>,
                    obj: real, moved: nat, touched: set<int>, i: int, dis: Dissimilarity, tol: real)
    returns (sp': seq<SPoint>, cs': seq<Centroid>, obj': real, moved': nat, touched': set<int>)
    requires PassInvariant(sp0, c0, sp, cs, obj, moved, touched, i, dis, tol) && i < |sp|
    requires |c0| > 0 && IdsArePositions(c0)
    ensures PassInvariant(sp0, c0, sp', cs', obj', moved', touched', i + 1, dis, tol)
  {
    var p := sp[i];
    var tar, minDissim := NearestCentroid(cs, p.vec, dis, tol);
    obj' := obj + minDissim;
    cs' := cs[tar := cs[tar].(pts := [i] + cs[tar].pts)];
    var cid := cs'[tar].id;
    assert cs[tar].id == c0[tar].id == tar;
    sp', moved', touched' := RecordMove(sp, moved, touched, i, cid);
    PassInvariantStep(sp0, c0, sp, cs, obj, moved, touched, i, dis, tol, tar, sp', cs', obj', moved', touched');
  }

  /** Records where point i went (lib/KMeans.cpp:258-265): when its field differs from cid, its
      old cluster (unless it had none) and cid are marked touched, the move is counted and the
      field becomes cid; otherwise nothing changes. */
  method RecordMove(sp: seq<SPoint>, moved: nat, touched: set<int>, i: int, cid: int)
    returns (sp': seq<SPoint>, moved': nat, touched': set<int>)
    requires 0 <= i < |sp|
    ensures sp' == sp[i := sp[i].(centroid := cid)]
    ensures moved' == moved + (if sp[i].centroid != cid then 1 else 0)
    ensures touched' == touched + (if sp[i].centroid != cid
                                   then (if sp[i].centroid != Unassigned then {sp[i].centroid} else {}) + {cid}
                                   else {})
  {
    var p := sp[i];
    sp', moved', touched' := sp, moved, touched;
    if p.centroid != cid {
      if p.centroid != Unassigned {
        touched' := touched' + {p.centroid};
      }
      touched' := touched' + {cid};
      moved' := moved' + 1;
      sp' := sp'[i := p.(centroid := cid)];
    } else {
      assert sp' == sp[i := p.(centroid := cid)];
    }
  }

  /** What an assignment pass has established after its first i points: those points have their
      nearest centroid, the lists hold exactly them, and the objective, the move count and the
      touched ids cover exactly them; the rest are as before. */
  ghost predicate PassInvariant(sp0: seq<SPoint>, c0: seq<Centroid>, sp: seq<SPoint>, cs: seq<Centroid>,
                                obj: real, moved: int, touched: set<int>, i: int, dis: Dissimilarity, tol: real)
  {
    PassShape(sp0, sp, i)
    && PassPlaced(c0, sp, i, dis, tol)
    && PassLists(c0, sp, cs, i)
    && PassTotals(sp0, c0, sp, obj, moved, touched, i, dis)
  }

  /** Only fields change, and only those of the first i points. */
  ghost predicate PassShape(sp0: seq<SPoint>, sp: seq<SPoint>, i: int)
  {
    0 <= i <= |sp| == |sp0|
    && (forall m :: 0 <= m < |sp| ==> sp[m].id == sp0[m].id && sp[m].vec == sp0[m].vec)
    && (forall m :: i <= m < |sp| ==> sp[m] == sp0[m])
  }

  /** Each of the first i points names its nearest centroid. */
  ghost predicate PassPlaced(c0: seq<Centroid>, sp: seq<SPoint>, i: int, dis: Dissimilarity, tol: real)
  {
    0 <= i <= |sp|
    && forall m :: 0 <= m < i ==> 0 <= sp[m].centroid < |c0| && IsNearest(Dissims(sp[m].vec, c0, dis), tol, sp[m].centroid)
  }

  /** The lists hold exactly the first i points, each in the list its field names. */
  ghost predicate PassLists(c0: seq<Centroid>, sp: seq<SPoint>, cs: seq<Centroid>, i: int)
  {
    0 <= i <= |sp| && |cs| == |c0|
    && forall k :: 0 <= k < |c0| ==> cs[k] == c0[k].(pts := MembersRev(Fields(sp)[..i], k))
  }

  /** The objective, the move count and the touched ids cover exactly the first i points. */
  ghost predicate PassTotals(sp0: seq<SPoint>, c0: seq<Centroid>, sp: seq<SPoint>, obj: real, moved: int, touched: set<int>, i: int, dis: Dissimilarity)
  {
    0 <= i <= |sp| == |sp0|
    && (forall m :: 0 <= m < i ==> 0 <= sp[m].centroid < |c0|)
    && obj == ObjectiveOf(sp, i, c0, dis)
    && moved == CountDiff(Fields(sp0)[..i], Fields(sp)[..i])
    && touched == Touched(Fields(sp0)[..i], Fields(sp)[..i])
  }

  lemma PassStart(sp0: seq<SPoint>, c0: seq<Centroid>, cs: seq<Centroid>, dis: Dissimilarity, tol: real)
    requires |cs| == |c0| && forall k :: 0 <= k < |cs| ==> cs[k] == c0[k].(pts := [])
    ensures PassInvariant(sp0, c0, sp0, cs, 0.0, 0, {}, 0, dis, tol)
  {
  }

  /** Placing point i keeps the pass invariant. */
  lemma PassInvariantStep(sp0: seq<SPoint>, c0: seq<Centroid>, sp: seq<SPoint>, cs: seq<Centroid>,
                          obj: real, moved: int, touched: set<int>, i: int, dis: Dissimilarity, tol: real,
                          tar: int, sp': seq<SPoint>, cs': seq<Centroid>, obj': real, moved': int, touched': set<int>)
    requires PassInvariant(sp0, c0, sp, cs, obj, moved, touched, i, dis, tol) && i < |sp|
    requires IdsArePositions(c0)
    requires IsNearest(Dissims(sp[i].vec, cs, dis), tol, tar)
    requires obj' == obj + Dissims(sp[i].vec, cs, dis)[tar]
    requires cs' == cs[tar := cs[tar].(pts := [i] + cs[tar].pts)]
    requires sp' == sp[i := sp[i].(centroid := tar)]
    requires moved' == moved + (if sp[i].centroid != tar then 1 else 0)
    requires touched' == touched + (if sp[i].centroid != tar
                                    then (if sp[i].centroid != Unassigned then {sp[i].centroid} else {}) + {tar}
                                    else {})
    ensures PassInvariant(sp0, c0, sp', cs', obj', moved', touched', i + 1, dis, tol)
  {
    DissimsIgnoreMembers(sp[i].vec, cs, c0, dis);
    StepPlaced(c0, sp, i, dis, tol, tar, sp');
    StepLists(c0, sp, cs, i, tar, sp', cs');
    StepTotals(sp0, c0, sp, obj, moved, touched, i, dis, tar, sp', obj', moved', touched');
  }

  lemma StepPlaced(c0: seq<Centroid>, sp: seq<SPoint>, i: int, dis: Dissimilarity, tol: real, tar: int, sp': seq<SPoint>)
    requires PassPlaced(c0, sp, i, dis, tol) && i < |sp|
    requires IsNearest(Dissims(sp[i].vec, c0, dis), tol, tar)
    requires sp' == sp[i := sp[i].(centroid := tar)]
    ensures PassPlaced(c0, sp', i + 1, dis, tol)
  {
  }

  lemma StepLists(c0: seq<Centroid>, sp: seq<SPoint>, cs: seq<Centroid>, i: int, tar: int, sp': seq<SPoint>, cs': seq<Centroid>)
    requires PassLists(c0, sp, cs, i) && i < |sp| && 0 <= tar < |cs|
    requires cs' == cs[tar := cs[tar].(pts := [i] + cs[tar].pts)]
    requires sp' == sp[i := sp[i].(centroid := tar)]
    ensures PassLists(c0, sp', cs', i + 1)
  {
    var f, f' := Fields(sp), Fields(sp');
    assert f'[..i] == f[..i];
    PassStep(f', f', i);
  }

  lemma StepTotals(sp0: seq<SPoint>, c0: seq<Centroid>, sp: seq<SPoint>, obj: real, moved: int, touched: set<int>,
                   i: int, dis: Dissimilarity, tar: int, sp': seq<SPoint>, obj': real, moved': int, touched': set<int>)
    requires PassTotals(sp0, c0, sp, obj, moved, touched, i, dis) && i < |sp| && 0 <= tar < |c0|
    requires sp[i] == sp0[i]
    requires obj' == obj + dis(sp[i].vec, c0[tar].vec, c0[tar].l2norm) as real
    requires sp' == sp[i := sp[i].(centroid := tar)]
    requires moved' == moved + (if sp[i].centroid != tar then 1 else 0)
    requires touched' == touched + (if sp[i].centroid != tar
                                    then (if sp[i].centroid != Unassigned then {sp[i].centroid} else {}) + {tar}
                                    else {})
    ensures PassTotals(sp0, c0, sp', obj', moved', touched', i + 1, dis)
  {
    var f0, f, f' := Fields(sp0), Fields(sp), Fields(sp');
    assert f'[..i] == f[..i];
    PassStep(f0, f', i);
    ObjectiveAgrees(sp, sp', i, c0, dis);
  }

  lemma PassEnd(sp0: seq<SPoint>, c0: seq<Centroid>, sp: seq<SPoint>, cs: seq<Centroid>,
                obj: real, moved: int, touched: set<int>, dis: Dissimilarity, tol: real)
    requires PassInvariant(sp0, c0, sp, cs, obj, moved, touched, |sp|, dis, tol)
    ensures forall k :: 0 <= k < |c0| ==> cs[k] == c0[k].(pts := MembersRev(Fields(sp), k))
    ensures Partitioned(sp, cs)
    ensures obj == ObjectiveOf(sp, |sp|, c0, dis)
    ensures moved == CountDiff(Fields(sp0), Fields(sp))
    ensures touched == Touched(Fields(sp0), Fields(sp))
  {
    assert Fields(sp)[..|sp|] == Fields(sp);
    assert Fields(sp0)[..|sp|] == Fields(sp0);
    MembersRevPartition(sp, cs);
  }

  /** The points with every field that names no cluster below K set back to unassigned: they keep
      their ids and vectors, every field is then unassigned or below K, and a field below K is
      kept. */
  function ForgetStale(sp: seq<SPoint>, K: int): (r: seq<SPoint>)
    ensures SameVectors(sp, r) && FieldsOk(r, K)
    ensures forall i :: 0 <= i < |sp| && 0 <= sp[i].centroid < K ==> r[i] == sp[i]
  {
    seq(|sp|, i requires 0 <= i < |sp| => if 0 <= sp[i].centroid < K then sp[i] else sp[i].(centroid := Unassigned))
  }

  /** When K has not been lowered below the number of clusters of the earlier run, forgetting
      stale fields keeps every point as it is, as the source does. */
  lemma ForgetStaleKeepsPartition(sp: seq<SPoint>, cs: seq<Centroid>, K: int)
    requires Partitioned(sp, cs) && K >= |cs|
    ensures ForgetStale(sp, K) == sp
  {
  }

  /** A rerun as the source runs it after K was lowered: the points keep fields naming clusters
      at or past the new K, the assignment pass places each such point on a cluster below K, and
      so marks the stale id as touched: an id past the end of the centroid list, which the update
      then looks up (lib/KMeans.cpp:284). */
  lemma StaleFieldTouched(sp: seq<SPoint>, cs: seq<Centroid>, dis: Dissimilarity, tol: real,
                          passed: seq<SPoint>, placed: seq<Centroid>, obj: real, i: int)
    requires PassDone(sp, cs, dis, tol, passed, placed, obj)
    requires 0 <= i < |sp| && sp[i].centroid >= |cs|
    ensures sp[i].centroid in Touched(Fields(sp), Fields(passed)) && sp[i].centroid >= |cs|
  {
    var f, f' := Fields(sp), Fields(passed);
    assert f[i] == sp[i].centroid && f'[i] == passed[i].centroid < |cs|;
    TouchedMembers(f, f', sp[i].centroid);
  }

  /** Every field is unassigned or a valid position below K. */
  ghost predicate FieldsOk(sp: seq<SPoint>, K: int)
  {
    forall i :: 0 <= i < |sp| ==> sp[i].centroid == Unassigned || 0 <= sp[i].centroid < K
  }

  lemma PartitionedFieldsOk(sp: seq<SPoint>, cs: seq<Centroid>)
    requires Partitioned(sp, cs)
    ensures FieldsOk(sp, |cs|)
  {
  }

  /** Freshly seeded centroids are numbered by position and have no members. */
  lemma SeededFresh(sp: seq<SPoint>, chosen: seq<int>)
    requires forall m :: 0 <= m < |chosen| ==> 0 <= chosen[m] < |sp|
    ensures IdsArePositions(Seeded(sp, chosen, 0))
    ensures forall k :: 0 <= k < |chosen| ==> Seeded(sp, chosen, 0)[k].pts == []
  {
  }

  /** Iterations change fields only, so the points remain a vectorisation of the store. */
  lemma VectorizationKept(sp: seq<SPoint>, sp': seq<SPoint>, store: map<int, Point>, dim: int)
    requires IsVectorization(sp, store, dim) && SameVectors(sp, sp')
    ensures IsVectorization(sp', store, dim)
  {
  }

  /** Vectorising again without clearing leaves a point twice in the list whenever an id of the
      earlier list is still stored, so the list outgrows the store. */
  lemma RerunDuplicatesPoints(again: seq<SPoint>, previous: seq<SPoint>, store: map<int, Point>, dim: int)
    requires IsVectorization(again, store, dim)
    requires |previous| > 0 && previous[0].id in store
    ensures |again + previous| > |store|
    ensures !DistinctIds(again + previous)
  {
    VectorizationCovers(again, store, dim, previous[0].id);
    var i :| 0 <= i < |again| && again[i].id == previous[0].id;
    assert (again + previous)[i].id == (again + previous)[|again|].id;
  }

  /** A vectorisation holds a vector for every stored id: its ids are distinct, all stored, and
      as many as the store holds. */
  lemma VectorizationCovers(sp: seq<SPoint>, store: map<int, Point>, dim: int, id: int)
    requires IsVectorization(sp, store, dim) && id in store
    ensures exists i :: 0 <= i < |sp| && sp[i].id == id
  {
    var ids := IdsOf(sp);
    DistinctValuesCard(ids);
    var V := Values(ids);
    SubsetOfSameSize(V, store.Keys);
    var i :| 0 <= i < |ids| && ids[i] == id;
  }

  /** A subset at least as large as its superset is the whole set. */
  lemma SubsetOfSameSize(a: set<int>, b: set<int>)
    requires a <= b && |b| <= |a|
    ensures a == b
  {
    assert b == a + (b - a) && a * (b - a) == {};
  }
}
