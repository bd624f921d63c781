/** The counting part of cluster evaluation (lib/KMeans.cpp:357-425): labels are ranked by size,
    each labelled point gets the category of the last label holding it, every cluster's members
    are tallied per category (unlabelled members apart), and each row's largest cell feeds the
    purity numerator. */
module Evaluation {
  import opened KMeansTypes

  /** The category of a point that no label holds. */
  const NoCategory: int := -1

  /** `ranking` lists every label once, larger point sets first; ties may come in any order,
      as std::sort leaves them. */
  ghost predicate IsRanking(labels: map<string, set<int>>, ranking: seq<string>)
  {
    |ranking| == |labels|
    && (forall r :: 0 <= r < |ranking| ==> ranking[r] in labels)
    && (forall a, b :: 0 <= a < b < |ranking| ==> ranking[a] != ranking[b])
    && (forall a, b :: 0 <= a < b < |ranking| ==> |labels[ranking[a]]| >= |labels[ranking[b]]|)
  }

  /** The point-to-category map after the labels are processed in ranking order: a later label
      overwrites an earlier one. */
  function CategoryMap(labels: map<string, set<int>>, ranking: seq<string>): map<int, int>
    requires forall r :: 0 <= r < |ranking| ==> ranking[r] in labels
  {
    if |ranking| == 0 then map[]
    else
      var n := |ranking| - 1;
      CategoryMap(labels, ranking[..n]) + map p | p in labels[ranking[n]] :: n
  }

  /** A point has a category exactly when some label holds it, and its category is the last
      ranked label holding it. */
  lemma {:induction false} CategoryMapSpec(labels: map<string, set<int>>, ranking: seq<string>, p: int)
    requires forall r :: 0 <= r < |ranking| ==> ranking[r] in labels
    ensures p in CategoryMap(labels, ranking) <==> exists r :: 0 <= r < |ranking| && p in labels[ranking[r]]
    ensures p in CategoryMap(labels, ranking) ==>
      var c := CategoryMap(labels, ranking)[p];
      0 <= c < |ranking| && p in labels[ranking[c]]
      && forall r :: c < r < |ranking| ==> p !in labels[ranking[r]]
  {
    if |ranking| > 0 {
      var n := |ranking| - 1;
      var front := ranking[..n];
      assert forall r :: 0 <= r < n ==> front[r] == ranking[r];
      CategoryMapSpec(labels, front, p);
      if exists r :: 0 <= r < |ranking| && p in labels[ranking[r]] {
        var r :| 0 <= r < |ranking| && p in labels[ranking[r]];
        if r < n {
          assert p in labels[front[r]];
        }
      }
    }
  }

  /** Builds the point-to-category map, label by label in ranking order. */
  method BuildCategoryMap(labels: map<string, set<int>>, ranking: seq<string>) returns (pc: map<int, int>)
    requires forall r :: 0 <= r < |ranking| ==> ranking[r] in labels
    ensures pc == CategoryMap(labels, ranking)
    ensures forall p :: p in pc <==> exists r :: 0 <= r < |ranking| && p in labels[ranking[r]]
    ensures forall p :: p in pc ==> 0 <= pc[p] < |ranking| && p in labels[ranking[pc[p]]]
  {
    pc := map[];
    var r := 0;
    while r < |ranking|
      invariant 0 <= r <= |ranking|
      invariant pc == CategoryMap(labels, ranking[..r])
    {
      var members := labels[ranking[r]];
      var rest := members;
      ghost var base := pc;
      while rest != {}
        invariant rest <= members
        invariant pc == base + map p | p in members - rest :: r
        decreases rest
      {
        var p := PickOne(rest);
        pc := pc[p := r];
        rest := rest - {p};
      }
      assert members - rest == members;
      assert ranking[..r + 1][..r] == ranking[..r];
      r := r + 1;
    }
    assert ranking[..r] == ranking;
    forall p ensures (p in pc <==> exists r :: 0 <= r < |ranking| && p in labels[ranking[r]])
      && (p in pc ==> 0 <= pc[p] < |ranking| && p in labels[ranking[pc[p]]])
    {
      CategoryMapSpec(labels, ranking, p);
    }
  }

  /** The categories of a cluster's members, in member order; NoCategory for unlabelled ones. */
  function Categories(pc: map<int, int>, ids: seq<int>): (cats: seq<int>)
    ensures |cats| == |ids|
    ensures forall j :: 0 <= j < |ids| ==> cats[j] == if ids[j] in pc then pc[ids[j]] else NoCategory
  {
    seq(|ids|, j requires 0 <= j < |ids| => if ids[j] in pc then pc[ids[j]] else NoCategory)
  }

  /** Number of entries of s equal to x. */
  function CountIn(s: seq<int>, x: int): nat
  {
    if |s| == 0 then 0 else CountIn(s[..|s| - 1], x) + (if s[|s| - 1] == x then 1 else 0)
  }

  /** Number of entries of s in the range [0, n). */
  function CountBelow(s: seq<int>, n: int): nat
  {
    if |s| == 0 then 0 else CountBelow(s[..|s| - 1], n) + (if 0 <= s[|s| - 1] < n then 1 else 0)
  }

  /** One row of the contingency table: how many entries fall in each of the L categories. */
  function Row(cats: seq<int>, L: nat): (row: seq<int>)
    ensures |row| == L
    ensures forall j :: 0 <= j < L ==> row[j] == CountIn(cats, j)
  {
    seq(L, j requires 0 <= j < L => CountIn(cats, j))
  }

  function Sum(s: seq<int>): int
  {
    if |s| == 0 then 0 else Sum(s[..|s| - 1]) + s[|s| - 1]
  }

  lemma {:induction false} SumAppend(s: seq<int>, x: int)
    ensures Sum(s + [x]) == Sum(s) + x
  {
    assert (s + [x])[..|s|] == s;
  }

  /** The first n cells of a row add up to the entries falling in categories below n. */
  lemma {:induction false} RowPrefixSum(cats: seq<int>, L: nat, n: nat)
    requires n <= L
    ensures Sum(Row(cats, L)[..n]) == CountBelow(cats, n)
  {
    if n > 0 {
      RowPrefixSum(cats, L, n - 1);
      assert Row(cats, L)[..n] == Row(cats, L)[..n - 1] + [CountIn(cats, n - 1)];
      SumAppend(Row(cats, L)[..n - 1], CountIn(cats, n - 1));
      CountBelowStep(cats, n - 1);
    } else {
      CountBelowZero(cats);
    }
  }

  lemma {:induction false} CountBelowStep(cats: seq<int>, n: nat)
    ensures CountBelow(cats, n + 1) == CountBelow(cats, n) + CountIn(cats, n)
  {
    if |cats| > 0 {
      CountBelowStep(cats[..|cats| - 1], n);
    }
  }

  lemma {:induction false} CountBelowZero(cats: seq<int>)
    ensures CountBelow(cats, 0) == 0
  {
    if |cats| > 0 {
      CountBelowZero(cats[..|cats| - 1]);
    }
  }

  /** Entries in [0, L) plus the unlabelled ones are all the entries, when none is out of range. */
  lemma {:induction false} BelowPlusNone(cats: seq<int>, L: nat)
    requires forall j :: 0 <= j < |cats| ==> NoCategory <= cats[j] < L
    ensures CountBelow(cats, L) + CountIn(cats, NoCategory) == |cats|
  {
    if |cats| > 0 {
      var n := |cats| - 1;
      assert forall j :: 0 <= j < n ==> cats[..n][j] == cats[j];
      BelowPlusNone(cats[..n], L);
    }
  }

  /** A cluster's row cells and its unlabelled count add up to its size. */
  lemma RowSumPlusUngrouped(cats: seq<int>, L: nat)
    requires forall j :: 0 <= j < |cats| ==> NoCategory <= cats[j] < L
    ensures Sum(Row(cats, L)) + CountIn(cats, NoCategory) == |cats|
  {
    RowPrefixSum(cats, L, L);
    assert Row(cats, L)[..L] == Row(cats, L);
    BelowPlusNone(cats, L);
  }

  /** No cell of a row of counts exceeds the row's sum. */
  lemma {:induction false} CellAtMostSum(row: seq<int>, i: int)
    requires forall j :: 0 <= j < |row| ==> row[j] >= 0
    requires 0 <= i < |row|
    ensures row[i] <= Sum(row)
  {
    var n := |row| - 1;
    var front := row[..n];
    assert forall j :: 0 <= j < n ==> front[j] == row[j];
    SumNonNegative(front);
    if i < n {
      CellAtMostSum(front, i);
    }
  }

  lemma {:induction false} SumNonNegative(row: seq<int>)
    requires forall j :: 0 <= j < |row| ==> row[j] >= 0
    ensures Sum(row) >= 0
  {
    if |row| > 0 {
      var n := |row| - 1;
      assert forall j :: 0 <= j < n ==> row[..n][j] == row[j];
      SumNonNegative(row[..n]);
    }
  }

  /** Tallies one cluster: the count of its members per category and of its unlabelled ones. */
  method TallyCluster(ids: seq<int>, pc: map<int, int>, L: nat) returns (row: seq<int>, ungrouped: int)
    requires forall p :: p in pc ==> 0 <= pc[p] < L
    ensures row == Row(Categories(pc, ids), L)
    ensures ungrouped == CountIn(Categories(pc, ids), NoCategory)
    ensures Sum(row) + ungrouped == |ids|
  {
    row := seq(L, _ => 0);
    ungrouped := 0;
    var j := 0;
    while j < |ids|
      invariant 0 <= j <= |ids|
      invariant row == Row(Categories(pc, ids[..j]), L)
      invariant ungrouped == CountIn(Categories(pc, ids[..j]), NoCategory)
    {
      TallyStep(pc, ids, j, L);
      var id := ids[j];
      if id !in pc {
        ungrouped := ungrouped + 1;
      } else {
        var c := pc[id];
        row := row[c := row[c] + 1];
      }
      j := j + 1;
    }
    assert ids[..j] == ids;
    CategoriesInRange(pc, ids, L);
    RowSumPlusUngrouped(Categories(pc, ids), L);
  }

  /** Tallying one more member adds one to the cell of its category, or to the unlabelled
      count when no label holds it. */
  lemma TallyStep(pc: map<int, int>, ids: seq<int>, j: nat, L: nat)
    requires j < |ids|
    requires forall p :: p in pc ==> 0 <= pc[p] < L
    ensures var row, row' := Row(Categories(pc, ids[..j]), L), Row(Categories(pc, ids[..j + 1]), L);
      var u, u' := CountIn(Categories(pc, ids[..j]), NoCategory), CountIn(Categories(pc, ids[..j + 1]), NoCategory);
      var id := ids[j];
      if id in pc then row' == row[pc[id] := row[pc[id]] + 1] && u' == u
      else row' == row && u' == u + 1
  {
    var before := Categories(pc, ids[..j]);
    var c := Categories(pc, ids)[j];
    assert Categories(pc, ids[..j + 1]) == before + [c];
    assert (before + [c])[..j] == before;
  }

  /** With every category below L, each member's category is NoCategory or below L. */
  lemma CategoriesInRange(pc: map<int, int>, ids: seq<int>, L: nat)
    requires forall p :: p in pc ==> 0 <= pc[p] < L
    ensures forall k :: 0 <= k < |ids| ==> NoCategory <= Categories(pc, ids)[k] < L
  {
    forall k | 0 <= k < |ids| ensures NoCategory <= Categories(pc, ids)[k] < L {
      var id := ids[k];
      if id in pc {
        assert 0 <= pc[id] < L;
      }
    }
  }

  /** The largest cell of a row, scanning from the last category down and skipping zero cells;
      0 when every cell is zero. */
  method MaxCell(row: seq<int>) returns (m: int)
    ensures m >= 0
    ensures forall j :: 0 <= j < |row| ==> row[j] <= m
    ensures m == 0 || m in row
  {
    m := 0;
    var i := |row|;
    while i > 0
      invariant 0 <= i <= |row|
      invariant m >= 0
      invariant forall j :: i <= j < |row| ==> row[j] <= m
      invariant m == 0 || m in row
    {
      i := i - 1;
      if row[i] != 0 && row[i] > m {
        m := row[i];
      }
    }
  }

  /** A row's largest cell is at most the row's sum, so at most the cluster's size. */
  lemma MaxCellAtMostSum(row: seq<int>, m: int)
    requires forall j :: 0 <= j < |row| ==> row[j] >= 0
    requires m == 0 || m in row
    ensures m <= Sum(row)
  {
    SumNonNegative(row);
    if m != 0 {
      var i :| 0 <= i < |row| && row[i] == m;
      CellAtMostSum(row, i);
    }
  }

  /** What evaluation computes for one cluster with member ids `ids`: its row of the table, its
      unlabelled count, which together account for every member, and the row's largest cell,
      which is at most the cluster's size. */
  ghost predicate ClusterTally(ids: seq<int>, pc: map<int, int>, L: nat, row: seq<int>, ungrouped: int, m: int)
  {
    row == Row(Categories(pc, ids), L)
    && ungrouped == CountIn(Categories(pc, ids), NoCategory)
    && Sum(row) + ungrouped == |ids|
    && 0 <= m <= |ids| && (m == 0 || m in row)
    && forall j :: 0 <= j < |row| ==> row[j] <= m
  }

  /** Evaluates one cluster (lib/KMeans.cpp:392-421): tallies its members, then takes the row's
      largest cell. */
  method EvaluateCluster(ids: seq<int>, pc: map<int, int>, L: nat) returns (row: seq<int>, ungrouped: int, m: int)
    requires forall p :: p in pc ==> 0 <= pc[p] < L
    ensures ClusterTally(ids, pc, L, row, ungrouped, m)
  {
    row, ungrouped := TallyCluster(ids, pc, L);
    m := MaxCell(row);
    MaxCellAtMostSum(row, m);
  }
}
