/** Centroid seeding (lib/KMeans.cpp:199-225) draws point indices and retries on a repeat, so
    the indices it keeps are the supplied draws with repeats dropped, in order of first
    appearance. */
module Seeding {

  /** The values a sequence of draws holds. */
  function Values(s: seq<int>): set<int>
  {
    set x | x in s
  }

  /** The draws with every repeat dropped, in order of first appearance. */
  function Dedup(s: seq<int>): (r: seq<int>)
    ensures Values(r) == Values(s)
  {
    if |s| == 0 then []
    else
      var n := |s| - 1;
      var d := Dedup(s[..n]);
      assert s == s[..n] + [s[n]];
      assert Values(s) == Values(s[..n]) + {s[n]};
      if s[n] in s[..n] then d
      else
        assert Values(d + [s[n]]) == Values(d) + {s[n]};
        d + [s[n]]
  }

  /** No value is kept twice. */
  lemma {:induction false} DedupDistinct(s: seq<int>)
    ensures forall a, b :: 0 <= a < b < |Dedup(s)| ==> Dedup(s)[a] != Dedup(s)[b]
  {
    if |s| > 0 {
      var n := |s| - 1;
      DedupDistinct(s[..n]);
      var d := Dedup(s[..n]);
      if s[n] !in s[..n] {
        assert s[n] !in Values(d);
        assert Dedup(s) == d + [s[n]];
      }
    }
  }

  /** Dropping repeats from a prefix gives a prefix of the result for the whole sequence. */
  lemma {:induction false} DedupPrefix(s: seq<int>, j: nat)
    requires j <= |s|
    ensures |Dedup(s[..j])| <= |Dedup(s)|
    ensures Dedup(s[..j]) == Dedup(s)[..|Dedup(s[..j])|]
  {
    if j < |s| {
      var n := |s| - 1;
      assert s[..n][..j] == s[..j];
      DedupPrefix(s[..n], j);
    } else {
      assert s[..j] == s;
    }
  }

  /** A prefix one longer holds one more value. */
  lemma ValuesStep(s: seq<int>, j: nat)
    requires j < |s|
    ensures Values(s[..j + 1]) == Values(s[..j]) + {s[j]}
  {
    assert s[..j + 1] == s[..j] + [s[j]];
  }

  /** One more draw adds its value at the end, unless it repeats an earlier draw. */
  lemma DedupStep(s: seq<int>, j: nat)
    requires j < |s|
    ensures Values(s[..j + 1]) == Values(s[..j]) + {s[j]}
    ensures s[j] in Values(s[..j]) ==> Dedup(s[..j + 1]) == Dedup(s[..j])
    ensures s[j] !in Values(s[..j]) ==> Dedup(s[..j + 1]) == Dedup(s[..j]) + [s[j]]
  {
    assert s[..j + 1][..j] == s[..j];
    assert s[..j + 1] == s[..j] + [s[j]];
  }

  /** While fewer than K distinct values have been seen and the draws hold at least K, a draw
      remains. */
  lemma DrawsRemain(s: seq<int>, j: nat, K: int)
    requires j <= |s| && |Dedup(s[..j])| < K <= |Values(s)|
    ensures j < |s|
  {
    if j == |s| {
      assert s[..j] == s;
      DedupSize(s);
    }
  }

  /** As many values are kept as the draws hold distinct values. */
  lemma {:induction false} DedupSize(s: seq<int>)
    ensures |Dedup(s)| == |Values(s)|
  {
    DedupDistinct(s);
    DistinctValuesCard(Dedup(s));
  }

  lemma {:induction false} DistinctValuesCard(r: seq<int>)
    requires forall a, b :: 0 <= a < b < |r| ==> r[a] != r[b]
    ensures |Values(r)| == |r|
  {
    if |r| > 0 {
      var n := |r| - 1;
      assert forall a, b :: 0 <= a < b < n ==> r[..n][a] != r[..n][b];
      DistinctValuesCard(r[..n]);
      assert r == r[..n] + [r[n]];
      forall j | 0 <= j < n ensures r[..n][j] != r[n] {
        assert r[..n][j] == r[j];
      }
      assert r[n] !in Values(r[..n]);
      assert Values(r) == Values(r[..n]) + {r[n]};
    } else {
      assert Values(r) == {};
    }
  }
}
