/** The clustering step of `Transformer.vertical_merge` in
    src/socio4health/transformer.py: the Jaccard similarity of the frames'
    column sets, the symmetric similarity matrix, and the greedy clustering
    that repeatedly takes the frame of highest mean similarity as a seed and
    gathers every remaining frame similar enough to it.

    Frames are seen here only through their column sets `cs`; frame `i` is
    index `i`. */
module TransformerCluster {
  import opened Wrappers
  import opened Tables

  // ---------------------------------------------------------------------
  // Similarity

  /** A subset is no larger than its superset, and as large only when equal. */
  lemma {:induction false} SubsetCard(a: set<Column>, b: set<Column>)
    requires a <= b
    ensures |a| <= |b|
    ensures |a| == |b| ==> a == b
    decreases |a|
  {
    if a != {} {
      var x :| x in a;
      SubsetCard(a - {x}, b - {x});
      if |a| == |b| {
        assert a - {x} == b - {x};
        assert a == (a - {x}) + {x};
        assert b == (b - {x}) + {x};
      }
    } else if |b| == 0 {
      assert b == {};
    }
  }

  /** `column_similarity`: the share of the columns of either frame that
      both frames have, 0 when neither has a column. */
  function Jaccard(a: set<Column>, b: set<Column>): (s: real)
    ensures 0.0 <= s <= 1.0
    ensures a + b == {} ==> s == 0.0
    ensures s == 1.0 <==> a == b && a != {}
  {
    if a + b == {} then 0.0
    else
      var i, u := |a * b|, |a + b|;
      SubsetCard(a * b, a + b);
      assert a == b ==> a * b == a + b;
      if i == u then
        assert a == a * b == b;
        1.0
      else
        assert a != b;
        FractionBelowOne(i, u);
        (i as real) / (u as real)
  }

  lemma JaccardSymmetric(a: set<Column>, b: set<Column>)
    ensures Jaccard(a, b) == Jaccard(b, a)
  {
    assert a * b == b * a && a + b == b + a;
  }

  /** Entry `[i, j]` of `similarity_matrix`: zero on the diagonal, the
      Jaccard similarity elsewhere. */
  function Similarity(cs: seq<set<Column>>, i: nat, j: nat): (s: real)
    requires i < |cs| && j < |cs|
    ensures 0.0 <= s <= 1.0
    ensures i == j ==> s == 0.0
    ensures i != j ==> s == Jaccard(cs[i], cs[j])
  {
    if i == j then 0.0 else Jaccard(cs[i], cs[j])
  }

  /** The matrix is symmetric. */
  lemma SimilaritySymmetric(cs: seq<set<Column>>, i: nat, j: nat)
    requires i < |cs| && j < |cs|
    ensures Similarity(cs, i, j) == Similarity(cs, j, i)
  {
    if i != j {
      JaccardSymmetric(cs[i], cs[j]);
    }
  }

  /** `np.zeros((n, n))` filled by the double loop over `i < j`. */
  method SimilarityMatrix(cs: seq<set<Column>>) returns (m: array2<real>)
    ensures fresh(m)
    ensures m.Length0 == |cs| && m.Length1 == |cs|
    ensures forall i, j :: 0 <= i < |cs| && 0 <= j < |cs| ==> m[i, j] == Similarity(cs, i, j)
  {
    var n := |cs|;
    m := new real[n, n]((i, j) => 0.0);
    var i := 0;
    while i < n
      invariant 0 <= i <= n
      invariant forall x, y :: 0 <= x < n && 0 <= y < n && (x < i || y < i) ==> m[x, y] == Similarity(cs, x, y)
      invariant forall x, y :: 0 <= x < n && 0 <= y < n && x >= i && y >= i ==> m[x, y] == 0.0
    {
      var j := i + 1;
      while j < n
        invariant i + 1 <= j <= n
        invariant forall x, y :: 0 <= x < n && 0 <= y < n && (x < i || y < i) ==> m[x, y] == Similarity(cs, x, y)
        invariant forall y :: i < y < j ==> m[i, y] == Similarity(cs, i, y) && m[y, i] == Similarity(cs, y, i)
        invariant forall x, y :: 0 <= x < n && 0 <= y < n && x >= i && y >= i && !(x == i && i < y < j) && !(y == i && i < x < j) ==> m[x, y] == 0.0
      {
        var sim := Jaccard(cs[i], cs[j]);
        JaccardSymmetric(cs[i], cs[j]);
        m[i, j] := sim;
        m[j, i] := sim;
        j := j + 1;
      }
      i := i + 1;
    }
  }

  // ---------------------------------------------------------------------
  // Choosing a seed

  /** `set(range(n))`. */
  function Indices(n: nat): (s: set<nat>)
    ensures forall i: nat :: i in s <==> i < n
  {
    if n == 0 then {} else Indices(n - 1) + {n - 1}
  }

  /** Sum of row `x` of the matrix over the members of `S` below `n`. */
  function RowSum(cs: seq<set<Column>>, x: nat, S: set<nat>, n: nat): (r: real)
    requires x < |cs| && n <= |cs|
    ensures 0.0 <= r
  {
    if n == 0 then 0.0
    else RowSum(cs, x, S, n - 1) + (if n - 1 in S then Similarity(cs, x, n - 1) else 0.0)
  }

  /** `np.mean(similarity_matrix[x, list(remaining_indices)])`: the mean
      includes the zero diagonal entry when `x` itself remains. */
  function Mean(cs: seq<set<Column>>, x: nat, S: set<nat>): real
    requires x < |cs| && S != {}
  {
    RowSum(cs, x, S, |cs|) / (|S| as real)
  }

  /** `max(remaining_indices, key=...)` restricted to the indices below `n`:
      the set is walked in ascending order and an index replaces the best
      so far only when its mean is strictly greater, so ties go to the
      smallest index. */
  function BestBelow(cs: seq<set<Column>>, S: set<nat>, n: nat): (b: Option<nat>)
    requires S != {} && n <= |cs|
    ensures b.None? <==> forall y: nat :: y in S ==> y >= n
    ensures b.Some? ==> b.value in S && b.value < n
  {
    if n == 0 then None
    else
      var b := BestBelow(cs, S, n - 1);
      if n - 1 !in S then b
      else if b.None? || Mean(cs, n - 1, S) > Mean(cs, b.value, S) then Some(n - 1)
      else b
  }

  /** `seed_idx`: the remaining index of highest mean similarity to the
      remaining indices, the smallest one among equals. */
  function Seed(cs: seq<set<Column>>, S: set<nat>): (s: nat)
    requires S != {} && S <= Indices(|cs|)
    ensures s in S
  {
    var y :| y in S;
    BestBelow(cs, S, |cs|).value
  }

  /** The best index below `n` has the highest mean among them, and every
      smaller index a strictly lower one. */
  lemma {:induction false} BestBelowIsBest(cs: seq<set<Column>>, S: set<nat>, n: nat)
    requires S != {} && n <= |cs|
    ensures var b := BestBelow(cs, S, n);
      b.Some? ==>
        && (forall y: nat :: y in S && y < n ==> Mean(cs, y, S) <= Mean(cs, b.value, S))
        && (forall y: nat :: y in S && y < b.value ==> Mean(cs, y, S) < Mean(cs, b.value, S))
  {
    if n > 0 {
      BestBelowIsBest(cs, S, n - 1);
    }
  }

  /** No remaining index has a higher mean than the seed, and every
      smaller index has a strictly lower one. */
  lemma SeedIsBest(cs: seq<set<Column>>, S: set<nat>)
    requires S != {} && S <= Indices(|cs|)
    ensures forall y: nat :: y in S ==> Mean(cs, y, S) <= Mean(cs, Seed(cs, S), S)
    ensures forall y: nat :: y in S && y < Seed(cs, S) ==> Mean(cs, y, S) < Mean(cs, Seed(cs, S), S)
  {
    var y :| y in S;
    BestBelowIsBest(cs, S, |cs|);
  }

  /** The mean of row `x` over `S`, computed as the loop over the matrix does. */
  method RowMean(cs: seq<set<Column>>, m: array2<real>, x: nat, S: set<nat>) returns (mean: real)
    requires m.Length0 == |cs| && m.Length1 == |cs|
    requires forall i, j :: 0 <= i < |cs| && 0 <= j < |cs| ==> m[i, j] == Similarity(cs, i, j)
    requires x < |cs| && S != {}
    ensures mean == Mean(cs, x, S)
  {
    var sum := 0.0;
    var y := 0;
    while y < |cs|
      invariant 0 <= y <= |cs|
      invariant sum == RowSum(cs, x, S, y)
    {
      if y in S {
        sum := sum + m[x, y];
      }
      y := y + 1;
    }
    mean := sum / (|S| as real);
  }

  /** The `max` call that picks the seed. */
  method ChooseSeed(cs: seq<set<Column>>, m: array2<real>, S: set<nat>) returns (seed: nat)
    requires m.Length0 == |cs| && m.Length1 == |cs|
    requires forall i, j :: 0 <= i < |cs| && 0 <= j < |cs| ==> m[i, j] == Similarity(cs, i, j)
    requires S != {} && S <= Indices(|cs|)
    ensures seed == Seed(cs, S)
  {
    var best: Option<nat> := None;
    var bestMean := 0.0;
    var x := 0;
    while x < |cs|
      invariant 0 <= x <= |cs|
      invariant best == BestBelow(cs, S, x)
      invariant best.Some? ==> bestMean == Mean(cs, best.value, S)
    {
      if x in S {
        var mean := RowMean(cs, m, x, S);
        if best.None? || mean > bestMean {
          best := Some(x);
          bestMean := mean;
        }
      }
      x := x + 1;
    }
    seed := best.value;
  }

  // ---------------------------------------------------------------------
  // Clusters

  /** The remaining indices at least `threshold` similar to the seed. */
  function Above(cs: seq<set<Column>>, seed: nat, S: set<nat>, threshold: real): (a: set<nat>)
    requires seed < |cs| && S <= Indices(|cs|)
    ensures forall y: nat :: y in a <==> y in S && Similarity(cs, seed, y) >= threshold
  {
    AboveBelow(cs, seed, S, threshold, |cs|)
  }

  /** The members of `Above` below `n`. */
  function AboveBelow(cs: seq<set<Column>>, seed: nat, S: set<nat>, threshold: real, n: nat): (a: set<nat>)
    requires seed < |cs| && n <= |cs|
    ensures forall y: nat :: y in a <==> y < n && y in S && Similarity(cs, seed, y) >= threshold
  {
    if n == 0 then {}
    else AboveBelow(cs, seed, S, threshold, n - 1) + (if n - 1 in S && Similarity(cs, seed, n - 1) >= threshold then {n - 1} else {})
  }

  /** The cluster grown from the seed of `S`: the seed and every other
      index of `S` at least `threshold` similar to it. */
  function First(cs: seq<set<Column>>, threshold: real, S: set<nat>): (c: set<nat>)
    requires S != {} && S <= Indices(|cs|)
    ensures Seed(cs, S) in c && c <= S
    ensures forall y: nat :: y in c && y != Seed(cs, S) ==> Similarity(cs, Seed(cs, S), y) >= threshold
    ensures forall y: nat :: y in S && y !in c ==> Similarity(cs, Seed(cs, S), y) < threshold
  {
    var s := Seed(cs, S);
    {s} + Above(cs, s, S - {s}, threshold)
  }

  /** `clusters`, built from the remaining indices `S`: each cluster is its
      seed and every remaining index at least `threshold` similar to it. */
  function Clusters(cs: seq<set<Column>>, threshold: real, S: set<nat>): (cls: seq<set<nat>>)
    requires S <= Indices(|cs|)
    ensures forall i :: 0 <= i < |cls| ==> cls[i] <= S
    decreases S
  {
    if S == {} then []
    else
      var cluster := First(cs, threshold, S);
      var rest := Clusters(cs, threshold, S - cluster);
      ConsWithin(cluster, rest, S);
      [cluster] + rest
  }

  /** Prepending a subset of `S` to subsets of `S` gives subsets of `S`. */
  lemma ConsWithin(cluster: set<nat>, rest: seq<set<nat>>, S: set<nat>)
    requires cluster <= S
    requires forall i :: 0 <= i < |rest| ==> rest[i] <= S
    ensures forall i :: 0 <= i < |[cluster] + rest| ==> ([cluster] + rest)[i] <= S
  {
  }

  /** The first cluster, then the clusters of what it leaves. */
  lemma ClustersCons(cs: seq<set<Column>>, threshold: real, S: set<nat>)
    requires S <= Indices(|cs|) && S != {}
    ensures var cls := Clusters(cs, threshold, S);
      var rest := Clusters(cs, threshold, S - First(cs, threshold, S));
      && |cls| == |rest| + 1
      && cls[0] == First(cs, threshold, S)
      && forall i :: 1 <= i < |cls| ==> cls[i] == rest[i - 1]
  {
    var cluster := First(cs, threshold, S);
    var rest := Clusters(cs, threshold, S - cluster);
    var cls := Clusters(cs, threshold, S);
    assert cls == [cluster] + rest;
  }

  /** All the indices the clusters hold. */
  function UnionOf(cls: seq<set<nat>>): (u: set<nat>)
    ensures forall i :: 0 <= i < |cls| ==> cls[i] <= u
  {
    if cls == [] then {} else cls[0] + UnionOf(cls[1..])
  }

  /** The clusters partition the indices they are built from. */
  lemma {:induction false} ClustersPartition(cs: seq<set<Column>>, threshold: real, S: set<nat>)
    requires S <= Indices(|cs|)
    ensures var cls := Clusters(cs, threshold, S);
      && UnionOf(cls) == S
      && (forall i :: 0 <= i < |cls| ==> cls[i] != {})
      && (forall i, j :: 0 <= i < j < |cls| ==> cls[i] * cls[j] == {})
    decreases S
  {
    if S != {} {
      var cluster := First(cs, threshold, S);
      var rest := Clusters(cs, threshold, S - cluster);
      ClustersPartition(cs, threshold, S - cluster);
      ClustersCons(cs, threshold, S);
      var cls := Clusters(cs, threshold, S);
      assert cls[1..] == rest;
      forall i, j | 0 <= i < j < |cls| ensures cls[i] * cls[j] == {} {
        if i == 0 {
          assert cls[j] <= S - cluster;
        } else {
          assert cls[i] == rest[i - 1] && cls[j] == rest[j - 1];
        }
      }
    }
  }

  /** When every two indices are similar enough, they all join the first seed. */
  lemma AllSimilarOneCluster(cs: seq<set<Column>>, threshold: real, S: set<nat>)
    requires S <= Indices(|cs|) && S != {}
    requires forall x: nat, y: nat :: x in S && y in S && x != y ==> Similarity(cs, x, y) >= threshold
    ensures Clusters(cs, threshold, S) == [S]
  {
    var cluster := First(cs, threshold, S);
    assert cluster == S;
    assert S - cluster == {};
    ClustersCons(cs, threshold, S);
  }

  /** With a threshold of 0 or less every index joins the first seed. */
  lemma LowThresholdOneCluster(cs: seq<set<Column>>, threshold: real, S: set<nat>)
    requires S <= Indices(|cs|) && S != {} && threshold <= 0.0
    ensures Clusters(cs, threshold, S) == [S]
  {
    AllSimilarOneCluster(cs, threshold, S);
  }

  /** With a threshold above 1 no index joins another: one cluster per index. */
  lemma {:induction false} HighThresholdSingletons(cs: seq<set<Column>>, threshold: real, S: set<nat>)
    requires S <= Indices(|cs|) && threshold > 1.0
    ensures var cls := Clusters(cs, threshold, S);
      |cls| == |S| && forall i :: 0 <= i < |cls| ==> |cls[i]| == 1
    decreases S
  {
    if S != {} {
      var s := Seed(cs, S);
      var cluster := First(cs, threshold, S);
      forall y: nat | y in cluster ensures y == s {
        assert Similarity(cs, s, y) <= 1.0;
      }
      assert cluster == {s};
      var left := S - cluster;
      assert |left| == |S| - 1;
      HighThresholdSingletons(cs, threshold, left);
      ClustersCons(cs, threshold, S);
      var cls := Clusters(cs, threshold, S);
      var rest := Clusters(cs, threshold, left);
      forall i | 0 <= i < |cls| ensures |cls[i]| == 1 {
        if i > 0 {
          assert cls[i] == rest[i - 1];
        }
      }
    }
  }

  /** With the default threshold 1, frames share a cluster only when they
      have the same, non-empty, column set. */
  lemma {:induction false} DefaultThresholdSameColumns(cs: seq<set<Column>>, S: set<nat>)
    requires S <= Indices(|cs|)
    ensures var cls := Clusters(cs, 1.0, S);
      forall i, x: nat, y: nat :: 0 <= i < |cls| && x in cls[i] && y in cls[i] && x != y ==> cs[x] == cs[y] && cs[x] != {}
    decreases S
  {
    if S != {} {
      var s := Seed(cs, S);
      var cluster := First(cs, 1.0, S);
      var rest := Clusters(cs, 1.0, S - cluster);
      DefaultThresholdSameColumns(cs, S - cluster);
      ClustersCons(cs, 1.0, S);
      var cls := Clusters(cs, 1.0, S);
      assert forall y: nat :: y in cluster && y != s ==> cs[y] == cs[s] && cs[s] != {};
      forall i, x: nat, y: nat | 0 <= i < |cls| && x in cls[i] && y in cls[i] && x != y
        ensures cs[x] == cs[y] && cs[x] != {}
      {
        if i > 0 {
          assert cls[i] == rest[i - 1];
        }
      }
    }
  }

  // ---------------------------------------------------------------------
  // The loops

  /** One pass of `for idx in list(remaining_indices)`: every remaining
      index similar enough to the seed moves into the cluster. */
  method Gather(cs: seq<set<Column>>, m: array2<real>, seed: nat, threshold: real, cluster: set<nat>, remaining: set<nat>)
    returns (cluster': set<nat>, remaining': set<nat>, added: bool)
    requires m.Length0 == |cs| && m.Length1 == |cs|
    requires forall i, j :: 0 <= i < |cs| && 0 <= j < |cs| ==> m[i, j] == Similarity(cs, i, j)
    requires seed < |cs| && remaining <= Indices(|cs|)
    ensures remaining' == remaining - Above(cs, seed, remaining, threshold)
    ensures cluster' == cluster + Above(cs, seed, remaining, threshold)
    ensures added <==> Above(cs, seed, remaining, threshold) != {}
  {
    var above := Above(cs, seed, remaining, threshold);
    cluster', remaining', added := cluster, remaining, false;
    var idx := 0;
    while idx < |cs|
      invariant 0 <= idx <= |cs|
      invariant remaining' == remaining - set y: nat | y in above && y < idx
      invariant cluster' == cluster + set y: nat | y in above && y < idx
      invariant added <==> exists y: nat :: y in above && y < idx
    {
      if idx in remaining && m[seed, idx] >= threshold {
        cluster' := cluster' + {idx};
        remaining' := remaining' - {idx};
        added := true;
      }
      idx := idx + 1;
    }
    assert (set y: nat | y in above && y < idx) == above;
  }

  /** The body of `while remaining_indices`: the seed leaves the remaining
      indices, and `while added` repeats the pass until nothing moves; the
      second pass never moves anything, as the pass compares only against
      the seed. */
  method GrowCluster(cs: seq<set<Column>>, m: array2<real>, threshold: real, S: set<nat>)
    returns (cluster: set<nat>, remaining: set<nat>)
    requires m.Length0 == |cs| && m.Length1 == |cs|
    requires forall i, j :: 0 <= i < |cs| && 0 <= j < |cs| ==> m[i, j] == Similarity(cs, i, j)
    requires S != {} && S <= Indices(|cs|)
    ensures cluster == First(cs, threshold, S)
    ensures remaining == S - cluster
  {
    var seed := ChooseSeed(cs, m, S);
    cluster := {seed};
    remaining := S - {seed};
    var added := true;
    while added
      invariant remaining <= S && seed !in remaining
      invariant cluster == S - remaining
      invariant forall y: nat :: y in cluster && y != seed ==> Similarity(cs, seed, y) >= threshold
      invariant !added ==> forall y: nat :: y in remaining ==> Similarity(cs, seed, y) < threshold
      decreases |remaining| + (if added then 1 else 0)
    {
      ghost var (cluster0, remaining0) := (cluster, remaining);
      cluster, remaining, added := Gather(cs, m, seed, threshold, cluster, remaining);
      PassKeeps(cs, threshold, S, seed, cluster0, remaining0, cluster, remaining);
    }
    ClosedCluster(cs, threshold, S, cluster);
  }

  /** One pass keeps what `while added` relies on: the cluster and the
      remaining indices still split `S`, the cluster gains only indices
      similar enough to the seed, nothing similar enough remains
      afterwards, and a pass that moves something leaves fewer indices. */
  lemma PassKeeps(cs: seq<set<Column>>, threshold: real, S: set<nat>, seed: nat,
                  cluster: set<nat>, remaining: set<nat>, cluster': set<nat>, remaining': set<nat>)
    requires seed < |cs| && S <= Indices(|cs|)
    requires remaining <= S && seed !in remaining && cluster == S - remaining
    requires forall y: nat :: y in cluster && y != seed ==> Similarity(cs, seed, y) >= threshold
    requires remaining' == remaining - Above(cs, seed, remaining, threshold)
    requires cluster' == cluster + Above(cs, seed, remaining, threshold)
    ensures remaining' <= S && seed !in remaining' && cluster' == S - remaining'
    ensures forall y: nat :: y in cluster' && y != seed ==> Similarity(cs, seed, y) >= threshold
    ensures forall y: nat :: y in remaining' ==> Similarity(cs, seed, y) < threshold
    ensures |remaining'| <= |remaining|
    ensures Above(cs, seed, remaining, threshold) != {} ==> |remaining'| < |remaining|
  {
    if Above(cs, seed, remaining, threshold) != {} {
      assert remaining' < remaining;
    } else {
      assert remaining' == remaining;
    }
  }

  /** A cluster that holds the seed, only indices similar enough to it, and
      every index of `S` similar enough to it, is the first cluster. */
  lemma ClosedCluster(cs: seq<set<Column>>, threshold: real, S: set<nat>, cluster: set<nat>)
    requires S != {} && S <= Indices(|cs|)
    requires Seed(cs, S) in cluster && cluster <= S
    requires forall y: nat :: y in cluster && y != Seed(cs, S) ==> Similarity(cs, Seed(cs, S), y) >= threshold
    requires forall y: nat :: y in S && y !in cluster ==> Similarity(cs, Seed(cs, S), y) < threshold
    ensures cluster == First(cs, threshold, S)
  {
  }

  /** `clusters`, computed by the loops of `vertical_merge`. */
  method ClusterIndices(cs: seq<set<Column>>, m: array2<real>, threshold: real) returns (clusters: seq<set<nat>>)
    requires m.Length0 == |cs| && m.Length1 == |cs|
    requires forall i, j :: 0 <= i < |cs| && 0 <= j < |cs| ==> m[i, j] == Similarity(cs, i, j)
    ensures clusters == Clusters(cs, threshold, Indices(|cs|))
  {
    clusters := [];
    var remaining := Indices(|cs|);
    while remaining != {}
      invariant remaining <= Indices(|cs|)
      invariant clusters + Clusters(cs, threshold, remaining) == Clusters(cs, threshold, Indices(|cs|))
      decreases remaining
    {
      var S := remaining;
      var cluster;
      cluster, remaining := GrowCluster(cs, m, threshold, S);
      ClusterStep(cs, threshold, S, cluster, remaining, clusters);
      clusters := clusters + [cluster];
    }
  }

  /** One round of the outer loop keeps the clusters built so far, followed
      by those of what remains, equal to all the clusters. */
  lemma ClusterStep(cs: seq<set<Column>>, threshold: real, S: set<nat>, cluster: set<nat>, remaining: set<nat>,
                    clusters: seq<set<nat>>)
    requires S != {} && S <= Indices(|cs|)
    requires cluster == First(cs, threshold, S) && remaining == S - cluster
    requires clusters + Clusters(cs, threshold, S) == Clusters(cs, threshold, Indices(|cs|))
    ensures remaining < S
    ensures (clusters + [cluster]) + Clusters(cs, threshold, remaining) == Clusters(cs, threshold, Indices(|cs|))
  {
    ClustersCons(cs, threshold, S);
    var rest := Clusters(cs, threshold, remaining);
    assert Clusters(cs, threshold, S) == [cluster] + rest;
    AppendAssoc(clusters, [cluster], rest);
  }

  lemma AppendAssoc<T>(a: seq<T>, b: seq<T>, c: seq<T>)
    ensures (a + b) + c == a + (b + c)
  {
  }

  /** The similarity matrix and the clusters, as `vertical_merge` builds them. */
  method Clustering(cs: seq<set<Column>>, threshold: real) returns (clusters: seq<set<nat>>)
    ensures clusters == Clusters(cs, threshold, Indices(|cs|))
  {
    var m := SimilarityMatrix(cs);
    clusters := ClusterIndices(cs, m, threshold);
  }
}
