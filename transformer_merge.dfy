/** `Transformer.vertical_merge` of src/socio4health/transformer.py: cluster
    the frames by the Jaccard similarity of their column sets, then, per
    cluster, reindex every member to the cluster's column union, stack the
    rows and clean the result with `clean_nan_columns`. */
module TransformerMerge {
  import opened Wrappers
  import opened Text
  import opened Tables
  import opened TransformerClean
  import opened TransformerCluster

  /** The `dataframes` argument: a list of frames, or a single frame. */
  datatype Frames = FrameList(ts: seq<Table>) | OneFrame(t: Table)

  /** What `vertical_merge` returns: a bare frame (no input, or a single
      cluster), or one frame per cluster. */
  datatype Merged = Single(t: Table) | Several(ts: seq<Table>)

  /** The keyword arguments of `vertical_merge`. */
  datatype MergeOptions = MergeOptions(
    fillValue: Cell,
    sortColumns: bool,
    similarityThreshold: real,
    nanThreshold: real,
    dropEmptyRows: bool,
    fillMethod: FillMethod)

  /** The defaults of `vertical_merge`. */
  function DefaultOptions(): MergeOptions
  {
    MergeOptions(None, false, 1.0, 1.0, true, NoFillMethod)
  }

  /** `dataframes if isinstance(dataframes, list) else [dataframes]`. */
  function AsList(frames: Frames): (ts: seq<Table>)
    ensures frames.OneFrame? ==> ts == [frames.t]
    ensures frames.FrameList? ==> ts == frames.ts
  {
    match frames
    case FrameList(ts) => ts
    case OneFrame(t) => [t]
  }

  // ---------------------------------------------------------------------
  // Members of a cluster

  /** The column set of every frame, by index. */
  function ColSets(ts: seq<Table>): (cs: seq<set<Column>>)
    ensures |cs| == |ts|
    ensures forall i :: 0 <= i < |ts| ==> cs[i] == ColSet(ts[i])
  {
    seq(|ts|, i requires 0 <= i < |ts| => ColSet(ts[i]))
  }

  /** The members of `S` below `n` in ascending order: the order in which
      Python walks a set of small integers. */
  function Ascending(S: set<nat>, n: nat): (r: seq<nat>)
    ensures forall i :: 0 <= i < |r| ==> r[i] in S && r[i] < n
    ensures forall x: nat :: x in S && x < n ==> x in r
    ensures forall i, j :: 0 <= i < j < |r| ==> r[i] < r[j]
  {
    if n == 0 then []
    else Ascending(S, n - 1) + (if n - 1 in S then [n - 1] else [])
  }

  /** `[dataframes_list[i] for i in cluster]`. */
  function Members(ts: seq<Table>, S: set<nat>, n: nat): (r: seq<Table>)
    requires n <= |ts|
    ensures |r| == |Ascending(S, n)|
    ensures forall k :: 0 <= k < |r| ==> r[k] == ts[Ascending(S, n)[k]]
    ensures AllValid(ts) ==> AllValid(r)
  {
    if n == 0 then []
    else
      var pre := Members(ts, S, n - 1);
      var r := pre + (if n - 1 in S then [ts[n - 1]] else []);
      assert forall k :: 0 <= k < |pre| ==> r[k] == ts[Ascending(S, n)[k]];
      r
  }

  /** A non-empty set of indices has members. */
  lemma MembersNotEmpty(ts: seq<Table>, S: set<nat>)
    requires S != {} && S <= Indices(|ts|)
    ensures Members(ts, S, |ts|) != []
  {
    var x :| x in S;
    assert x in Ascending(S, |ts|);
  }

  /** `cluster_columns`: the union of the members' columns, sorted when
      `sort_columns`, else in order of first appearance. */
  function ClusterColumns(dfs: seq<Table>, sortColumns: bool): (cols: seq<Column>)
    requires AllValid(dfs)
    ensures Distinct(cols)
    ensures SetOf(cols) == UnionAll(dfs)
    ensures sortColumns ==> StrictlySorted(cols)
  {
    if sortColumns then
      var r := SortedDistinct(OrderedUnion(dfs));
      assert Distinct(r) by {
        forall i, j | 0 <= i < |r| && 0 <= j < |r| && i != j ensures r[i] != r[j] {
          StrictlySortedIsDistinct(r, i, j);
        }
      }
      r
    else OrderedUnion(dfs)
  }

  // ---------------------------------------------------------------------
  // Reindexing

  /** The dtype pandas gives a column that `reindex` creates: NaN makes a
      float column, an integer fill an integer column, text an object one. */
  function FillDType(fill: Cell): DType
  {
    match fill
    case None => "float64"
    case Some(Int(_)) => "int64"
    case Some(Str(_)) => "object"
  }

  /** One row reindexed: the row's own cell, or the fill value. */
  function ReindexRow(row: Row, cols: seq<Column>, fill: Cell): (r: Row)
    ensures r.Keys == SetOf(cols)
    ensures forall c :: c in cols && c in row ==> r[c] == row[c]
    ensures forall c :: c in cols && c !in row ==> r[c] == fill
  {
    if cols == [] then map[]
    else
      var init := cols[..|cols| - 1];
      var c := cols[|cols| - 1];
      assert cols == init + [c];
      ReindexRow(row, init, fill)[c := if c in row then row[c] else fill]
  }

  /** The dtype record reindexed. */
  function ReindexDTypes(dtypes: map<Column, DType>, cols: seq<Column>, fill: Cell): (r: map<Column, DType>)
    ensures r.Keys == SetOf(cols)
    ensures forall c :: c in cols && c in dtypes ==> r[c] == dtypes[c]
    ensures forall c :: c in cols && c !in dtypes ==> r[c] == FillDType(fill)
  {
    if cols == [] then map[]
    else
      var init := cols[..|cols| - 1];
      var c := cols[|cols| - 1];
      assert cols == init + [c];
      ReindexDTypes(dtypes, init, fill)[c := if c in dtypes then dtypes[c] else FillDType(fill)]
  }

  /** `df.reindex(columns=cols, fill_value=fill)`: the columns become `cols`,
      in that order; a column the frame has keeps its cells, a new one is
      filled, and a column not in `cols` is dropped. */
  function Reindex(t: Table, cols: seq<Column>, fill: Cell): (r: Table)
    requires Valid(t) && Distinct(cols)
    ensures Valid(r) && r.columns == cols && |r.rows| == |t.rows|
    ensures forall k, c :: 0 <= k < |t.rows| && c in cols && c in ColSet(t) ==> r.rows[k][c] == t.rows[k][c]
    ensures forall k, c :: 0 <= k < |t.rows| && c in cols && c !in ColSet(t) ==> r.rows[k][c] == fill
    ensures forall c :: c in cols && c in ColSet(t) ==> r.dtypes[c] == t.dtypes[c]
  {
    Table(cols, ReindexDTypes(t.dtypes, cols, fill),
          seq(|t.rows|, k requires 0 <= k < |t.rows| => ReindexRow(t.rows[k], cols, fill)))
  }

  /** Reindexing to the very same columns changes no cell. */
  lemma ReindexSameColumns(t: Table, fill: Cell)
    requires Valid(t)
    ensures Reindex(t, t.columns, fill).rows == t.rows
    ensures Reindex(t, t.columns, fill).dtypes == t.dtypes
  {
    var r := Reindex(t, t.columns, fill);
    forall k | 0 <= k < |t.rows| ensures r.rows[k] == t.rows[k] {
      ReindexedRow(t, t.columns, fill, k);
      assert r.rows[k].Keys == t.rows[k].Keys;
    }
    assert r.dtypes.Keys == t.dtypes.Keys;
  }

  /** Every member reindexed to the same columns. */
  function ReindexAll(dfs: seq<Table>, cols: seq<Column>, fill: Cell): (rs: seq<Table>)
    requires AllValid(dfs) && Distinct(cols)
    ensures |rs| == |dfs| && AllValid(rs)
    ensures forall i :: 0 <= i < |rs| ==> rs[i] == Reindex(dfs[i], cols, fill)
  {
    seq(|dfs|, i requires 0 <= i < |dfs| => Reindex(dfs[i], cols, fill))
  }

  /** Tables with the same row counts have the same total. */
  lemma {:induction false} TotalRowsSameSizes(a: seq<Table>, b: seq<Table>)
    requires |a| == |b| && forall i :: 0 <= i < |a| ==> |a[i].rows| == |b[i].rows|
    ensures TotalRows(a) == TotalRows(b)
  {
    if a != [] {
      TotalRowsSameSizes(a[..|a| - 1], b[..|b| - 1]);
    }
  }

  /** Tables that all have the columns `cols` have `cols` as their ordered
      union, so concatenating them keeps `cols`, in order. */
  lemma OrderedUnionSameColumns(rs: seq<Table>, cols: seq<Column>)
    requires AllValid(rs) && rs != []
    requires forall i :: 0 <= i < |rs| ==> rs[i].columns == cols
    ensures OrderedUnion(rs) == cols
  {
    var u := OrderedUnion(rs);
    OrderedUnionStartsWithFirst(rs);
    UnionAllSame(rs, cols);
    DistinctSize(u);
    DistinctSize(cols);
    assert |u| == |cols|;
    assert u == u[..|cols|];
  }

  /** Non-empty tables that all have the columns `cols` have `cols` as their union. */
  lemma {:induction false} UnionAllSame(rs: seq<Table>, cols: seq<Column>)
    requires rs != []
    requires forall i :: 0 <= i < |rs| ==> rs[i].columns == cols
    ensures UnionAll(rs) == SetOf(cols)
  {
    var init := rs[..|rs| - 1];
    if init != [] {
      forall i | 0 <= i < |init| ensures init[i].columns == cols {
        assert init[i] == rs[i];
      }
      UnionAllSame(init, cols);
    }
  }

  /** `pd.concat(reindexed_dfs, axis=0, ignore_index=True)`. */
  function Stack(dfs: seq<Table>, cols: seq<Column>, fill: Cell): (r: Table)
    requires AllValid(dfs) && Distinct(cols)
    ensures Valid(r)
    ensures |r.rows| == TotalRows(dfs)
    ensures dfs != [] ==> r.columns == cols
  {
    var rs := ReindexAll(dfs, cols, fill);
    TotalRowsSameSizes(rs, dfs);
    assert dfs != [] ==> Concat(rs).columns == cols by {
      if dfs != [] {
        OrderedUnionSameColumns(rs, cols);
      }
    }
    Concat(rs)
  }

  /** Row `k` of member `t` reappears in the stack after the rows of the
      members before it, with its own cells and the fill value elsewhere. */
  lemma StackKeepsRows(dfs: seq<Table>, cols: seq<Column>, fill: Cell, t: nat, k: nat)
    requires AllValid(dfs) && Distinct(cols) && t < |dfs| && k < |dfs[t].rows|
    ensures TotalRows(dfs[..t]) + k < |Stack(dfs, cols, fill).rows|
    ensures var row := Stack(dfs, cols, fill).rows[TotalRows(dfs[..t]) + k];
      && (forall c :: c in cols && c in ColSet(dfs[t]) ==> row[c] == dfs[t].rows[k][c])
      && (forall c :: c in cols && c !in ColSet(dfs[t]) ==> row[c] == fill)
  {
    var rs := ReindexAll(dfs, cols, fill);
    ReindexPrefixRows(dfs, cols, fill, t);
    ConcatKeepsRows(rs, t, k);
    ReindexedRow(dfs[t], cols, fill, k);
    StackIsConcat(dfs, cols, fill);
    CarryRow(Stack(dfs, cols, fill).rows[TotalRows(dfs[..t]) + k], rs[t].rows[k], dfs[t].rows[k],
             cols, ColSet(dfs[t]), fill);
  }

  /** A row that agrees with a reindexed row on the latter's columns holds
      what the reindexed row holds. */
  lemma CarryRow(row: Row, reRow: Row, src: Row, cols: seq<Column>, present: set<Column>, fill: Cell)
    requires forall c :: c in reRow ==> c in row && row[c] == reRow[c]
    requires forall c :: c in present ==> c in src
    requires forall c :: c in cols ==> c in reRow
    requires forall c :: c in cols && c in present ==> reRow[c] == src[c]
    requires forall c :: c in cols && c !in present ==> reRow[c] == fill
    ensures forall c :: c in cols && c in present ==> row[c] == src[c]
    ensures forall c :: c in cols && c !in present ==> row[c] == fill
  {
  }

  lemma StackIsConcat(dfs: seq<Table>, cols: seq<Column>, fill: Cell)
    requires AllValid(dfs) && Distinct(cols)
    ensures Stack(dfs, cols, fill) == Concat(ReindexAll(dfs, cols, fill))
  {
  }

  /** The members before `t` keep their row counts when reindexed. */
  lemma ReindexPrefixRows(dfs: seq<Table>, cols: seq<Column>, fill: Cell, t: nat)
    requires AllValid(dfs) && Distinct(cols) && t <= |dfs|
    ensures TotalRows(ReindexAll(dfs, cols, fill)[..t]) == TotalRows(dfs[..t])
  {
    var rs := ReindexAll(dfs, cols, fill);
    forall i | 0 <= i < t ensures |rs[..t][i].rows| == |dfs[..t][i].rows| {
      assert rs[..t][i] == Reindex(dfs[i], cols, fill);
    }
    TotalRowsSameSizes(rs[..t], dfs[..t]);
  }

  /** Row `k` of a reindexed frame: keys `cols`, the frame's own cell where
      it has the column, the fill value elsewhere. */
  lemma ReindexedRow(t: Table, cols: seq<Column>, fill: Cell, k: nat)
    requires Valid(t) && Distinct(cols) && k < |t.rows|
    ensures var r := Reindex(t, cols, fill).rows[k];
      && (forall c :: c in cols ==> c in r)
      && (forall c :: c in cols && c in ColSet(t) ==> r[c] == t.rows[k][c])
      && (forall c :: c in cols && c !in ColSet(t) ==> r[c] == fill)
  {
    assert Reindex(t, cols, fill).rows[k] == ReindexRow(t.rows[k], cols, fill);
  }

  // ---------------------------------------------------------------------
  // The whole call

  /** One cluster merged: its members stacked on the cluster's columns, then cleaned. */
  function MergeCluster(ts: seq<Table>, S: set<nat>, opts: MergeOptions): (r: Table)
    requires AllValid(ts)
    ensures Valid(r)
  {
    var dfs := Members(ts, S, |ts|);
    var cols := ClusterColumns(dfs, opts.sortColumns);
    CleanTable(Stack(dfs, cols, opts.fillValue), opts.nanThreshold, opts.dropEmptyRows, opts.fillMethod, opts.fillValue)
  }

  /** The clusters of `ts` under the options' threshold. */
  function ClustersOf(ts: seq<Table>, opts: MergeOptions): (cls: seq<set<nat>>)
  {
    Clusters(ColSets(ts), opts.similarityThreshold, Indices(|ts|))
  }

  /** `vertical_merge` on the frames `ts`. */
  function VerticalMerge(ts: seq<Table>, opts: MergeOptions): (r: Merged)
    requires AllValid(ts)
    ensures ts == [] ==> r == Single(EmptyTable())
    ensures ts != [] ==> (r.Single? <==> |ClustersOf(ts, opts)| == 1)
    ensures r.Several? ==> |r.ts| == |ClustersOf(ts, opts)| && |r.ts| >= 2
  {
    if ts == [] then Single(EmptyTable())
    else
      var cls := ClustersOf(ts, opts);
      ClustersPartition(ColSets(ts), opts.similarityThreshold, Indices(|ts|));
      assert 0 in Indices(|ts|);
      assert cls != [];
      var merged := seq(|cls|, i requires 0 <= i < |cls| => MergeCluster(ts, cls[i], opts));
      if |merged| == 1 then Single(merged[0]) else Several(merged)
  }

  /** Each output frame is its cluster's members stacked and cleaned: before
      cleaning the stack has the cluster's column union and as many rows as
      its members together. */
  lemma MergedClusterShape(ts: seq<Table>, S: set<nat>, opts: MergeOptions)
    requires AllValid(ts) && S != {} && S <= Indices(|ts|)
    ensures var dfs := Members(ts, S, |ts|);
      var stacked := Stack(dfs, ClusterColumns(dfs, opts.sortColumns), opts.fillValue);
      && SetOf(stacked.columns) == UnionAll(dfs)
      && |stacked.rows| == TotalRows(dfs)
      && MergeCluster(ts, S, opts) == CleanTable(stacked, opts.nanThreshold, opts.dropEmptyRows, opts.fillMethod, opts.fillValue)
  {
    MembersNotEmpty(ts, S);
  }

  /** Every frame belongs to exactly one output cluster. */
  lemma EveryFrameOnce(ts: seq<Table>, opts: MergeOptions, i: nat)
    requires i < |ts|
    ensures var cls := ClustersOf(ts, opts);
      exists c :: 0 <= c < |cls| && i in cls[c]
    ensures var cls := ClustersOf(ts, opts);
      forall c, d :: 0 <= c < |cls| && 0 <= d < |cls| && i in cls[c] && i in cls[d] ==> c == d
  {
    var cls := ClustersOf(ts, opts);
    ClustersPartition(ColSets(ts), opts.similarityThreshold, Indices(|ts|));
    UnionOfMember(cls, i);
  }

  /** A member of the union lies in one of the sets. */
  lemma {:induction false} UnionOfMember(cls: seq<set<nat>>, x: nat)
    requires x in UnionOf(cls)
    ensures exists c :: 0 <= c < |cls| && x in cls[c]
  {
    if x !in cls[0] {
      UnionOfMember(cls[1..], x);
      var c :| 0 <= c < |cls[1..]| && x in cls[1..][c];
      assert x in cls[c + 1];
    }
  }

  /** Frames that all have the same non-empty column set merge, under the
      default threshold 1 (or any threshold up to 1), into a single frame. */
  lemma SameColumnsSingleFrame(ts: seq<Table>, opts: MergeOptions)
    requires AllValid(ts) && ts != [] && opts.similarityThreshold <= 1.0
    requires forall i :: 0 <= i < |ts| ==> ColSet(ts[i]) == ColSet(ts[0]) && ColSet(ts[0]) != {}
    ensures VerticalMerge(ts, opts).Single?
  {
    var cs := ColSets(ts);
    forall x: nat, y: nat | x in Indices(|ts|) && y in Indices(|ts|) && x != y
      ensures Similarity(cs, x, y) >= opts.similarityThreshold
    {
      assert cs[x] == cs[y];
    }
    AllSimilarOneCluster(cs, opts.similarityThreshold, Indices(|ts|));
  }

  // ---------------------------------------------------------------------
  // The object and its loops

  /** The `Transformer` object, reduced to the frames `vertical_merge` reads. */
  class Transformer {
    var dataframes: seq<Table>

    /** `Transformer(dataframes=...)`: a single frame is wrapped in a list. */
    constructor(frames: Frames)
      ensures dataframes == AsList(frames)
    {
      dataframes := AsList(frames);
    }

    /** The `dataframes` setter: a single frame is wrapped in a list. */
    method SetDataframes(frames: Frames)
      modifies this
      ensures dataframes == AsList(frames)
    {
      dataframes := AsList(frames);
    }

    /** `vertical_merge`, with its loops. */
    method VerticalMergeFrames(opts: MergeOptions) returns (r: Merged)
      requires AllValid(dataframes)
      ensures r == VerticalMerge(dataframes, opts)
    {
      r := MergeFrames(dataframes, opts);
    }
  }

  /** The body of `vertical_merge`: the clustering, then one merge per cluster. */
  method MergeFrames(ts: seq<Table>, opts: MergeOptions) returns (r: Merged)
    requires AllValid(ts)
    ensures r == VerticalMerge(ts, opts)
  {
    if |ts| == 0 {
      return Single(EmptyTable());
    }
    var clusters := Clustering(ColSets(ts), opts.similarityThreshold);
    var merged := MergeClusters(ts, clusters, opts);
    if |merged| == 1 {
      r := Single(merged[0]);
    } else {
      r := Several(merged);
    }
  }

  /** The loop over the clusters, one merged frame each, in cluster order. */
  method MergeClusters(ts: seq<Table>, clusters: seq<set<nat>>, opts: MergeOptions) returns (merged: seq<Table>)
    requires AllValid(ts)
    ensures merged == seq(|clusters|, k requires 0 <= k < |clusters| => MergeCluster(ts, clusters[k], opts))
  {
    merged := [];
    var i := 0;
    while i < |clusters|
      invariant 0 <= i <= |clusters|
      invariant |merged| == i
      invariant forall k :: 0 <= k < i ==> merged[k] == MergeCluster(ts, clusters[k], opts)
    {
      var cleaned := MergeOne(ts, clusters[i], opts);
      AppendMerged(ts, clusters, opts, merged, cleaned);
      merged := merged + [cleaned];
      i := i + 1;
    }
  }

  /** Appending the next cluster's frame keeps the merged frames in step
      with the clusters. */
  lemma AppendMerged(ts: seq<Table>, clusters: seq<set<nat>>, opts: MergeOptions, merged: seq<Table>, t: Table)
    requires AllValid(ts) && |merged| < |clusters|
    requires forall k :: 0 <= k < |merged| ==> merged[k] == MergeCluster(ts, clusters[k], opts)
    requires t == MergeCluster(ts, clusters[|merged|], opts)
    ensures forall k :: 0 <= k < |merged| + 1 ==> (merged + [t])[k] == MergeCluster(ts, clusters[k], opts)
  {
    forall k | 0 <= k < |merged| + 1 ensures (merged + [t])[k] == MergeCluster(ts, clusters[k], opts) {
      if k < |merged| {
        assert (merged + [t])[k] == merged[k];
      }
    }
  }

  /** The body of the loop over the clusters. */
  method MergeOne(ts: seq<Table>, S: set<nat>, opts: MergeOptions) returns (merged: Table)
    requires AllValid(ts)
    ensures merged == MergeCluster(ts, S, opts)
  {
    var dfs := CollectMembers(ts, S);
    var cols := ClusterColumns(dfs, opts.sortColumns);
    var reindexed := ReindexMembers(dfs, cols, opts.fillValue);
    var stacked := Concat(reindexed);
    merged := CleanTable(stacked, opts.nanThreshold, opts.dropEmptyRows, opts.fillMethod, opts.fillValue);
  }

  /** The list comprehension over the cluster, walking the indices in order. */
  method CollectMembers(ts: seq<Table>, S: set<nat>) returns (dfs: seq<Table>)
    ensures dfs == Members(ts, S, |ts|)
  {
    dfs := [];
    var idx := 0;
    while idx < |ts|
      invariant 0 <= idx <= |ts|
      invariant dfs == Members(ts, S, idx)
    {
      if idx in S {
        dfs := dfs + [ts[idx]];
      }
      idx := idx + 1;
    }
  }

  /** The loop that reindexes every member. */
  method ReindexMembers(dfs: seq<Table>, cols: seq<Column>, fill: Cell) returns (rs: seq<Table>)
    requires AllValid(dfs) && Distinct(cols)
    ensures rs == ReindexAll(dfs, cols, fill)
  {
    ghost var want := ReindexAll(dfs, cols, fill);
    rs := [];
    var j := 0;
    while j < |dfs|
      invariant 0 <= j <= |dfs|
      invariant rs == want[..j]
    {
      assert want[..j + 1] == want[..j] + [want[j]];
      rs := rs + [Reindex(dfs[j], cols, fill)];
      j := j + 1;
    }
    assert want[..j] == want;
  }
}
