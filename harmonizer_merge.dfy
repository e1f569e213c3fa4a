/** The merge pass of `vertical_merge` (src/socio4health/harmonizer.py).

    A group of one table is returned as it is. A larger group is aligned,
    every member reordered so that the columns all members share come first
    (in the member's own order) and its other columns after them, and the
    aligned members are concatenated vertically with an outer join of their
    columns. */
module HarmonizerMerge {
  import opened Wrappers
  import opened Text
  import opened Tables
  import opened HarmonizerGrouping

  /** The tables at the indices of a group, in group order. */
  function Members(ts: seq<Table>, g: seq<nat>): (ms: seq<Table>)
    requires InRange(ts, g)
    ensures |ms| == |g|
    ensures forall k :: 0 <= k < |g| ==> ms[k] == ts[g[k]]
  {
    seq(|g|, k requires 0 <= k < |g| => ts[g[k]])
  }

  /** The columns every table of a non-empty group has. */
  function CommonColumns(ms: seq<Table>): (r: set<Column>)
    requires ms != []
    ensures forall c :: c in r <==> forall k :: 0 <= k < |ms| ==> c in ColSet(ms[k])
  {
    if |ms| == 1 then ColSet(ms[0])
    else
      var init := ms[..|ms| - 1];
      var r := CommonColumns(init) * ColSet(ms[|ms| - 1]);
      assert forall k :: 0 <= k < |ms| - 1 ==> init[k] == ms[k];
      r
  }

  /** `common_cols_ordered + other_cols`: the columns of `cols` that lie in
      `common`, then the others, each part in the order of `cols`. */
  function AlignedOrder(cols: seq<Column>, common: set<Column>): (r: seq<Column>)
    ensures SetOf(r) == SetOf(cols)
    ensures Distinct(cols) ==> Distinct(r) && |r| == |cols|
    ensures CommonFirst(r, common)
    ensures FilterIn(r, common) == FilterIn(cols, common)
    ensures FilterOut(r, common) == FilterOut(cols, common)
  {
    var front := FilterIn(cols, common);
    var back := FilterOut(cols, common);
    var r := front + back;
    assert SetOf(r) == SetOf(front) + SetOf(back);
    AlignedOrderDistinct(cols, common);
    AlignedOrderCommonFirst(cols, common);
    AlignedOrderParts(cols, common);
    r
  }

  /** Each part of the aligned order is the member's own columns of that
      part, in the member's order. */
  lemma AlignedOrderParts(cols: seq<Column>, common: set<Column>)
    ensures FilterIn(FilterIn(cols, common) + FilterOut(cols, common), common) == FilterIn(cols, common)
    ensures FilterOut(FilterIn(cols, common) + FilterOut(cols, common), common) == FilterOut(cols, common)
  {
    var front := FilterIn(cols, common);
    var back := FilterOut(cols, common);
    FilterInConcat(front, back, common);
    FilterOutConcat(front, back, common);
    forall x | x in front ensures x in common {
      assert x in SetOf(front);
    }
    forall x | x in back ensures x !in common {
      assert x in SetOf(back);
    }
    FilterWithin(front, common);
    FilterOutside(back, common);
  }

  /** A sequence with the common columns first is determined by its two
      parts: it is the common part followed by the rest. */
  lemma {:induction false} CommonFirstSplit(r: seq<Column>, common: set<Column>)
    requires CommonFirst(r, common)
    ensures r == FilterIn(r, common) + FilterOut(r, common)
  {
    if r != [] {
      var init := r[..|r| - 1];
      var x := r[|r| - 1];
      assert r == init + [x];
      assert CommonFirst(init, common);
      CommonFirstSplit(init, common);
      if x in common {
        forall y | y in init ensures y in common {
          var i :| 0 <= i < |init| && init[i] == y;
          assert r[i] == y;
        }
        FilterWithin(init, common);
        assert FilterIn(r, common) == init + [x];
        assert FilterOut(r, common) == [];
      } else {
        assert FilterIn(r, common) == FilterIn(init, common);
        assert FilterOut(r, common) == FilterOut(init, common) + [x];
      }
    }
  }

  /** Any order with the common columns first whose two parts keep the
      member's order is the aligned order. */
  lemma AlignedOrderUnique(cols: seq<Column>, common: set<Column>, r: seq<Column>)
    requires CommonFirst(r, common)
    requires FilterIn(r, common) == FilterIn(cols, common)
    requires FilterOut(r, common) == FilterOut(cols, common)
    ensures r == AlignedOrder(cols, common)
  {
    CommonFirstSplit(r, common);
  }

  /** No column of `common` comes after one outside it. */
  predicate CommonFirst(r: seq<Column>, common: set<Column>)
  {
    forall i, j :: 0 <= i < j < |r| && r[j] in common ==> r[i] in common
  }

  lemma AlignedOrderDistinct(cols: seq<Column>, common: set<Column>)
    ensures Distinct(cols) ==> Distinct(FilterIn(cols, common) + FilterOut(cols, common))
    ensures Distinct(cols) ==> |FilterIn(cols, common) + FilterOut(cols, common)| == |cols|
  {
    var front := FilterIn(cols, common);
    var back := FilterOut(cols, common);
    if Distinct(cols) {
      forall x | x in back ensures x !in front {
        assert x in SetOf(back);
        assert x !in SetOf(front);
      }
      DistinctConcat(front, back);
      assert SetOf(front + back) == SetOf(front) + SetOf(back);
      DistinctSize(front + back);
      DistinctSize(cols);
    }
  }

  lemma AlignedOrderCommonFirst(cols: seq<Column>, common: set<Column>)
    ensures CommonFirst(FilterIn(cols, common) + FilterOut(cols, common), common)
  {
    var front := FilterIn(cols, common);
    var back := FilterOut(cols, common);
    var r := front + back;
    forall j | |front| <= j < |r| ensures r[j] !in common {
      assert r[j] == back[j - |front|];
      assert r[j] in SetOf(back);
    }
    forall i, j | 0 <= i < j < |r| && r[j] in common ensures r[i] in common {
      assert r[i] == front[i];
      assert front[i] in SetOf(front);
    }
  }

  /** `df[common_cols_ordered + other_cols]`: the same table with the
      columns in `common` moved to the front. */
  function Align(t: Table, common: set<Column>): (r: Table)
    requires Valid(t)
    ensures Valid(r)
    ensures r.rows == t.rows && r.dtypes == t.dtypes
    ensures ColSet(r) == ColSet(t) && |r.columns| == |t.columns|
    ensures r.columns == AlignedOrder(t.columns, common)
    ensures CommonFirst(r.columns, common)
  {
    Project(t, AlignedOrder(t.columns, common))
  }

  /** Every table of `ms` aligned on `common`. */
  function AlignAll(ms: seq<Table>, common: set<Column>): (as_: seq<Table>)
    requires AllValid(ms)
    ensures AllValid(as_) && |as_| == |ms|
    ensures forall k :: 0 <= k < |ms| ==> ColSet(as_[k]) == ColSet(ms[k]) && as_[k].rows == ms[k].rows
  {
    if ms == [] then [] else AlignAll(ms[..|ms| - 1], common) + [Align(ms[|ms| - 1], common)]
  }

  lemma {:induction false} AlignAllAt(ms: seq<Table>, common: set<Column>, k: nat)
    requires AllValid(ms) && k < |ms|
    ensures AlignAll(ms, common)[k] == Align(ms[k], common)
  {
    if k < |ms| - 1 {
      AlignAllAt(ms[..|ms| - 1], common, k);
    }
  }

  /** The members of a group, each aligned on the group's common columns. */
  function AlignedMembers(ts: seq<Table>, g: seq<nat>): (as_: seq<Table>)
    requires AllValid(ts) && InRange(ts, g) && g != []
    ensures AllValid(as_) && |as_| == |g|
    ensures forall k :: 0 <= k < |g| ==> ColSet(as_[k]) == ColSet(ts[g[k]]) && as_[k].rows == ts[g[k]].rows
  {
    AlignAll(Members(ts, g), CommonColumns(Members(ts, g)))
  }

  /** One group merged into one table. */
  function MergeGroup(ts: seq<Table>, g: seq<nat>): (r: Table)
    requires AllValid(ts) && InRange(ts, g) && g != []
    ensures Valid(r)
    ensures ColSet(r) == UnionCols(ts, g)
    ensures |r.rows| == SumRows(ts, g)
  {
    if |g| == 1 then
      assert g[..0] == [];
      ts[g[0]]
    else
      var as_ := AlignedMembers(ts, g);
      TotalRowsAligned(ts, g, |g|);
      UnionColsAligned(ts, g, |g|);
      assert as_[..|g|] == as_ && g[..|g|] == g;
      Concat(as_)
  }

  /** The result of `vertical_merge`: one merged table per group, in group order. */
  function VerticalMerge(ts: seq<Table>, p: Params): (r: Result<seq<Table>>)
    requires AllValid(ts)
    ensures r.Ok? <==> Grouping(ts, p).Ok?
    ensures r.Err? ==> r.error == ZeroDivisionError
    ensures r.Ok? ==> |r.value| == |Grouping(ts, p).value|
  {
    match Grouping(ts, p)
    case Err(e) => Err(e)
    case Ok(gs) =>
      GroupingPartition(ts, p);
      Ok(seq(|gs|, t requires 0 <= t < |gs| => MergeGroup(ts, gs[t])))
  }

  // ---------------------------------------------------------------------
  // Row bookkeeping.

  /** The number of rows of the tables at the given indices, added up. */
  function SumRows(ts: seq<Table>, xs: seq<nat>): nat
    requires InRange(ts, xs)
  {
    if xs == [] then 0 else SumRows(ts, xs[..|xs| - 1]) + |ts[xs[|xs| - 1]].rows|
  }

  lemma {:induction false} SumRowsConcat(ts: seq<Table>, a: seq<nat>, b: seq<nat>)
    requires InRange(ts, a) && InRange(ts, b)
    ensures InRange(ts, a + b)
    ensures SumRows(ts, a + b) == SumRows(ts, a) + SumRows(ts, b)
  {
    if b != [] {
      SumRowsConcat(ts, a, b[..|b| - 1]);
      assert (a + b)[..|a + b| - 1] == a + b[..|b| - 1];
    } else {
      assert a + b == a;
    }
  }

  /** Taking one index out of a sequence takes its rows out of the sum. */
  lemma SumRowsRemove(ts: seq<Table>, ys: seq<nat>, i: nat)
    requires InRange(ts, ys) && i < |ys|
    ensures InRange(ts, ys[..i] + ys[i + 1..])
    ensures SumRows(ts, ys) == SumRows(ts, ys[..i] + ys[i + 1..]) + |ts[ys[i]].rows|
  {
    assert ys == ys[..i] + ([ys[i]] + ys[i + 1..]);
    SumRowsConcat(ts, ys[..i], [ys[i]] + ys[i + 1..]);
    SumRowsConcat(ts, [ys[i]], ys[i + 1..]);
    SumRowsConcat(ts, ys[..i], ys[i + 1..]);
    assert SumRows(ts, [ys[i]]) == |ts[ys[i]].rows| by { assert [ys[i]][..0] == []; }
  }

  /** Two sequences with the same elements, less their last and one equal element. */
  lemma MultisetRemoveLast(xs: seq<nat>, ys: seq<nat>) returns (i: nat)
    requires xs != [] && multiset(xs) == multiset(ys)
    ensures i < |ys| && ys[i] == xs[|xs| - 1]
    ensures multiset(xs[..|xs| - 1]) == multiset(ys[..i] + ys[i + 1..])
  {
    var x := xs[|xs| - 1];
    var init := xs[..|xs| - 1];
    assert xs == init + [x];
    assert x in multiset(ys);
    i :| 0 <= i < |ys| && ys[i] == x;
    var rest := ys[..i] + ys[i + 1..];
    assert ys == ys[..i] + [x] + ys[i + 1..];
    assert multiset(init) == multiset(xs) - multiset{x};
    assert multiset(rest) == multiset(ys) - multiset{x};
  }

  /** `SumRows` depends only on which indices occur, and how often. */
  lemma {:induction false} SumRowsPermutation(ts: seq<Table>, xs: seq<nat>, ys: seq<nat>)
    requires InRange(ts, xs) && InRange(ts, ys)
    requires multiset(xs) == multiset(ys)
    ensures SumRows(ts, xs) == SumRows(ts, ys)
    decreases |xs|
  {
    if xs == [] {
      assert ys == [] by { assert |multiset(ys)| == 0; }
    } else {
      var i := MultisetRemoveLast(xs, ys);
      SumRowsRemove(ts, ys, i);
      SumRowsPermutation(ts, xs[..|xs| - 1], ys[..i] + ys[i + 1..]);
    }
  }

  /** In a sequence without repetitions each element occurs once. */
  lemma {:induction false} DistinctMultiplicity(xs: seq<nat>, x: nat)
    requires Distinct(xs)
    ensures multiset(xs)[x] == if x in xs then 1 else 0
  {
    if xs != [] {
      var init := xs[..|xs| - 1];
      DistinctMultiplicity(init, x);
      assert xs == init + [xs[|xs| - 1]];
      assert xs[|xs| - 1] !in init;
    }
  }

  function Range(n: nat): (r: seq<nat>)
    ensures |r| == n && forall i :: 0 <= i < n ==> r[i] == i
  {
    seq(n, i requires 0 <= i < n => i)
  }

  lemma {:induction false} SumRowsRange(ts: seq<Table>, m: nat)
    requires m <= |ts|
    ensures InRange(ts, Range(m)) && SumRows(ts, Range(m)) == TotalRows(ts[..m])
  {
    if m > 0 {
      SumRowsRange(ts, m - 1);
      assert Range(m)[..m - 1] == Range(m - 1);
      assert ts[..m][..m - 1] == ts[..m - 1];
    }
  }

  /** The rows of a whole partition: summing group by group counts every table once. */
  lemma {:induction false} SumRowsFlatten(ts: seq<Table>, gs: seq<seq<nat>>)
    requires forall t :: 0 <= t < |gs| ==> InRange(ts, gs[t])
    ensures InRange(ts, Flatten(gs))
    ensures SumRows(ts, Flatten(gs)) == GroupRows(ts, gs)
  {
    if gs != [] {
      SumRowsFlatten(ts, gs[1..]);
      SumRowsConcat(ts, gs[0], Flatten(gs[1..]));
    }
  }

  function GroupRows(ts: seq<Table>, gs: seq<seq<nat>>): nat
    requires forall t :: 0 <= t < |gs| ==> InRange(ts, gs[t])
  {
    if gs == [] then 0 else SumRows(ts, gs[0]) + GroupRows(ts, gs[1..])
  }

  lemma {:induction false} TotalRowsFront(ts: seq<Table>)
    requires ts != []
    ensures TotalRows(ts) == |ts[0].rows| + TotalRows(ts[1..])
  {
    if |ts| > 1 {
      TotalRowsFront(ts[..|ts| - 1]);
      assert ts[..|ts| - 1][1..] == ts[1..][..|ts[1..]| - 1];
    } else {
      assert ts[..0] == [];
    }
  }

  // ---------------------------------------------------------------------
  // Properties.

  lemma {:induction false} TotalRowsAligned(ts: seq<Table>, g: seq<nat>, m: nat)
    requires AllValid(ts) && InRange(ts, g) && g != [] && m <= |g|
    ensures TotalRows(AlignedMembers(ts, g)[..m]) == SumRows(ts, g[..m])
  {
    if m > 0 {
      TotalRowsAligned(ts, g, m - 1);
      var as_ := AlignedMembers(ts, g);
      assert as_[..m][..m - 1] == as_[..m - 1];
      assert g[..m][..m - 1] == g[..m - 1];
    }
  }

  lemma {:induction false} UnionColsAligned(ts: seq<Table>, g: seq<nat>, m: nat)
    requires AllValid(ts) && InRange(ts, g) && g != [] && m <= |g|
    ensures UnionAll(AlignedMembers(ts, g)[..m]) == UnionCols(ts, g[..m])
  {
    if m > 0 {
      UnionColsAligned(ts, g, m - 1);
      var as_ := AlignedMembers(ts, g);
      UnionAllPrefix(as_, m);
      UnionColsPrefix(ts, g, m);
      assert ColSet(as_[m - 1]) == ColSet(ts[g[m - 1]]);
    }
  }

  /** The columns of the first `m` tables: those of the first `m - 1` and the `m`-th. */
  lemma UnionAllPrefix(xs: seq<Table>, m: nat)
    requires 0 < m <= |xs|
    ensures UnionAll(xs[..m]) == UnionAll(xs[..m - 1]) + ColSet(xs[m - 1])
  {
    assert xs[..m][..m - 1] == xs[..m - 1];
  }

  /** The columns of the first `m` group members: those of the first `m - 1` and the `m`-th. */
  lemma UnionColsPrefix(ts: seq<Table>, g: seq<nat>, m: nat)
    requires InRange(ts, g) && 0 < m <= |g|
    ensures UnionCols(ts, g[..m]) == UnionCols(ts, g[..m - 1]) + ColSet(ts[g[m - 1]])
  {
    assert g[..m][..m - 1] == g[..m - 1];
  }

  /** In a merged group the columns all members share come first, in the
      order of the group's first member; every other column comes after them. */
  lemma MergeGroupCommonFirst(ts: seq<Table>, g: seq<nat>)
    requires AllValid(ts) && InRange(ts, g) && |g| > 1
    ensures var r := MergeGroup(ts, g);
      var common := CommonColumns(Members(ts, g));
      && |FilterIn(ts[g[0]].columns, common)| <= |r.columns|
      && r.columns[..|FilterIn(ts[g[0]].columns, common)|] == FilterIn(ts[g[0]].columns, common)
      && forall i :: |FilterIn(ts[g[0]].columns, common)| <= i < |r.columns| ==> r.columns[i] !in common
  {
    var common := CommonColumns(Members(ts, g));
    var front := FilterIn(ts[g[0]].columns, common);
    var r := MergeGroup(ts, g);
    MergedColumnsStart(ts, g);
    CommonInFirst(ts, g);
    assert r.columns[..|front|] == front;
    DistinctTailAvoids(r.columns, |front|, common);
  }

  /** The merged columns open with the first member's common columns. */
  lemma MergedColumnsStart(ts: seq<Table>, g: seq<nat>)
    requires AllValid(ts) && InRange(ts, g) && |g| > 1
    ensures var front := FilterIn(ts[g[0]].columns, CommonColumns(Members(ts, g)));
      var r := MergeGroup(ts, g);
      |front| <= |r.columns| && r.columns[..|front|] == front
  {
    var as_ := AlignedMembers(ts, g);
    var common := CommonColumns(Members(ts, g));
    var first := ts[g[0]];
    ConcatColumnsStartWithFirst(as_);
    AlignAllAt(Members(ts, g), common, 0);
    assert Members(ts, g)[0] == first;
    PrefixOfPrefix(Concat(as_).columns, FilterIn(first.columns, common), FilterOut(first.columns, common));
  }

  lemma PrefixOfPrefix(r: seq<Column>, front: seq<Column>, back: seq<Column>)
    requires |front + back| <= |r| && r[..|front + back|] == front + back
    ensures |front| <= |r| && r[..|front|] == front
  {
    assert r[..|front|] == r[..|front + back|][..|front|];
  }

  /** Every common column is a column of the first member. */
  lemma CommonInFirst(ts: seq<Table>, g: seq<nat>)
    requires AllValid(ts) && InRange(ts, g) && g != []
    ensures SetOf(FilterIn(ts[g[0]].columns, CommonColumns(Members(ts, g)))) == CommonColumns(Members(ts, g))
  {
    assert Members(ts, g)[0] == ts[g[0]];
  }

  /** A table that forms a group by itself comes out unchanged. */
  lemma MergeSingleton(ts: seq<Table>, x: nat)
    requires AllValid(ts) && x < |ts|
    ensures MergeGroup(ts, [x]) == ts[x]
  {
  }

  /** `vertical_merge` neither loses nor duplicates a row: the merged tables
      hold, together, as many rows as the input tables. */
  lemma VerticalMergeKeepsRows(ts: seq<Table>, p: Params)
    requires AllValid(ts) && VerticalMerge(ts, p).Ok?
    ensures TotalRows(VerticalMerge(ts, p).value) == TotalRows(ts)
  {
    var gs := Grouping(ts, p).value;
    GroupingPartition(ts, p);
    var out := VerticalMerge(ts, p).value;
    MergedRows(ts, gs, out);
    SumRowsFlatten(ts, gs);
    var flat := Flatten(gs);
    var all := Range(|ts|);
    SumRowsRange(ts, |ts|);
    assert ts[..|ts|] == ts;
    PartitionMultiset(flat, |ts|);
    SumRowsPermutation(ts, flat, all);
  }

  /** A sequence holding each index below `n` exactly once is a permutation of them. */
  lemma PartitionMultiset(flat: seq<nat>, n: nat)
    requires Distinct(flat)
    requires forall x :: x in flat <==> 0 <= x < n
    ensures multiset(flat) == multiset(Range(n))
  {
    var all: seq<nat> := Range(n);
    var mf: multiset<nat> := multiset(flat);
    var ma: multiset<nat> := multiset(all);
    assert Distinct(all);
    forall x: nat ensures mf[x] == ma[x] {
      DistinctMultiplicity(flat, x);
      DistinctMultiplicity(all, x);
      if x < n {
        assert all[x] == x;
      }
    }
  }

  lemma {:induction false} MergedRows(ts: seq<Table>, gs: seq<seq<nat>>, out: seq<Table>)
    requires AllValid(ts) && WellFormedGroups(ts, gs)
    requires |out| == |gs| && forall t :: 0 <= t < |gs| ==> out[t] == MergeGroup(ts, gs[t])
    ensures TotalRows(out) == GroupRows(ts, gs)
  {
    if gs != [] {
      TotalRowsFront(out);
      MergedRows(ts, gs[1..], out[1..]);
    }
  }

  /** Each merged table holds exactly the columns of its group's members. */
  lemma VerticalMergeColumns(ts: seq<Table>, p: Params)
    requires AllValid(ts) && VerticalMerge(ts, p).Ok?
    ensures var gs := Grouping(ts, p).value;
      var out := VerticalMerge(ts, p).value;
      && WellFormedGroups(ts, gs)
      && forall t :: 0 <= t < |out| ==> Valid(out[t]) && ColSet(out[t]) == UnionCols(ts, gs[t])
  {
    var gs := Grouping(ts, p).value;
    GroupingPartition(ts, p);
    forall t | 0 <= t < |gs| ensures Valid(MergeGroup(ts, gs[t])) && ColSet(MergeGroup(ts, gs[t])) == UnionCols(ts, gs[t]) {
    }
  }

  // ---------------------------------------------------------------------
  // The loops of the source.

  /** The merge of one group as the source computes it: the common columns
      by repeated intersection, then each member aligned in turn, then the
      concatenation. */
  method MergeGroupTables(ts: seq<Table>, g: seq<nat>) returns (r: Table)
    requires AllValid(ts) && InRange(ts, g) && g != []
    ensures r == MergeGroup(ts, g)
  {
    if |g| == 1 {
      return ts[g[0]];
    }
    var ms := Members(ts, g);
    var common := IntersectColumns(ms);
    var aligned := AlignEach(ms, common);
    r := Concat(aligned);
  }

  /** The common columns by repeated intersection, as the source computes them. */
  method IntersectColumns(ms: seq<Table>) returns (common: set<Column>)
    requires ms != []
    ensures common == CommonColumns(ms)
  {
    common := ColSet(ms[0]);
    var k := 1;
    assert ms[..1] == [ms[0]];
    while k < |ms|
      invariant 1 <= k <= |ms|
      invariant common == CommonColumns(ms[..k])
    {
      assert ms[..k + 1][..k] == ms[..k];
      common := common * ColSet(ms[k]);
      k := k + 1;
    }
    assert ms[..k] == ms;
  }

  /** Each member aligned in turn on the common columns. */
  method AlignEach(ms: seq<Table>, common: set<Column>) returns (aligned: seq<Table>)
    requires AllValid(ms)
    ensures aligned == AlignAll(ms, common)
  {
    aligned := [];
    var k := 0;
    while k < |ms|
      invariant 0 <= k <= |ms|
      invariant aligned == AlignAll(ms[..k], common)
    {
      assert ms[..k + 1][..k] == ms[..k];
      aligned := aligned + [Align(ms[k], common)];
      k := k + 1;
    }
    assert ms[..k] == ms;
  }

  /** A successful grouping holds non-empty, increasing groups of valid indices. */
  lemma GroupsWellFormed(ts: seq<Table>, p: Params)
    requires Grouping(ts, p).Ok?
    ensures WellFormedGroups(ts, Grouping(ts, p).value)
  {
    GroupingPartition(ts, p);
  }

  /** `vertical_merge`: the grouping pass, then one merge per group. */
  method VerticalMergeTables(ts: seq<Table>, p: Params) returns (r: Result<seq<Table>>)
    requires AllValid(ts)
    ensures r == VerticalMerge(ts, p)
  {
    if ts == [] {
      return Ok([]);
    }
    var grouped := GroupTables(ts, p);
    if grouped.Err? {
      return Err(grouped.error);
    }
    GroupsWellFormed(ts, p);
    var merged := MergeGroups(ts, grouped.value);
    return Ok(merged);
  }

  /** The loop over the groups, one merge each, in group order. */
  method MergeGroups(ts: seq<Table>, gs: seq<seq<nat>>) returns (merged: seq<Table>)
    requires AllValid(ts) && WellFormedGroups(ts, gs)
    ensures merged == seq(|gs|, u requires 0 <= u < |gs| => MergeGroup(ts, gs[u]))
  {
    merged := [];
    var t := 0;
    while t < |gs|
      invariant 0 <= t <= |gs|
      invariant |merged| == t
      invariant forall u :: 0 <= u < t ==> merged[u] == MergeGroup(ts, gs[u])
    {
      var m := MergeGroupTables(ts, gs[t]);
      merged := merged + [m];
      t := t + 1;
    }
  }
}
