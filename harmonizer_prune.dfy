/** `drop_nan_columns` (exact mode) and `get_available_columns` of
    src/socio4health/harmonizer.py. */
module HarmonizerPrune {
  import opened Wrappers
  import opened Text
  import opened Tables

  // ---------------------------------------------------------------------
  // drop_nan_columns

  /** The argument `ddf_or_ddfs`: one table or a list of tables. */
  datatype Input = One(table: Table) | Many(tables: seq<Table>)

  predicate InputValid(x: Input)
  {
    match x
    case One(t) => Valid(t)
    case Many(ts) => AllValid(ts)
  }

  /** `nan_percentages[c] > threshold`. A table without rows has a NaN
      missing fraction for every column, and NaN is above nothing. */
  predicate Overfull(t: Table, c: Column, threshold: real)
    requires Valid(t) && c in ColSet(t)
  {
    |t.rows| > 0 && MissingFraction(t, c) > threshold
  }

  /** `columns_to_drop`: the columns of `cols` that are over the threshold, in order. */
  function DropList(t: Table, threshold: real, cols: seq<Column>): (r: seq<Column>)
    requires Valid(t) && SetOf(cols) <= ColSet(t)
    ensures forall c :: c in r <==> c in cols && Overfull(t, c, threshold)
  {
    if cols == [] then []
    else
      var init := cols[..|cols| - 1];
      var c := cols[|cols| - 1];
      assert SetOf(init) <= SetOf(cols) by {
        forall x | x in SetOf(init) ensures x in SetOf(cols) {
          var k :| 0 <= k < |init| && init[k] == x;
          assert cols[k] == x;
        }
      }
      assert c in SetOf(cols);
      assert cols == init + [c];
      DropList(t, threshold, init) + (if Overfull(t, c, threshold) then [c] else [])
  }

  /** `process_ddf` in exact mode: the table without its over-threshold columns. */
  function ProcessTable(t: Table, threshold: real): (r: Table)
    requires Valid(t)
    ensures Valid(r)
    ensures forall c :: c in ColSet(r) <==> c in ColSet(t) && !Overfull(t, c, threshold)
    ensures |r.rows| == |t.rows|
    ensures forall k, c :: 0 <= k < |r.rows| && c in ColSet(r) ==> c in t.rows[k] && r.rows[k][c] == t.rows[k][c]
  {
    var drop := DropList(t, threshold, t.columns);
    if drop == [] then t
    else
      var keep := FilterOut(t.columns, SetOf(drop));
      assert forall c :: c in SetOf(keep) <==> c in ColSet(t) && !Overfull(t, c, threshold);
      Project(t, keep)
  }

  /** `drop_nan_columns(ddf_or_ddfs, threshold)` with `sample_frac=None`. */
  function DropNanColumns(x: Input, threshold: real): (r: Result<Input>)
    requires InputValid(x)
    ensures r.Err? <==> !(0.0 <= threshold <= 1.0)
    ensures r.Err? ==> r.error == ValueError
    ensures r.Ok? ==> InputValid(r.value) && r.value.One? == x.One?
    ensures r.Ok? && x.Many? ==> |r.value.tables| == |x.tables|
  {
    if !(0.0 <= threshold <= 1.0) then Err(ValueError)
    else
      match x
      case One(t) => Ok(One(ProcessTable(t, threshold)))
      case Many(ts) => Ok(Many(seq(|ts|, k requires 0 <= k < |ts| => ProcessTable(ts[k], threshold))))
  }

  /** A list is processed table by table: each output is the one-table result. */
  lemma DropNanColumnsEach(ts: seq<Table>, threshold: real, k: nat)
    requires AllValid(ts) && 0.0 <= threshold <= 1.0 && k < |ts|
    ensures DropNanColumns(Many(ts), threshold).value.tables[k]
         == DropNanColumns(One(ts[k]), threshold).value.table
  {
  }

  /** The kept columns stay in their original order. */
  lemma ProcessTableKeepsOrder(t: Table, threshold: real)
    requires Valid(t)
    ensures ProcessTable(t, threshold).columns == FilterOut(t.columns, SetOf(DropList(t, threshold, t.columns)))
  {
    var drop := DropList(t, threshold, t.columns);
    if drop == [] {
      assert SetOf(drop) == {};
      FilterOutNothing(t.columns);
    } else {
      assert ProcessTable(t, threshold) == Project(t, FilterOut(t.columns, SetOf(drop)));
    }
  }

  /** When no column of `cols` is over the threshold the drop list is empty. */
  lemma {:induction false} NothingOverfull(t: Table, threshold: real, cols: seq<Column>)
    requires Valid(t) && SetOf(cols) <= ColSet(t)
    requires forall c :: c in cols ==> !Overfull(t, c, threshold)
    ensures DropList(t, threshold, cols) == []
  {
    if cols != [] {
      var init := cols[..|cols| - 1];
      assert SetOf(init) <= SetOf(cols) by {
        forall x | x in SetOf(init) ensures x in SetOf(cols) {
          var k :| 0 <= k < |init| && init[k] == x;
          assert cols[k] == x;
        }
      }
      NothingOverfull(t, threshold, init);
    }
  }

  /** With the default threshold 1.0 nothing is dropped: no fraction exceeds 1. */
  lemma ThresholdOneKeepsAll(t: Table)
    requires Valid(t)
    ensures ProcessTable(t, 1.0) == t
  {
    NothingOverfull(t, 1.0, t.columns);
  }

  lemma ColumnValuesKept(t: Table, r: Table, c: Column)
    requires Valid(t) && Valid(r) && c in ColSet(t) && c in ColSet(r)
    requires |r.rows| == |t.rows|
    requires forall k :: 0 <= k < |r.rows| ==> r.rows[k][c] == t.rows[k][c]
    ensures ColumnValues(r, c) == ColumnValues(t, c)
  {
  }

  /** Pruning twice with the same threshold prunes nothing more: the kept
      columns keep their cells, hence their missing fractions. */
  lemma ProcessTableIdempotent(t: Table, threshold: real)
    requires Valid(t)
    ensures ProcessTable(ProcessTable(t, threshold), threshold) == ProcessTable(t, threshold)
  {
    var r := ProcessTable(t, threshold);
    forall c | c in r.columns ensures !Overfull(r, c, threshold) {
      assert c in ColSet(r);
      ColumnValuesKept(t, r, c);
    }
    NothingOverfull(r, threshold, r.columns);
  }

  // ---------------------------------------------------------------------
  // get_available_columns

  /** An element of the argument list: a table, or anything else. */
  datatype Item = TableItem(t: Table) | OtherItem

  /** The argument `ddfs`: a list, or anything else. */
  datatype Arg = ListArg(items: seq<Item>) | OtherArg

  /** Every column name of every table of the list, with repetitions. */
  function AllColumns(items: seq<Item>): (cs: seq<Column>)
    ensures forall c :: c in cs <==> exists k :: 0 <= k < |items| && items[k].TableItem? && c in items[k].t.columns
  {
    if items == [] then []
    else
      var init := items[..|items| - 1];
      var last := items[|items| - 1];
      var r := AllColumns(init) + (if last.TableItem? then last.t.columns else []);
      assert forall k :: 0 <= k < |init| ==> init[k] == items[k];
      r
  }

  /** `get_available_columns(ddfs)`: the sorted list of distinct column names. */
  function AvailableColumns(arg: Arg): (r: Result<seq<Column>>)
    ensures r.Err? <==> arg.OtherArg? || exists k :: 0 <= k < |arg.items| && arg.items[k].OtherItem?
    ensures r.Err? ==> r.error == TypeError
    ensures r.Ok? ==> StrictlySorted(r.value)
    ensures r.Ok? ==> forall c :: c in r.value <==> exists k :: 0 <= k < |arg.items| && c in arg.items[k].t.columns
  {
    match arg
    case OtherArg => Err(TypeError)
    case ListArg(items) =>
      if exists k :: 0 <= k < |items| && items[k].OtherItem? then Err(TypeError)
      else
        var cs := SortedDistinct(AllColumns(items));
        assert forall c :: c in cs <==> c in SetOf(cs);
        Ok(cs)
  }

  /** The listing is the only strictly sorted list of the union of the columns. */
  lemma AvailableColumnsUnique(arg: Arg, other: seq<Column>)
    requires AvailableColumns(arg).Ok?
    requires StrictlySorted(other)
    requires forall c :: c in other <==> exists k :: 0 <= k < |arg.items| && c in arg.items[k].t.columns
    ensures other == AvailableColumns(arg).value
  {
    var r := AvailableColumns(arg).value;
    assert SetOf(other) == SetOf(r);
    SortedUnique(other, r);
  }
}
