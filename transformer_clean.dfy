/** `clean_nan_columns` of src/socio4health/transformer.py: drop the columns
    whose missing fraction reaches the threshold, optionally drop the rows
    left without any value, then fill the remaining gaps, by carrying values
    forward or backward down each column, or with a fixed value. */
module TransformerClean {
  import opened Wrappers
  import opened Text
  import opened Tables

  /** The argument `df`: a pandas data frame, or anything else. */
  datatype Input = DataFrame(t: Table) | NotDataFrame

  /** The argument `fill_method`: 'ffill', 'bfill', or any other value (None included). */
  datatype FillMethod = FFill | BFill | NoFillMethod

  // ---------------------------------------------------------------------
  // Columns

  /** `nan_percent[c] >= nan_threshold`. A table without rows has a NaN
      missing fraction for every column, and NaN reaches no threshold. */
  predicate MostlyMissing(t: Table, c: Column, threshold: real)
    requires Valid(t) && c in ColSet(t)
  {
    |t.rows| > 0 && MissingFraction(t, c) >= threshold
  }

  /** `cols_to_drop`. */
  function NanColumns(t: Table, threshold: real): (s: set<Column>)
    requires Valid(t)
    ensures forall c :: c in s <==> c in ColSet(t) && MostlyMissing(t, c, threshold)
  {
    set c | c in ColSet(t) && MostlyMissing(t, c, threshold)
  }

  /** `df.drop(columns=cols_to_drop)`. */
  function DropNanColumns(t: Table, threshold: real): (r: Table)
    requires Valid(t)
    ensures Valid(r)
    ensures forall c :: c in ColSet(r) <==> c in ColSet(t) && !MostlyMissing(t, c, threshold)
    ensures r.columns == FilterOut(t.columns, NanColumns(t, threshold)) && InOrder(r.columns, t.columns)
    ensures |r.rows| == |t.rows|
    ensures forall k, c :: 0 <= k < |r.rows| && c in ColSet(r) ==> c in t.rows[k] && r.rows[k][c] == t.rows[k][c]
  {
    var keep := FilterOut(t.columns, NanColumns(t, threshold));
    assert forall c :: c in SetOf(keep) <==> c in ColSet(t) && !MostlyMissing(t, c, threshold);
    FilterOutInOrder(t.columns, NanColumns(t, threshold));
    Project(t, keep)
  }

  /** A column is missing in every row exactly when its missing fraction is 1. */
  lemma {:induction false} CountMissingAll(cells: seq<Cell>)
    ensures CountMissing(cells) == |cells| <==> forall k :: 0 <= k < |cells| ==> cells[k].None?
  {
    if cells != [] {
      var init := cells[..|cells| - 1];
      CountMissingAll(init);
      assert forall k :: 0 <= k < |init| ==> init[k] == cells[k];
    }
  }

  lemma AtLeastOne(m: real, n: real)
    requires n > 0.0
    ensures m / n >= 1.0 <==> m >= n
  {
    var q := m / n;
    assert q * n == m;
    if q >= 1.0 {
      assert q * n >= 1.0 * n;
    } else {
      assert q * n < 1.0 * n;
    }
  }

  /** With the default threshold 1.0 a column is dropped exactly when the table
      has rows and every one of them misses it. */
  lemma DefaultThresholdDropsAllMissing(t: Table, c: Column)
    requires Valid(t) && c in ColSet(t)
    ensures MostlyMissing(t, c, 1.0) <==> |t.rows| > 0 && forall k :: 0 <= k < |t.rows| ==> t.rows[k][c].None?
  {
    var cells := ColumnValues(t, c);
    CountMissingAll(cells);
    if |t.rows| > 0 {
      var n := |t.rows| as real;
      var m := CountMissing(cells) as real;
      assert MissingFraction(t, c) == m / n;
      AtLeastOne(m, n);
    }
  }

  // ---------------------------------------------------------------------
  // Rows

  /** The row holds no value at all. */
  predicate AllMissing(row: Row)
  {
    forall c :: c in row ==> row[c].None?
  }

  /** `dropna(how='all')` on the rows: the rows with at least one value, in order. */
  function KeepRowsWithValues(rows: seq<Row>): (r: seq<Row>)
    ensures |r| <= |rows|
    ensures forall x :: x in r <==> x in rows && !AllMissing(x)
  {
    if rows == [] then []
    else
      var init := rows[..|rows| - 1];
      var last := rows[|rows| - 1];
      assert rows == init + [last];
      KeepRowsWithValues(init) + (if AllMissing(last) then [] else [last])
  }

  /** The positions of the rows that hold a value, in increasing order. */
  function ValuedIndices(rows: seq<Row>): (idx: seq<nat>)
    ensures forall j :: 0 <= j < |idx| ==> idx[j] < |rows|
    ensures forall j1, j2 :: 0 <= j1 < j2 < |idx| ==> idx[j1] < idx[j2]
    ensures forall i :: 0 <= i < |rows| ==> (i in idx <==> !AllMissing(rows[i]))
  {
    if rows == [] then []
    else
      var init := rows[..|rows| - 1];
      var pre := ValuedIndices(init);
      assert forall i :: 0 <= i < |init| ==> init[i] == rows[i];
      if AllMissing(rows[|rows| - 1]) then pre else pre + [|rows| - 1]
  }

  /** The kept rows are the rows at the valued positions, in order: no row
      holding a value is dropped, repeated or moved. */
  lemma {:induction false} KeepRowsAtValuedIndices(rows: seq<Row>)
    ensures |KeepRowsWithValues(rows)| == |ValuedIndices(rows)|
    ensures forall j :: 0 <= j < |ValuedIndices(rows)| ==>
      KeepRowsWithValues(rows)[j] == rows[ValuedIndices(rows)[j]]
  {
    if rows != [] {
      var init := rows[..|rows| - 1];
      var last := rows[|rows| - 1];
      KeepRowsAtValuedIndices(init);
      var pre := ValuedIndices(init);
      var kept := KeepRowsWithValues(init);
      var idx := ValuedIndices(rows);
      var all := KeepRowsWithValues(rows);
      assert idx == pre + (if AllMissing(last) then [] else [|rows| - 1]);
      assert all == kept + (if AllMissing(last) then [] else [last]);
      forall j | 0 <= j < |idx| ensures all[j] == rows[idx[j]] {
        if j < |pre| {
          assert idx[j] == pre[j] && all[j] == kept[j];
          assert init[pre[j]] == rows[pre[j]];
        }
      }
    }
  }

  /** Rows that all hold a value are all kept, in order. */
  lemma {:induction false} KeepRowsWithValuesNoneEmpty(rows: seq<Row>)
    requires forall k :: 0 <= k < |rows| ==> !AllMissing(rows[k])
    ensures KeepRowsWithValues(rows) == rows
  {
    if rows != [] {
      var init := rows[..|rows| - 1];
      var last := rows[|rows| - 1];
      assert forall k :: 0 <= k < |init| ==> init[k] == rows[k];
      KeepRowsWithValuesNoneEmpty(init);
      KeepRowsSnoc(rows);
      SnocPrefix(rows);
    }
  }

  /** A sequence is its prefix followed by its last element. */
  lemma SnocPrefix<T>(s: seq<T>)
    requires s != []
    ensures s[..|s| - 1] + [s[|s| - 1]] == s
  {
  }

  /** A last row that holds a value is kept after the rows kept before it. */
  lemma KeepRowsSnoc(rows: seq<Row>)
    requires rows != [] && !AllMissing(rows[|rows| - 1])
    ensures KeepRowsWithValues(rows) == KeepRowsWithValues(rows[..|rows| - 1]) + [rows[|rows| - 1]]
  {
  }

  /** `cleaned_df.dropna(how='all')`. */
  function DropEmptyRows(t: Table): (r: Table)
    requires Valid(t)
    ensures Valid(r) && r.columns == t.columns && r.dtypes == t.dtypes
    ensures forall x :: x in r.rows <==> x in t.rows && !AllMissing(x)
    ensures |r.rows| <= |t.rows|
    ensures |r.rows| == |ValuedIndices(t.rows)|
    ensures forall j :: 0 <= j < |r.rows| ==> r.rows[j] == t.rows[ValuedIndices(t.rows)[j]]
  {
    KeepRowsAtValuedIndices(t.rows);
    var r := Table(t.columns, t.dtypes, KeepRowsWithValues(t.rows));
    assert forall k :: 0 <= k < |r.rows| ==> r.rows[k] in t.rows;
    r
  }

  // ---------------------------------------------------------------------
  // Filling

  /** What `fillna(method='ffill')` leaves in cell `k` of a column: the
      nearest value at or above it, or nothing when there is none. */
  function CarriedDown(cells: seq<Cell>, k: nat): (v: Cell)
    requires k < |cells|
    ensures cells[k].Some? ==> v == cells[k]
    ensures v.None? <==> forall j :: 0 <= j <= k ==> cells[j].None?
    ensures v.Some? ==> exists j :: 0 <= j <= k && cells[j] == v && forall i :: j < i <= k ==> cells[i].None?
    decreases k
  {
    if cells[k].Some? || k == 0 then cells[k] else CarriedDown(cells, k - 1)
  }

  /** What `fillna(method='bfill')` leaves in cell `k` of a column: the
      nearest value at or below it, or nothing when there is none. */
  function CarriedUp(cells: seq<Cell>, k: nat): (v: Cell)
    requires k < |cells|
    ensures cells[k].Some? ==> v == cells[k]
    ensures v.None? <==> forall j :: k <= j < |cells| ==> cells[j].None?
    ensures v.Some? ==> exists j :: k <= j < |cells| && cells[j] == v && forall i :: k <= i < j ==> cells[i].None?
    decreases |cells| - k
  {
    if cells[k].Some? || k == |cells| - 1 then cells[k] else CarriedUp(cells, k + 1)
  }

  /** `fillna(method='ffill')` on one column. */
  function FFillCells(cells: seq<Cell>): (r: seq<Cell>)
    ensures |r| == |cells|
    ensures forall k :: 0 <= k < |cells| && cells[k].Some? ==> r[k] == cells[k]
    ensures forall k :: 0 <= k < |cells| ==> (r[k].None? <==> forall j :: 0 <= j <= k ==> cells[j].None?)
  {
    seq(|cells|, k requires 0 <= k < |cells| => CarriedDown(cells, k))
  }

  /** Carrying values forward a second time changes nothing. */
  lemma FFillIdempotent(cells: seq<Cell>)
    ensures FFillCells(FFillCells(cells)) == FFillCells(cells)
  {
    var r := FFillCells(cells);
    var rr := FFillCells(r);
    forall k | 0 <= k < |r| ensures rr[k] == r[k] {
      if r[k].None? {
        assert rr[k].None? by {
          forall j | 0 <= j <= k ensures r[j].None? {
            assert cells[j].None?;
          }
        }
      }
    }
  }

  /** Cell `k` of column `c` once the column is filled down (`FFill`) or up (`BFill`). */
  function FilledCell(t: Table, fill: FillMethod, k: nat, c: Column): Cell
    requires Valid(t) && k < |t.rows| && c in ColSet(t)
  {
    if fill.FFill? then CarriedDown(ColumnValues(t, c), k) else CarriedUp(ColumnValues(t, c), k)
  }

  /** Row `k` after filling, over the columns `cols`. */
  function FilledRow(t: Table, fill: FillMethod, k: nat, cols: seq<Column>): (row: Row)
    requires Valid(t) && k < |t.rows| && forall i :: 0 <= i < |cols| ==> cols[i] in ColSet(t)
    ensures forall c :: c in row <==> c in cols
    ensures forall c :: c in row ==> row[c] == FilledCell(t, fill, k, c)
  {
    if cols == [] then map[]
    else
      var init := cols[..|cols| - 1];
      var c := cols[|cols| - 1];
      assert cols == init + [c];
      FilledRow(t, fill, k, init)[c := FilledCell(t, fill, k, c)]
  }

  /** Every column filled down (`FFill`) or up (`BFill`). */
  function WithColumns(t: Table, fill: FillMethod): (r: Table)
    requires Valid(t)
    ensures Valid(r) && r.columns == t.columns && r.dtypes == t.dtypes && |r.rows| == |t.rows|
    ensures forall k, c :: 0 <= k < |t.rows| && c in ColSet(t) ==> r.rows[k][c] == FilledCell(t, fill, k, c)
  {
    assert forall i :: 0 <= i < |t.columns| ==> t.columns[i] in ColSet(t);
    var r := Table(t.columns, t.dtypes, seq(|t.rows|, k requires 0 <= k < |t.rows| => FilledRow(t, fill, k, t.columns)));
    assert forall k :: 0 <= k < |r.rows| ==> r.rows[k].Keys == ColSet(t) by {
      forall k | 0 <= k < |r.rows| ensures r.rows[k].Keys == ColSet(t) {
        assert forall c :: c in r.rows[k] <==> c in t.columns;
      }
    }
    r
  }

  /** What carrying values down guarantees at one cell: a value stays, a
      missing cell takes the nearest value above it, and stays missing
      exactly when there is none. */
  predicate FFillAt(t: Table, r: Table, k: nat, c: Column)
    requires Valid(t) && Valid(r) && |r.rows| == |t.rows| && r.columns == t.columns
    requires k < |t.rows| && c in ColSet(t)
  {
    && (t.rows[k][c].Some? ==> r.rows[k][c] == t.rows[k][c])
    && (r.rows[k][c].None? <==> forall j :: 0 <= j <= k ==> t.rows[j][c].None?)
    && (r.rows[k][c].Some? ==>
          exists j :: 0 <= j <= k && t.rows[j][c] == r.rows[k][c] && forall i :: j < i <= k ==> t.rows[i][c].None?)
  }

  /** The same, carrying values up. */
  predicate BFillAt(t: Table, r: Table, k: nat, c: Column)
    requires Valid(t) && Valid(r) && |r.rows| == |t.rows| && r.columns == t.columns
    requires k < |t.rows| && c in ColSet(t)
  {
    && (t.rows[k][c].Some? ==> r.rows[k][c] == t.rows[k][c])
    && (r.rows[k][c].None? <==> forall j :: k <= j < |t.rows| ==> t.rows[j][c].None?)
    && (r.rows[k][c].Some? ==>
          exists j :: k <= j < |t.rows| && t.rows[j][c] == r.rows[k][c] && forall i :: k <= i < j ==> t.rows[i][c].None?)
  }

  lemma FFillColumnAt(t: Table, k: nat, c: Column)
    requires Valid(t) && k < |t.rows| && c in ColSet(t)
    ensures FFillAt(t, WithColumns(t, FFill), k, c)
  {
    var r := WithColumns(t, FFill);
    var v := CarriedDown(ColumnValues(t, c), k);
    assert r.rows[k][c] == v;
    FFillNoneAt(t, k, c);
    if v.Some? {
      FFillSourceAt(t, k, c);
    }
  }

  /** A filled-down cell is missing exactly when the column is missing up to it. */
  lemma FFillNoneAt(t: Table, k: nat, c: Column)
    requires Valid(t) && k < |t.rows| && c in ColSet(t)
    ensures CarriedDown(ColumnValues(t, c), k).None? <==> forall j :: 0 <= j <= k ==> t.rows[j][c].None?
  {
    var cells := ColumnValues(t, c);
    assert forall j :: 0 <= j < |t.rows| ==> t.rows[j][c] == cells[j];
  }

  /** A filled-down value comes from the nearest present cell at or above it. */
  lemma FFillSourceAt(t: Table, k: nat, c: Column)
    requires Valid(t) && k < |t.rows| && c in ColSet(t)
    requires CarriedDown(ColumnValues(t, c), k).Some?
    ensures var v := CarriedDown(ColumnValues(t, c), k);
      exists j :: 0 <= j <= k && t.rows[j][c] == v && forall i :: j < i <= k ==> t.rows[i][c].None?
  {
    var cells := ColumnValues(t, c);
    var v := CarriedDown(cells, k);
    var j :| 0 <= j <= k && cells[j] == v && forall i :: j < i <= k ==> cells[i].None?;
    assert t.rows[j][c] == v;
    assert forall i :: j < i <= k ==> t.rows[i][c] == cells[i];
  }

  lemma BFillColumnAt(t: Table, k: nat, c: Column)
    requires Valid(t) && k < |t.rows| && c in ColSet(t)
    ensures BFillAt(t, WithColumns(t, BFill), k, c)
  {
    var r := WithColumns(t, BFill);
    var v := CarriedUp(ColumnValues(t, c), k);
    assert r.rows[k][c] == v;
    BFillNoneAt(t, k, c);
    if v.Some? {
      BFillSourceAt(t, k, c);
    }
  }

  /** A filled-up cell is missing exactly when the column is missing from it down. */
  lemma BFillNoneAt(t: Table, k: nat, c: Column)
    requires Valid(t) && k < |t.rows| && c in ColSet(t)
    ensures CarriedUp(ColumnValues(t, c), k).None? <==> forall j :: k <= j < |t.rows| ==> t.rows[j][c].None?
  {
    var cells := ColumnValues(t, c);
    assert forall j :: 0 <= j < |t.rows| ==> t.rows[j][c] == cells[j];
  }

  /** A filled-up value comes from the nearest present cell at or below it. */
  lemma BFillSourceAt(t: Table, k: nat, c: Column)
    requires Valid(t) && k < |t.rows| && c in ColSet(t)
    requires CarriedUp(ColumnValues(t, c), k).Some?
    ensures var v := CarriedUp(ColumnValues(t, c), k);
      exists j :: k <= j < |t.rows| && t.rows[j][c] == v && forall i :: k <= i < j ==> t.rows[i][c].None?
  {
    var cells := ColumnValues(t, c);
    var v := CarriedUp(cells, k);
    var j :| k <= j < |cells| && cells[j] == v && forall i :: k <= i < j ==> cells[i].None?;
    assert t.rows[j][c] == v;
    assert forall i :: k <= i < j ==> t.rows[i][c] == cells[i];
  }

  /** `fillna(method='ffill')`: every column filled downwards. */
  function FFillTable(t: Table): (r: Table)
    requires Valid(t)
    ensures Valid(r) && r.columns == t.columns && r.dtypes == t.dtypes && |r.rows| == |t.rows|
    ensures forall k, c :: 0 <= k < |t.rows| && c in ColSet(t) ==> FFillAt(t, r, k, c)
  {
    var r := WithColumns(t, FFill);
    assert forall k, c :: 0 <= k < |t.rows| && c in ColSet(t) ==> FFillAt(t, r, k, c) by {
      forall k, c | 0 <= k < |t.rows| && c in ColSet(t) ensures FFillAt(t, r, k, c) {
        FFillColumnAt(t, k, c);
      }
    }
    r
  }

  /** `fillna(method='bfill')`: every column filled upwards. */
  function BFillTable(t: Table): (r: Table)
    requires Valid(t)
    ensures Valid(r) && r.columns == t.columns && r.dtypes == t.dtypes && |r.rows| == |t.rows|
    ensures forall k, c :: 0 <= k < |t.rows| && c in ColSet(t) ==> BFillAt(t, r, k, c)
  {
    var r := WithColumns(t, BFill);
    assert forall k, c :: 0 <= k < |t.rows| && c in ColSet(t) ==> BFillAt(t, r, k, c) by {
      forall k, c | 0 <= k < |t.rows| && c in ColSet(t) ensures BFillAt(t, r, k, c) {
        BFillColumnAt(t, k, c);
      }
    }
    r
  }

  /** `fillna(fill_value)`: every missing cell takes the value. */
  function FillWith(t: Table, v: Value): (r: Table)
    requires Valid(t)
    ensures Valid(r) && r.columns == t.columns && r.dtypes == t.dtypes && |r.rows| == |t.rows|
    ensures forall k, c :: 0 <= k < |t.rows| && c in ColSet(t) && t.rows[k][c].Some? ==> r.rows[k][c] == t.rows[k][c]
    ensures forall k, c :: 0 <= k < |t.rows| && c in ColSet(t) ==> r.rows[k][c].Some?
    ensures forall k, c :: 0 <= k < |t.rows| && c in ColSet(t) && t.rows[k][c].None? ==> r.rows[k][c] == Some(v)
  {
    Table(t.columns, t.dtypes,
          seq(|t.rows|, k requires 0 <= k < |t.rows| =>
            map c | c in t.rows[k] :: if t.rows[k][c].Some? then t.rows[k][c] else Some(v)))
  }

  // ---------------------------------------------------------------------
  // The whole call

  /** The filling step: a fill method wins over a fill value, and a missing
      fill value (None) fills nothing. */
  function Fill(t: Table, fillMethod: FillMethod, fillValue: Cell): (r: Table)
    requires Valid(t)
    ensures Valid(r) && r.columns == t.columns && r.dtypes == t.dtypes && |r.rows| == |t.rows|
    ensures fillMethod.NoFillMethod? && fillValue.None? ==> r == t
  {
    match fillMethod
    case FFill => FFillTable(t)
    case BFill => BFillTable(t)
    case NoFillMethod => if fillValue.Some? then FillWith(t, fillValue.value) else t
  }

  /** `clean_nan_columns` on a data frame. */
  function CleanTable(t: Table, threshold: real, dropEmptyRows: bool, fillMethod: FillMethod, fillValue: Cell): (r: Table)
    requires Valid(t)
    ensures Valid(r)
    ensures forall c :: c in ColSet(r) <==> c in ColSet(t) && !MostlyMissing(t, c, threshold)
    ensures !dropEmptyRows ==> |r.rows| == |t.rows|
    ensures |r.rows| <= |t.rows|
  {
    var dropped := DropNanColumns(t, threshold);
    var kept := if dropEmptyRows then DropEmptyRows(dropped) else dropped;
    Fill(kept, fillMethod, fillValue)
  }

  /** `clean_nan_columns(df, nan_threshold, drop_empty_rows, fill_method, fill_value)`. */
  function CleanNanColumns(x: Input, threshold: real, dropEmptyRows: bool, fillMethod: FillMethod, fillValue: Cell): (r: Result<Table>)
    requires x.DataFrame? ==> Valid(x.t)
    ensures r.Err? <==> x.NotDataFrame?
    ensures r.Err? ==> r.error == ValueError
    ensures r.Ok? ==> Valid(r.value) && forall c :: c in ColSet(r.value) <==> c in ColSet(x.t) && !MostlyMissing(x.t, c, threshold)
    ensures r.Ok? && !dropEmptyRows ==> |r.value.rows| == |x.t.rows|
  {
    match x
    case NotDataFrame => Err(ValueError)
    case DataFrame(t) => Ok(CleanTable(t, threshold, dropEmptyRows, fillMethod, fillValue))
  }

  /** With a fill method the fill value plays no part. */
  lemma FillMethodWins(t: Table, threshold: real, dropEmptyRows: bool, fillMethod: FillMethod, v1: Cell, v2: Cell)
    requires Valid(t) && !fillMethod.NoFillMethod?
    ensures CleanTable(t, threshold, dropEmptyRows, fillMethod, v1) == CleanTable(t, threshold, dropEmptyRows, fillMethod, v2)
  {
  }

  /** Without a fill method, a fill value leaves no missing cell. */
  lemma FillValueFillsAll(t: Table, threshold: real, dropEmptyRows: bool, v: Value)
    requires Valid(t)
    ensures var r := CleanTable(t, threshold, dropEmptyRows, NoFillMethod, Some(v));
      forall k, c :: 0 <= k < |r.rows| && c in ColSet(r) ==> r.rows[k][c].Some?
  {
  }

  /** When rows are dropped, none left is without a value. */
  lemma DroppedRowsHaveValues(t: Table, threshold: real)
    requires Valid(t)
    ensures var r := CleanTable(t, threshold, true, NoFillMethod, None);
      forall k :: 0 <= k < |r.rows| ==> !AllMissing(r.rows[k])
  {
    var r := CleanTable(t, threshold, true, NoFillMethod, None);
    forall k | 0 <= k < |r.rows| ensures !AllMissing(r.rows[k]) {
      assert r.rows[k] in r.rows;
    }
  }
}
