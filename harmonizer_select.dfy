/** `data_selector` of src/socio4health/harmonizer.py: argument checks,
    row selection by key membership, upper-cased column names, and the key
    column followed by the dictionary variables of the requested
    categories that the table has.

    Upper-casing can give two columns one name ("id" and "ID"). pandas keeps
    both under that label, and selecting it returns both; a model table
    cannot hold that, so a table whose selected names are not each the
    upper case of a single column gives `DuplicateLabels`. A collision among
    columns that are not selected leaves the output as it is. */
module HarmonizerSelect {
  import opened Wrappers
  import opened Text
  import opened Tables
  import opened HarmonizerSchema

  /** An argument checked with `isinstance`: a value of the expected type, or anything else. */
  datatype Arg<T> = Given(v: T) | Other

  /** An element of `ddfs`: a dask data frame, or anything else. */
  datatype Frame = DaskFrame(t: Table) | NotDaskFrame

  /** The two columns the dictionary table must have. */
  const CategoryCol: Column := "category"
  const VariableCol: Column := "variable_name"

  /** `DataFrame.empty`: no rows or no columns. */
  predicate IsEmptyFrame(t: Table)
  {
    |t.columns| == 0 || |t.rows| == 0
  }

  /** The argument checks, in the order the source makes them; `None` when all pass. */
  function CheckArgs(ddfs: Arg<seq<Frame>>, dict: Arg<Table>, categories: Arg<seq<string>>,
                     key: Arg<Column>, keyValues: Arg<seq<Value>>): (r: Option<ErrorKind>)
    ensures r.None? <==>
      && ddfs.Given? && ddfs.v != [] && (forall k :: 0 <= k < |ddfs.v| ==> ddfs.v[k].DaskFrame?)
      && dict.Given? && !IsEmptyFrame(dict.v) && CategoryCol in dict.v.columns && VariableCol in dict.v.columns
      && categories.Given? && categories.v != []
      && key.Given? && key.v != []
      && keyValues.Given? && keyValues.v != []
    ensures r.Some? && r.value == KeyError ==> dict.Given? && !(CategoryCol in dict.v.columns && VariableCol in dict.v.columns)
  {
    if ddfs.Other? then Some(TypeError)
    else if ddfs.v == [] then Some(ValueError)
    else if exists k :: 0 <= k < |ddfs.v| && ddfs.v[k].NotDaskFrame? then Some(TypeError)
    else if dict.Other? then Some(TypeError)
    else if IsEmptyFrame(dict.v) then Some(ValueError)
    else if !(CategoryCol in dict.v.columns && VariableCol in dict.v.columns) then Some(KeyError)
    else if categories.Other? then Some(TypeError)
    else if categories.v == [] then Some(ValueError)
    else if key.Other? then Some(TypeError)
    else if key.v == [] then Some(ValueError)
    else if keyValues.Other? then Some(TypeError)
    else if keyValues.v == [] then Some(ValueError)
    else None
  }

  // ---------------------------------------------------------------------
  // Rows

  /** `ddf[key_column].isin(key_values)` for one row: a missing key never matches. */
  predicate KeyIn(row: Row, key: Column, vals: seq<Value>)
  {
    key in row && row[key].Some? && row[key].value in vals
  }

  /** The rows whose key is one of `vals`, in their original order. */
  function KeepRows(rows: seq<Row>, key: Column, vals: seq<Value>): (r: seq<Row>)
    ensures |r| <= |rows|
    ensures forall x :: x in r <==> x in rows && KeyIn(x, key, vals)
  {
    if rows == [] then []
    else
      var init := rows[..|rows| - 1];
      var last := rows[|rows| - 1];
      assert rows == init + [last];
      KeepRows(init, key, vals) + (if KeyIn(last, key, vals) then [last] else [])
  }

  /** A matching row is kept as often as it occurs, and any other row never. */
  lemma {:induction false} KeepRowsMultiplicity(rows: seq<Row>, key: Column, vals: seq<Value>)
    ensures forall x :: multiset(KeepRows(rows, key, vals))[x] == if KeyIn(x, key, vals) then multiset(rows)[x] else 0
  {
    if rows != [] {
      var init := rows[..|rows| - 1];
      var last := rows[|rows| - 1];
      KeepRowsMultiplicity(init, key, vals);
      assert rows == init + [last];
      assert multiset(rows) == multiset(init) + multiset{last};
    }
  }

  /** The positions in `rows` whose key is one of `vals`, in increasing order. */
  function KeptIndices(rows: seq<Row>, key: Column, vals: seq<Value>): (idx: seq<nat>)
    ensures forall j :: 0 <= j < |idx| ==> idx[j] < |rows|
    ensures forall j1, j2 :: 0 <= j1 < j2 < |idx| ==> idx[j1] < idx[j2]
    ensures forall i :: 0 <= i < |rows| ==> (i in idx <==> KeyIn(rows[i], key, vals))
  {
    if rows == [] then []
    else
      var init := rows[..|rows| - 1];
      var last := rows[|rows| - 1];
      var pre := KeptIndices(init, key, vals);
      assert forall i :: 0 <= i < |init| ==> init[i] == rows[i];
      if KeyIn(last, key, vals) then pre + [|rows| - 1] else pre
  }

  /** The kept rows are the rows at the kept positions, in order: the filter
      neither reorders nor drops nor repeats a matching row. */
  lemma {:induction false} KeepRowsAtIndices(rows: seq<Row>, key: Column, vals: seq<Value>)
    ensures |KeepRows(rows, key, vals)| == |KeptIndices(rows, key, vals)|
    ensures forall j :: 0 <= j < |KeptIndices(rows, key, vals)| ==>
      KeepRows(rows, key, vals)[j] == rows[KeptIndices(rows, key, vals)[j]]
  {
    if rows != [] {
      var init := rows[..|rows| - 1];
      KeepRowsAtIndices(init, key, vals);
      KeepRowsStep(rows, key, vals);
    }
  }

  /** One step of `KeepRowsAtIndices`: the last row joins both sides or neither. */
  lemma KeepRowsStep(rows: seq<Row>, key: Column, vals: seq<Value>)
    requires rows != []
    requires var init := rows[..|rows| - 1];
      |KeepRows(init, key, vals)| == |KeptIndices(init, key, vals)| &&
      forall j :: 0 <= j < |KeptIndices(init, key, vals)| ==>
        KeepRows(init, key, vals)[j] == init[KeptIndices(init, key, vals)[j]]
    ensures |KeepRows(rows, key, vals)| == |KeptIndices(rows, key, vals)|
    ensures forall j :: 0 <= j < |KeptIndices(rows, key, vals)| ==>
      KeepRows(rows, key, vals)[j] == rows[KeptIndices(rows, key, vals)[j]]
  {
    var init := rows[..|rows| - 1];
    var last := rows[|rows| - 1];
    var pre := KeptIndices(init, key, vals);
    var kept := KeepRows(init, key, vals);
    var keep := KeyIn(last, key, vals);
    var idx := KeptIndices(rows, key, vals);
    var all := KeepRows(rows, key, vals);
    assert idx == pre + (if keep then [|rows| - 1] else []);
    assert all == kept + (if keep then [last] else []);
    forall j | 0 <= j < |idx| ensures all[j] == rows[idx[j]] {
      if j < |pre| {
        assert idx[j] == pre[j] && all[j] == kept[j];
        assert init[pre[j]] == rows[pre[j]];
      }
    }
  }

  /** `ddf[ddf[key_column].isin(key_values)]`. */
  function FilterByKey(t: Table, key: Column, vals: seq<Value>): (r: Table)
    requires Valid(t)
    ensures Valid(r) && r.columns == t.columns && r.dtypes == t.dtypes
    ensures r.rows == KeepRows(t.rows, key, vals)
  {
    var r := Table(t.columns, t.dtypes, KeepRows(t.rows, key, vals));
    assert forall k :: 0 <= k < |r.rows| ==> r.rows[k] in t.rows;
    r
  }

  // ---------------------------------------------------------------------
  // Column names

  /** The column names upper-cased, in order. */
  function UpperNames(cols: seq<Column>): (r: seq<Column>)
    ensures |r| == |cols| && forall i :: 0 <= i < |cols| ==> r[i] == Upper(cols[i])
  {
    seq(|cols|, i requires 0 <= i < |cols| => Upper(cols[i]))
  }

  /** At most one column of `src` upper-cases to `c`. */
  predicate AtMostOneUpper(src: seq<Column>, c: Column)
  {
    forall i, j :: 0 <= i < |src| && 0 <= j < |src| && Upper(src[i]) == c && Upper(src[j]) == c ==> i == j
  }

  /** The upper-cased key and every requested variable name each stand for
      at most one column of the table, so the selection has no repeated label. */
  predicate Representable(t: Table, vars: seq<Column>, key: Column)
  {
    AtMostOneUpper(t.columns, Upper(key)) && forall c :: c in vars ==> AtMostOneUpper(t.columns, c)
  }

  /** The entries of `m` for the columns of `src` whose upper case is in
      `sel`, each stored under its upper case. */
  function UpperPick<V>(m: map<Column, V>, src: seq<Column>, sel: set<Column>): (r: map<Column, V>)
    requires forall i :: 0 <= i < |src| ==> src[i] in m
    requires forall c :: c in sel ==> AtMostOneUpper(src, c)
    ensures forall c :: c in r <==> c in sel && exists i :: 0 <= i < |src| && Upper(src[i]) == c
    ensures forall i :: 0 <= i < |src| && Upper(src[i]) in sel ==> r[Upper(src[i])] == m[src[i]]
  {
    if src == [] then map[]
    else
      var init := src[..|src| - 1];
      var x := src[|src| - 1];
      assert forall i :: 0 <= i < |init| ==> init[i] == src[i];
      AtMostOneUpperInit(src, sel);
      var pre := UpperPick(m, init, sel);
      var r := if Upper(x) in sel then pre[Upper(x) := m[x]] else pre;
      forall i | 0 <= i < |init| && Upper(src[i]) in sel ensures r[Upper(src[i])] == m[src[i]] {
        OtherUpper(src, sel, i);
      }
      r
  }

  /** A selected name of an earlier column is not the last column's upper case. */
  lemma OtherUpper(src: seq<Column>, sel: set<Column>, i: nat)
    requires i < |src| - 1 && Upper(src[i]) in sel && forall c :: c in sel ==> AtMostOneUpper(src, c)
    ensures Upper(src[i]) != Upper(src[|src| - 1])
  {
    assert AtMostOneUpper(src, Upper(src[i]));
  }

  /** What holds of a sequence's columns holds of its prefix's. */
  lemma AtMostOneUpperInit(src: seq<Column>, sel: set<Column>)
    requires src != [] && forall c :: c in sel ==> AtMostOneUpper(src, c)
    ensures forall c :: c in sel ==> AtMostOneUpper(src[..|src| - 1], c)
  {
  }

  /** When every name of `sel` is the upper case of some column, the picked entries have exactly the keys `sel`. */
  lemma UpperPickKeys<V>(m: map<Column, V>, src: seq<Column>, sel: set<Column>)
    requires forall i :: 0 <= i < |src| ==> src[i] in m
    requires forall c :: c in sel ==> AtMostOneUpper(src, c)
    requires forall c :: c in sel ==> c in UpperNames(src)
    ensures UpperPick(m, src, sel).Keys == sel
  {
    forall c | c in sel ensures exists i :: 0 <= i < |src| && Upper(src[i]) == c {
      var i :| 0 <= i < |src| && UpperNames(src)[i] == c;
    }
  }

  /** `filtered_ddf.columns = filtered_ddf.columns.str.upper()` followed by
      `filtered_ddf[cols]`: each selected name holds the cells of the one
      column that upper-cases to it. */
  function UpperSelect(f: Table, cols: seq<Column>): (r: Table)
    requires Valid(f) && Distinct(cols)
    requires forall c :: c in cols ==> c in UpperNames(f.columns) && AtMostOneUpper(f.columns, c)
    ensures Valid(r) && r.columns == cols && |r.rows| == |f.rows|
    ensures forall i :: 0 <= i < |f.columns| && Upper(f.columns[i]) in cols ==>
      r.dtypes[Upper(f.columns[i])] == f.dtypes[f.columns[i]]
    ensures forall k, i :: 0 <= k < |f.rows| && 0 <= i < |f.columns| && Upper(f.columns[i]) in cols ==>
      r.rows[k][Upper(f.columns[i])] == f.rows[k][f.columns[i]]
  {
    var sel := SetOf(cols);
    ColumnsKeyed(f);
    UpperPickKeys(f.dtypes, f.columns, sel);
    forall k | 0 <= k < |f.rows| ensures UpperPick(f.rows[k], f.columns, sel).Keys == sel {
      UpperPickKeys(f.rows[k], f.columns, sel);
    }
    Table(cols, UpperPick(f.dtypes, f.columns, sel),
          seq(|f.rows|, k requires 0 <= k < |f.rows| => UpperPick(f.rows[k], f.columns, sel)))
  }

  // ---------------------------------------------------------------------
  // The dictionary

  /** The row of the dictionary belongs to one of the requested categories. */
  predicate Requested(row: Row, categories: seq<string>)
  {
    CategoryCol in row && row[CategoryCol].Some? && row[CategoryCol].value.Str?
    && row[CategoryCol].value.s in categories
  }

  /** `variable_name.str.upper()` of one dictionary row; a non-text or missing name is dropped. */
  function VariableOf(row: Row): Option<Column>
  {
    if VariableCol in row && row[VariableCol].Some? && row[VariableCol].value.Str?
    then Some(Upper(row[VariableCol].value.s)) else None
  }

  /** The row's `variable_name` is a text. */
  predicate NameIsText(row: Row)
  {
    VariableCol in row && row[VariableCol].Some? && row[VariableCol].value.Str?
  }

  /** The row's `variable_name` is an integer. */
  predicate NameIsInt(row: Row)
  {
    VariableCol in row && row[VariableCol].Some? && row[VariableCol].value.Int?
  }

  /** `dict_df['variable_name'].str.upper()` raises AttributeError: the
      column holds integers and no text, so pandas does not take it for a
      column of strings. */
  predicate NoTextNames(dict: Table)
  {
    (forall k :: 0 <= k < |dict.rows| ==> !NameIsText(dict.rows[k]))
    && exists k :: 0 <= k < |dict.rows| && NameIsInt(dict.rows[k])
  }

  /** The `k`-th dictionary row is requested and names the variable `c`. */
  predicate Names(rows: seq<Row>, categories: seq<string>, k: nat, c: Column)
  {
    k < |rows| && Requested(rows[k], categories) && VariableOf(rows[k]) == Some(c)
  }

  /** Some requested row of `rows` names the variable `c`. */
  ghost predicate Named(rows: seq<Row>, categories: seq<string>, c: Column)
  {
    exists k: nat :: Names(rows, categories, k, c)
  }

  /** `columns_list`: the distinct upper-cased variable names of the requested
      rows, in order of first appearance. */
  function Variables(rows: seq<Row>, categories: seq<string>): (r: seq<Column>)
    ensures Distinct(r)
    ensures forall c :: c in r <==> Named(rows, categories, c)
  {
    if rows == [] then []
    else
      var init := rows[..|rows| - 1];
      var last := rows[|rows| - 1];
      var pre := Variables(init, categories);
      var x := VariableOf(last);
      NamesSnoc(rows, categories);
      if Requested(last, categories) && x.Some? && x.value !in pre then
        DistinctConcat(pre, [x.value]);
        pre + [x.value]
      else pre
  }

  /** A row names a variable in `rows` iff it does so in all but the last
      row, or it is the last row. */
  lemma NamesSnoc(rows: seq<Row>, categories: seq<string>)
    requires rows != []
    ensures forall k: nat, c :: k < |rows| - 1 ==>
      (Names(rows[..|rows| - 1], categories, k, c) <==> Names(rows, categories, k, c))
    ensures forall c :: Named(rows, categories, c) <==>
      Named(rows[..|rows| - 1], categories, c) || Names(rows, categories, |rows| - 1, c)
  {
    var init := rows[..|rows| - 1];
    assert forall k :: 0 <= k < |init| ==> init[k] == rows[k];
    forall c | Named(rows, categories, c)
      ensures Named(init, categories, c) || Names(rows, categories, |rows| - 1, c)
    {
      var k: nat :| Names(rows, categories, k, c);
      if k < |init| {
        assert Names(init, categories, k, c);
      }
    }
    forall c | Named(init, categories, c)
      ensures Named(rows, categories, c)
    {
      var k: nat :| Names(init, categories, k, c);
      assert Names(rows, categories, k, c);
    }
  }

  /** Some requested row before row `kj` names the variable `c`. */
  ghost predicate NamedBefore(rows: seq<Row>, categories: seq<string>, c: Column, kj: nat)
  {
    exists ki: nat :: ki < kj && Names(rows, categories, ki, c)
  }

  /** `unique()` keeps the order of first appearance: every row naming a
      later variable comes after some row naming an earlier one. */
  lemma VariablesOrder(rows: seq<Row>, categories: seq<string>)
    ensures var r := Variables(rows, categories);
      forall i: nat, j: nat, kj: nat :: i < j < |r| && Names(rows, categories, kj, r[j]) ==>
        NamedBefore(rows, categories, r[i], kj)
  {
    var r := Variables(rows, categories);
    forall i: nat, j: nat, kj: nat | i < j < |r| && Names(rows, categories, kj, r[j])
      ensures NamedBefore(rows, categories, r[i], kj)
    {
      VariablesOrderAt(rows, categories, i, j, kj);
    }
  }

  /** `VariablesOrder` for one pair of variables and one row naming the later. */
  lemma {:induction false} VariablesOrderAt(rows: seq<Row>, categories: seq<string>, i: nat, j: nat, kj: nat)
    requires i < j < |Variables(rows, categories)| && Names(rows, categories, kj, Variables(rows, categories)[j])
    ensures NamedBefore(rows, categories, Variables(rows, categories)[i], kj)
  {
    var init := rows[..|rows| - 1];
    var pre := Variables(init, categories);
    var r := Variables(rows, categories);
    NamesSnoc(rows, categories);
    assert r[i] == pre[i] && pre[i] in pre;
    if j < |pre| {
      assert r[j] == pre[j] && pre[j] in pre;
      var kj': nat :| Names(init, categories, kj', pre[j]);
      if kj < |init| {
        kj' := kj;
      }
      VariablesOrderAt(init, categories, i, j, kj');
      var ki: nat :| ki < kj' && Names(init, categories, ki, pre[i]);
      assert Names(rows, categories, ki, r[i]);
    } else {
      assert r[j] !in pre;
      assert kj == |rows| - 1;
      var ki: nat :| Names(init, categories, ki, pre[i]);
      assert Names(rows, categories, ki, r[i]);
    }
  }

  // ---------------------------------------------------------------------
  // One table

  /** `final_columns`: the upper-cased key, then the variables, in their
      order, that are among the upper-cased column names `names`, other than
      the key. */
  function SelectedColumns(names: seq<Column>, vars: seq<Column>, keyUpper: Column): (cols: seq<Column>)
    requires Distinct(vars)
    ensures Distinct(cols) && cols != [] && cols[0] == keyUpper
    ensures forall c {:trigger c in cols} :: c in cols <==> c == keyUpper || (c in vars && c in names)
    ensures InOrder(cols[1..], vars)
  {
    var existing := FilterIn(vars, SetOf(names) - {keyUpper});
    assert forall x :: x in existing ==> x in SetOf(existing);
    DistinctConcat([keyUpper], existing);
    assert forall c :: c in existing <==> c in SetOf(existing);
    FilterInOrder(vars, SetOf(names) - {keyUpper});
    assert ([keyUpper] + existing)[1..] == existing;
    [keyUpper] + existing
  }

  /** Every selected name is the upper case of exactly one column. */
  lemma SelectableColumns(t: Table, vars: seq<Column>, key: Column, cols: seq<Column>)
    requires Valid(t) && key in ColSet(t) && Distinct(vars) && Representable(t, vars, key)
    requires cols == SelectedColumns(UpperNames(t.columns), vars, Upper(key))
    ensures forall c :: c in cols ==> c in UpperNames(t.columns) && AtMostOneUpper(t.columns, c)
  {
    var i :| 0 <= i < |t.columns| && t.columns[i] == key;
    assert UpperNames(t.columns)[i] == Upper(key);
  }

  /** What `data_selector` makes of one table that has the key column. */
  function SelectTable(t: Table, vars: seq<Column>, key: Column, vals: seq<Value>): (r: Table)
    requires Valid(t) && key in ColSet(t) && Distinct(vars) && Representable(t, vars, key)
    ensures Valid(r) && r.columns == SelectedColumns(UpperNames(t.columns), vars, Upper(key))
    ensures |r.rows| == |KeepRows(t.rows, key, vals)|
    ensures forall i :: 0 <= i < |t.columns| && Upper(t.columns[i]) in r.columns ==>
      r.dtypes[Upper(t.columns[i])] == t.dtypes[t.columns[i]]
    ensures forall k, i :: 0 <= k < |r.rows| && 0 <= i < |t.columns| && Upper(t.columns[i]) in r.columns ==>
      r.rows[k][Upper(t.columns[i])] == FilterByKey(t, key, vals).rows[k][t.columns[i]]
  {
    var f := FilterByKey(t, key, vals);
    var cols := SelectedColumns(UpperNames(t.columns), vars, Upper(key));
    SelectableColumns(t, vars, key, cols);
    UpperSelect(f, cols)
  }

  /** The selected rows are the kept rows, in order: each carries its key
      value under the upper-cased key column. */
  lemma SelectTableRows(t: Table, vars: seq<Column>, key: Column, vals: seq<Value>)
    requires Valid(t) && key in ColSet(t) && Distinct(vars) && Representable(t, vars, key)
    ensures var r := SelectTable(t, vars, key, vals);
      forall k :: 0 <= k < |r.rows| ==>
        var row := KeepRows(t.rows, key, vals)[k]; KeyIn(row, key, vals) && r.rows[k][Upper(key)] == row[key]
  {
    var r := SelectTable(t, vars, key, vals);
    var kept := KeepRows(t.rows, key, vals);
    var i :| 0 <= i < |t.columns| && t.columns[i] == key;
    assert Upper(t.columns[i]) in r.columns;
    forall k | 0 <= k < |r.rows| ensures KeyIn(kept[k], key, vals) && r.rows[k][Upper(key)] == kept[k][key] {
      assert kept[k] in kept;
    }
  }

  // ---------------------------------------------------------------------
  // The whole call

  /** What the model requires of the frames: well-formed tables. */
  predicate FramesValid(ddfs: Arg<seq<Frame>>)
  {
    ddfs.Given? ==> forall k :: 0 <= k < |ddfs.v| && ddfs.v[k].DaskFrame? ==> Valid(ddfs.v[k].t)
  }

  /** `data_selector(ddfs, dict_df, categories, key_column, key_values)`.
      After the argument checks, upper-casing the dictionary's names raises
      AttributeError on a column without text. A missing key column then
      raises KeyError whichever table lacks it, since the source reaches
      that table after building the earlier ones. */
  function DataSelect(ddfs: Arg<seq<Frame>>, dict: Arg<Table>, categories: Arg<seq<string>>,
                      key: Arg<Column>, keyValues: Arg<seq<Value>>): (r: Result<seq<Table>>)
    requires FramesValid(ddfs)
    ensures CheckArgs(ddfs, dict, categories, key, keyValues).Some? ==>
      r == Err(CheckArgs(ddfs, dict, categories, key, keyValues).value)
    ensures CheckArgs(ddfs, dict, categories, key, keyValues).None? ==>
      (r == Err(AttributeError) <==> NoTextNames(dict.v))
    ensures CheckArgs(ddfs, dict, categories, key, keyValues).None? && !NoTextNames(dict.v) ==>
      ((exists k :: 0 <= k < |ddfs.v| && key.v !in ddfs.v[k].t.columns) ==> r == Err(KeyError))
    ensures CheckArgs(ddfs, dict, categories, key, keyValues).None? ==>
      (r.Ok? <==> !NoTextNames(dict.v) && forall k :: 0 <= k < |ddfs.v| ==>
                    key.v in ddfs.v[k].t.columns && Representable(ddfs.v[k].t, Variables(dict.v.rows, categories.v), key.v))
    ensures r == Err(DuplicateLabels) ==> CheckArgs(ddfs, dict, categories, key, keyValues).None?
    ensures r.Ok? ==> |r.value| == |ddfs.v|
  {
    var e := CheckArgs(ddfs, dict, categories, key, keyValues);
    if e.Some? then Err(e.value)
    else if NoTextNames(dict.v) then Err(AttributeError)
    else if exists k :: 0 <= k < |ddfs.v| && key.v !in ddfs.v[k].t.columns then Err(KeyError)
    else
      var vars := Variables(dict.v.rows, categories.v);
      if exists k :: 0 <= k < |ddfs.v| && !Representable(ddfs.v[k].t, vars, key.v) then Err(DuplicateLabels)
      else Ok(seq(|ddfs.v|, k requires 0 <= k < |ddfs.v| => SelectTable(ddfs.v[k].t, vars, key.v, keyValues.v)))
  }

  /** On success, the i-th output is the selection made of the i-th table. */
  lemma DataSelectAt(ddfs: Arg<seq<Frame>>, dict: Arg<Table>, categories: Arg<seq<string>>,
                     key: Arg<Column>, keyValues: Arg<seq<Value>>, i: nat)
    requires FramesValid(ddfs)
    requires DataSelect(ddfs, dict, categories, key, keyValues).Ok? && i < |ddfs.v|
    ensures ddfs.Given? && dict.Given? && categories.Given? && key.Given? && keyValues.Given?
    ensures ddfs.v[i].DaskFrame? && Valid(ddfs.v[i].t) && key.v in ColSet(ddfs.v[i].t)
    ensures Representable(ddfs.v[i].t, Variables(dict.v.rows, categories.v), key.v)
    ensures DataSelect(ddfs, dict, categories, key, keyValues).value[i]
         == SelectTable(ddfs.v[i].t, Variables(dict.v.rows, categories.v), key.v, keyValues.v)
  {
  }

  /** `out` is what the source makes of table `t`: the upper-cased key,
      followed by exactly the requested variables the upper-cased table has,
      in the dictionary's order; one row per kept row, in order, each cell
      being the kept row's cell of the column that upper-cases to its name. */
  ghost predicate SelectionOf(out: Table, t: Table, vars: seq<Column>, key: Column, vals: seq<Value>)
  {
    var kept := KeepRows(t.rows, key, vals);
    && out.columns != [] && out.columns[0] == Upper(key)
    && (forall c {:trigger c in out.columns} :: c in out.columns <==>
          c == Upper(key) || (c in vars && c in UpperNames(t.columns)))
    && InOrder(out.columns[1..], vars)
    && |out.rows| == |kept|
    && (forall k, j :: 0 <= k < |out.rows| && 0 <= j < |t.columns| && Upper(t.columns[j]) in out.columns ==>
          t.columns[j] in kept[k] && Upper(t.columns[j]) in out.rows[k] &&
          out.rows[k][Upper(t.columns[j])] == kept[k][t.columns[j]])
  }

  /** The selection of one table is as `SelectionOf` describes. */
  lemma SelectTableSpec(t: Table, vars: seq<Column>, key: Column, vals: seq<Value>)
    requires Valid(t) && key in ColSet(t) && Distinct(vars) && Representable(t, vars, key)
    ensures SelectionOf(SelectTable(t, vars, key, vals), t, vars, key, vals)
  {
    var kept := KeepRows(t.rows, key, vals);
    forall k | 0 <= k < |kept| ensures kept[k].Keys == ColSet(t) {
      assert kept[k] in kept;
    }
  }

  /** Every output of a successful call is the selection of its table. */
  lemma DataSelectOutput(ddfs: Arg<seq<Frame>>, dict: Arg<Table>, categories: Arg<seq<string>>,
                         key: Arg<Column>, keyValues: Arg<seq<Value>>, i: nat)
    requires FramesValid(ddfs)
    requires DataSelect(ddfs, dict, categories, key, keyValues).Ok? && i < |ddfs.v|
    ensures ddfs.Given? && dict.Given? && categories.Given? && key.Given? && keyValues.Given?
    ensures ddfs.v[i].DaskFrame? && Valid(ddfs.v[i].t) && key.v in ColSet(ddfs.v[i].t)
    ensures SelectionOf(DataSelect(ddfs, dict, categories, key, keyValues).value[i], ddfs.v[i].t,
                        Variables(dict.v.rows, categories.v), key.v, keyValues.v)
  {
    DataSelectAt(ddfs, dict, categories, key, keyValues, i);
    SelectTableSpec(ddfs.v[i].t, Variables(dict.v.rows, categories.v), key.v, keyValues.v);
  }

  /** A table none of whose upper-cased columns, other than the key, is a
      requested variable keeps only the upper-cased key column. */
  lemma SelectTableOnlyKey(t: Table, vars: seq<Column>, key: Column, vals: seq<Value>)
    requires Valid(t) && key in ColSet(t) && Distinct(vars) && Representable(t, vars, key)
    requires forall c :: c in vars && c in UpperNames(t.columns) ==> c == Upper(key)
    ensures SelectTable(t, vars, key, vals).columns == [Upper(key)]
  {
    var cols := SelectTable(t, vars, key, vals).columns;
    forall j | 0 <= j < |cols| ensures cols[j] == Upper(key) {
      assert cols[j] in cols;
    }
    OnlyElement(cols, Upper(key));
  }

  /** A non-empty sequence without repetitions whose every element is `x` is `[x]`. */
  lemma OnlyElement(s: seq<Column>, x: Column)
    requires Distinct(s) && s != [] && forall j :: 0 <= j < |s| ==> s[j] == x
    ensures s == [x]
  {
    assert s[0] in SetOf(s);
    assert forall y :: y in SetOf(s) ==> y == x;
    assert SetOf(s) == {x};
    DistinctSize(s);
  }

  /** When no requested variable names an upper-cased column of the table other
      than the key, the table keeps only the upper-cased key column. */
  lemma OnlyKeyWhenNoMatch(ddfs: Arg<seq<Frame>>, dict: Arg<Table>, categories: Arg<seq<string>>,
                           key: Arg<Column>, keyValues: Arg<seq<Value>>, i: nat)
    requires FramesValid(ddfs)
    requires DataSelect(ddfs, dict, categories, key, keyValues).Ok? && i < |ddfs.v|
    requires forall c :: c in Variables(dict.v.rows, categories.v) && c in UpperNames(ddfs.v[i].t.columns) ==> c == Upper(key.v)
    ensures DataSelect(ddfs, dict, categories, key, keyValues).value[i].columns == [Upper(key.v)]
  {
    DataSelectAt(ddfs, dict, categories, key, keyValues, i);
    SelectTableOnlyKey(ddfs.v[i].t, Variables(dict.v.rows, categories.v), key.v, keyValues.v);
  }

  /** The body of the source's loop for one table that has the key column. */
  method SelectOne(t: Table, vars: seq<Column>, key: Column, vals: seq<Value>) returns (r: Table)
    requires Valid(t) && key in ColSet(t) && Distinct(vars) && Representable(t, vars, key)
    ensures r == SelectTable(t, vars, key, vals)
  {
    var f := FilterByKey(t, key, vals);
    var cols := SelectedColumns(UpperNames(f.columns), vars, Upper(key));
    SelectableColumns(t, vars, key, cols);
    r := UpperSelect(f, cols);
  }

  /** Appending the selection of the next table extends the selections made so far. */
  lemma AppendSelected(ts: seq<Frame>, i: nat, vars: seq<Column>, key: Column, vals: seq<Value>,
                       filtered: seq<Table>, selected: Table)
    requires i < |ts| && |filtered| == i
    requires forall k :: 0 <= k <= i ==> ts[k].DaskFrame? && Valid(ts[k].t) && key in ts[k].t.columns
                                         && Representable(ts[k].t, vars, key)
    requires Distinct(vars)
    requires forall k :: 0 <= k < i ==> filtered[k] == SelectTable(ts[k].t, vars, key, vals)
    requires selected == SelectTable(ts[i].t, vars, key, vals)
    ensures forall k :: 0 <= k < i + 1 ==> (filtered + [selected])[k] == SelectTable(ts[k].t, vars, key, vals)
  {
    forall k | 0 <= k < i + 1 ensures (filtered + [selected])[k] == SelectTable(ts[k].t, vars, key, vals) {
      if k < i {
        assert (filtered + [selected])[k] == filtered[k];
      } else {
        assert (filtered + [selected])[k] == selected;
      }
    }
  }

  /** The loop of `data_selector` over the checked tables, one table at a
      time. A table whose selection would repeat a label is noted and the
      loop goes on, as the source does, so that a later missing key column
      still raises KeyError. */
  method SelectEach(ts: seq<Frame>, vars: seq<Column>, key: Column, vals: seq<Value>) returns (r: Result<seq<Table>>)
    requires forall k :: 0 <= k < |ts| ==> ts[k].DaskFrame? && Valid(ts[k].t)
    requires Distinct(vars)
    ensures (exists k :: 0 <= k < |ts| && key !in ts[k].t.columns) <==> r == Err(KeyError)
    ensures r == Err(DuplicateLabels) <==>
      (forall k :: 0 <= k < |ts| ==> key in ts[k].t.columns) && exists k :: 0 <= k < |ts| && !Representable(ts[k].t, vars, key)
    ensures r.Ok? ==> r.value == seq(|ts|, k requires 0 <= k < |ts| => SelectTable(ts[k].t, vars, key, vals))
    ensures r.Err? ==> r.error in {KeyError, DuplicateLabels}
  {
    var filtered: seq<Table> := [];
    var duplicated := false;
    var i := 0;
    while i < |ts|
      invariant 0 <= i <= |ts|
      invariant forall k :: 0 <= k < i ==> key in ts[k].t.columns
      invariant duplicated <==> exists k :: 0 <= k < i && !Representable(ts[k].t, vars, key)
      invariant !duplicated ==> |filtered| == i
      invariant !duplicated ==> forall k :: 0 <= k < i ==>
        Representable(ts[k].t, vars, key) && filtered[k] == SelectTable(ts[k].t, vars, key, vals)
    {
      if key !in ts[i].t.columns {
        return Err(KeyError);
      }
      assert forall k :: 0 <= k < i + 1 ==> key in ts[k].t.columns;
      if !Representable(ts[i].t, vars, key) {
        duplicated := true;
      } else if !duplicated {
        var selected := SelectOne(ts[i].t, vars, key, vals);
        AppendSelected(ts, i, vars, key, vals, filtered, selected);
        filtered := filtered + [selected];
      }
      i := i + 1;
    }
    if duplicated {
      return Err(DuplicateLabels);
    }
    assert filtered == seq(|ts|, k requires 0 <= k < |ts| => SelectTable(ts[k].t, vars, key, vals));
    return Ok(filtered);
  }

  /** `data_selector` as the source runs it: the checks, then the loop. */
  method DataSelector(ddfs: Arg<seq<Frame>>, dict: Arg<Table>, categories: Arg<seq<string>>,
                      key: Arg<Column>, keyValues: Arg<seq<Value>>) returns (r: Result<seq<Table>>)
    requires FramesValid(ddfs)
    ensures r == DataSelect(ddfs, dict, categories, key, keyValues)
  {
    var e := CheckArgs(ddfs, dict, categories, key, keyValues);
    if e.Some? {
      return Err(e.value);
    }
    if NoTextNames(dict.v) {
      return Err(AttributeError);
    }
    r := SelectEach(ddfs.v, Variables(dict.v.rows, categories.v), key.v, keyValues.v);
  }
}
