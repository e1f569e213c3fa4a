/** `harmonize_dataframes` of src/socio4health/harmonizer.py, with the
    mappings already parsed into dictionaries.

    For every table of every country: the country's column map and value
    maps are looked up (own entry, else the default country's, else empty);
    in strict mode every column must be a key of the column map; the
    columns are renamed; then every value-mapped column still present is
    converted to text, checked in strict mode, and replaced by its mapped
    values as a categorical column. */
module HarmonizerSchema {
  import opened Wrappers
  import opened Text
  import opened Tables

  /** A column map: original column name to harmonised name. */
  type ColMap = map<Column, Column>

  /** A value map: text of an original value to harmonised value. */
  type ValMap = map<string, string>

  /** The value maps of one country, per harmonised column. */
  type ValMaps = map<Column, ValMap>

  /** The dtype tag of a column after `astype('category')`. */
  const Category: DType := "category"

  /** `get_country_mapping` on a dictionary: the country's own entry, else
      the default country's, else the empty mapping. */
  function CountryMapping<V>(mapping: map<string, V>, country: string, default: Option<string>, empty: V): (r: V)
    ensures country in mapping ==> r == mapping[country]
    ensures country !in mapping && default.Some? && default.value in mapping ==> r == mapping[default.value]
    ensures country !in mapping && (default.None? || default.value !in mapping) ==> r == empty
  {
    if country in mapping then mapping[country]
    else if default.Some? && default.value in mapping then mapping[default.value]
    else empty
  }

  /** `get_country_mapping` on an `Enum` class, whose members are given by
      name: the country's member; failing that, when `default_country` is
      truthy, the default country's member, which raises KeyError in turn
      when there is none; otherwise the empty mapping. */
  function EnumCountryMapping<V>(members: map<string, V>, country: string, default: Option<string>, empty: V): (r: Result<V>)
    ensures r.Err? <==> country !in members && default.Some? && default.value != "" && default.value !in members
    ensures r.Err? ==> r.error == KeyError
  {
    if country in members then Ok(members[country])
    else if default.Some? && default.value != "" then
      if default.value in members then Ok(members[default.value]) else Err(KeyError)
    else Ok(empty)
  }

  /** The `Enum` branch selects what the dictionary branch selects, except
      in two cases: an unknown default country raises KeyError where the
      dictionary gives the empty mapping, and an empty default country is
      not looked up at all, where the dictionary looks up the key "". */
  lemma EnumBranchAgrees<V>(members: map<string, V>, country: string, default: Option<string>, empty: V)
    ensures var r := EnumCountryMapping(members, country, default, empty);
      && (r.Err? ==> CountryMapping(members, country, default, empty) == empty)
      && (r.Ok? && (default != Some("") || "" !in members) ==> r.value == CountryMapping(members, country, default, empty))
  {
  }

  /** The two differences, on concrete mappings. */
  lemma EnumBranchDiffers()
    ensures EnumCountryMapping(map["CO" := 1], "PE", Some("BR"), 0) == Err(KeyError)
    ensures CountryMapping(map["CO" := 1], "PE", Some("BR"), 0) == 0
    ensures EnumCountryMapping(map["" := 1], "PE", Some(""), 0) == Ok(0)
    ensures CountryMapping(map["" := 1], "PE", Some(""), 0) == 1
  {
  }

  // ---------------------------------------------------------------------
  // Renaming

  /** The name `rename(columns=col_map)` gives to column `c`. */
  function NewName(colMap: ColMap, c: Column): Column
  {
    if c in colMap then colMap[c] else c
  }

  /** Renaming keeps the column names distinct. */
  predicate RenameInjective(t: Table, colMap: ColMap)
  {
    Distinct(NewNames(colMap, t.columns))
  }

  /** The new names of `cols`, in order. */
  function NewNames(colMap: ColMap, cols: seq<Column>): (r: seq<Column>)
    ensures |r| == |cols|
    ensures forall i :: 0 <= i < |cols| ==> r[i] == NewName(colMap, cols[i])
  {
    seq(|cols|, i requires 0 <= i < |cols| => NewName(colMap, cols[i]))
  }

  /** The entries of `m` for the columns `cols`, each stored under its new name. */
  function RenameKeys<V>(m: map<Column, V>, colMap: ColMap, cols: seq<Column>): (r: map<Column, V>)
    requires forall i :: 0 <= i < |cols| ==> cols[i] in m
    requires Distinct(NewNames(colMap, cols))
    ensures r.Keys == SetOf(NewNames(colMap, cols))
    ensures forall i :: 0 <= i < |cols| ==> r[NewName(colMap, cols[i])] == m[cols[i]]
  {
    if cols == [] then map[]
    else
      var init := cols[..|cols| - 1];
      var c := cols[|cols| - 1];
      var names := NewNames(colMap, cols);
      assert names == NewNames(colMap, init) + [NewName(colMap, c)];
      var pre := RenameKeys(m, colMap, init);
      var r := pre[NewName(colMap, c) := m[c]];
      assert forall i :: 0 <= i < |cols| ==> r[NewName(colMap, cols[i])] == m[cols[i]] by {
        forall i | 0 <= i < |cols| ensures r[NewName(colMap, cols[i])] == m[cols[i]] {
          if i < |init| {
            assert names[i] != names[|cols| - 1];
            assert init[i] == cols[i];
            assert r[names[i]] == pre[NewName(colMap, init[i])];
          }
        }
      }
      r
  }

  /** `df.rename(columns=col_map)`. A map that sends two columns to one
      name gives pandas a frame with a repeated label, which the model
      reports as `DuplicateLabels`. */
  function Rename(t: Table, colMap: ColMap): (r: Result<Table>)
    requires Valid(t)
    ensures r.Err? <==> !RenameInjective(t, colMap)
    ensures r.Err? ==> r.error == DuplicateLabels
    ensures r.Ok? ==> Valid(r.value)
    ensures r.Ok? ==> |r.value.columns| == |t.columns| && |r.value.rows| == |t.rows|
    ensures r.Ok? ==> forall i :: 0 <= i < |t.columns| ==> r.value.columns[i] == NewName(colMap, t.columns[i])
    ensures r.Ok? ==> forall i :: 0 <= i < |t.columns| && t.columns[i] !in colMap ==> r.value.columns[i] == t.columns[i]
    ensures r.Ok? ==> forall i :: 0 <= i < |t.columns| ==> r.value.dtypes[r.value.columns[i]] == t.dtypes[t.columns[i]]
    ensures r.Ok? ==> forall k, i :: 0 <= k < |t.rows| && 0 <= i < |t.columns| ==>
      r.value.rows[k][r.value.columns[i]] == t.rows[k][t.columns[i]]
  {
    if !RenameInjective(t, colMap) then Err(DuplicateLabels)
    else
      var cols := NewNames(colMap, t.columns);
      ColumnsKeyed(t);
      Ok(Table(cols, RenameKeys(t.dtypes, colMap, t.columns), RenameRows(t, colMap)))
  }

  /** The rows of `t`, each cell stored under its column's new name. */
  function RenameRows(t: Table, colMap: ColMap): (rows: seq<Row>)
    requires Valid(t) && RenameInjective(t, colMap)
    ensures |rows| == |t.rows|
    ensures forall k :: 0 <= k < |rows| ==> rows[k].Keys == SetOf(NewNames(colMap, t.columns))
    ensures forall k, i :: 0 <= k < |t.rows| && 0 <= i < |t.columns| ==>
      NewName(colMap, t.columns[i]) in rows[k] && rows[k][NewName(colMap, t.columns[i])] == t.rows[k][t.columns[i]]
  {
    ColumnsKeyed(t);
    seq(|t.rows|, k requires 0 <= k < |t.rows| => RenameKeys(t.rows[k], colMap, t.columns))
  }

  /** The cell of row `k` in the table's `i`-th column. */
  function CellAt(t: Table, k: nat, i: nat): Cell
    requires Valid(t) && k < |t.rows| && i < |t.columns|
  {
    ColumnsKeyed(t);
    t.rows[k][t.columns[i]]
  }

  /** Every column of a valid table has a dtype and a cell in every row. */
  lemma ColumnsKeyed(t: Table)
    requires Valid(t)
    ensures forall i :: 0 <= i < |t.columns| ==> t.columns[i] in t.dtypes
    ensures forall k, i :: 0 <= k < |t.rows| && 0 <= i < |t.columns| ==> t.columns[i] in t.rows[k]
  {
    assert forall i :: 0 <= i < |t.columns| ==> t.columns[i] in ColSet(t);
  }

  // ---------------------------------------------------------------------
  // Value maps

  /** `astype('str')` then `map(val_map)` on one cell: a text the map lacks becomes missing. */
  function MapCell(c: Cell, vm: ValMap): (r: Cell)
    ensures r.Some? <==> CellText(c) in vm
    ensures r.Some? ==> r.value == Str(vm[CellText(c)])
  {
    var s := CellText(c);
    if s in vm then Some(Str(vm[s])) else None
  }

  /** Every value of column `c`, as text, is a key of the value map (the strict check passes). */
  predicate AllMapped(t: Table, c: Column, vm: ValMap)
    requires Valid(t) && c in ColSet(t)
  {
    forall k :: 0 <= k < |t.rows| ==> CellText(t.rows[k][c]) in vm
  }

  /** One row with the value-mapped columns among `done` replaced by their mapped values. */
  function MapRow(row: Row, vms: ValMaps, done: set<Column>): (r: Row)
    ensures r.Keys == row.Keys
    ensures forall c :: c in row && c in done && c in vms ==> r[c] == MapCell(row[c], vms[c])
    ensures forall c :: c in row && !(c in done && c in vms) ==> r[c] == row[c]
  {
    map c | c in row :: if c in done && c in vms then MapCell(row[c], vms[c]) else row[c]
  }

  /** The dtype record with the value-mapped columns among `done` made categorical. */
  function MapDTypes(dts: map<Column, DType>, vms: ValMaps, done: set<Column>): (r: map<Column, DType>)
    ensures r.Keys == dts.Keys
    ensures forall c :: c in dts && c in done && c in vms ==> r[c] == Category
    ensures forall c :: c in dts && !(c in done && c in vms) ==> r[c] == dts[c]
  {
    map c | c in dts :: if c in done && c in vms then Category else dts[c]
  }

  /** The table with the value-mapped columns among `done` replaced by their mapped values. */
  function MapColumns(t: Table, vms: ValMaps, done: set<Column>): (r: Table)
    requires Valid(t)
    ensures Valid(r) && r.columns == t.columns && |r.rows| == |t.rows|
    ensures forall k :: 0 <= k < |t.rows| ==> r.rows[k] == MapRow(t.rows[k], vms, done)
    ensures r.dtypes == MapDTypes(t.dtypes, vms, done)
  {
    Table(t.columns, MapDTypes(t.dtypes, vms, done),
          seq(|t.rows|, k requires 0 <= k < |t.rows| => MapRow(t.rows[k], vms, done)))
  }

  /** `process_dataframe` as a whole: the strict column check, the renaming,
      the strict value check, and the value mapping. */
  function Harmonize(t: Table, colMap: ColMap, vms: ValMaps, strict: bool): (r: Result<Table>)
    requires Valid(t)
    ensures r.Err? ==> (strict && r.error == ValueError) || r.error == DuplicateLabels
    ensures r == Err(DuplicateLabels) <==>
      !(strict && exists c :: c in ColSet(t) && c !in colMap) && !RenameInjective(t, colMap)
    ensures r.Ok? ==> Valid(r.value) && |r.value.columns| == |t.columns| && |r.value.rows| == |t.rows|
  {
    if strict && exists c :: c in ColSet(t) && c !in colMap then Err(ValueError)
    else
      var t1 := Rename(t, colMap);
      if t1.Err? then Err(t1.error)
      else if strict && exists c :: c in ColSet(t1.value) && c in vms && !AllMapped(t1.value, c, vms[c]) then Err(ValueError)
      else Ok(MapColumns(t1.value, vms, vms.Keys))
  }

  /** What the harmonisation of one table promises. */
  lemma HarmonizeSpec(t: Table, colMap: ColMap, vms: ValMaps, strict: bool)
    requires Valid(t)
    ensures var r := Harmonize(t, colMap, vms, strict);
      && (strict && (exists c :: c in ColSet(t) && c !in colMap) ==> r == Err(ValueError))
      && (r.Ok? ==> RenameInjective(t, colMap))
      && (r.Ok? ==>
        && Valid(r.value)
        && |r.value.columns| == |t.columns| && |r.value.rows| == |t.rows|
        && (forall i :: 0 <= i < |t.columns| ==> r.value.columns[i] == NewName(colMap, t.columns[i]))
        && (forall k, i :: 0 <= k < |t.rows| && 0 <= i < |t.columns| && r.value.columns[i] !in vms ==>
              CellAt(r.value, k, i) == CellAt(t, k, i))
        && (forall k, i :: 0 <= k < |t.rows| && 0 <= i < |t.columns| && r.value.columns[i] in vms ==>
              CellAt(r.value, k, i) == MapCell(CellAt(t, k, i), vms[r.value.columns[i]])))
  {
    if Harmonize(t, colMap, vms, strict).Ok? {
      HarmonizeCells(t, colMap, vms, strict);
    }
  }

  /** The cells of a successful harmonisation. */
  lemma HarmonizeCells(t: Table, colMap: ColMap, vms: ValMaps, strict: bool)
    requires Valid(t) && Harmonize(t, colMap, vms, strict).Ok?
    ensures var r := Harmonize(t, colMap, vms, strict).value;
      && RenameInjective(t, colMap)
      && Valid(r)
      && |r.columns| == |t.columns| && |r.rows| == |t.rows|
      && (forall i :: 0 <= i < |t.columns| ==> r.columns[i] == NewName(colMap, t.columns[i]))
      && (forall k, i :: 0 <= k < |t.rows| && 0 <= i < |t.columns| && r.columns[i] !in vms ==>
            CellAt(r, k, i) == CellAt(t, k, i))
      && (forall k, i :: 0 <= k < |t.rows| && 0 <= i < |t.columns| && r.columns[i] in vms ==>
            CellAt(r, k, i) == MapCell(CellAt(t, k, i), vms[r.columns[i]]))
  {
    var r := Harmonize(t, colMap, vms, strict);
    HarmonizeRenamed(t, colMap, vms, strict);
    var t1 := Rename(t, colMap).value;
    forall k, i | 0 <= k < |t.rows| && 0 <= i < |t.columns|
      ensures r.value.rows[k][t1.columns[i]] ==
        if t1.columns[i] in vms then MapCell(t.rows[k][t.columns[i]], vms[t1.columns[i]]) else t.rows[k][t.columns[i]]
    {
      assert t1.columns[i] in t1.rows[k];
    }
  }

  /** A successful harmonisation maps the values of the renamed table. */
  lemma HarmonizeRenamed(t: Table, colMap: ColMap, vms: ValMaps, strict: bool)
    requires Valid(t) && Harmonize(t, colMap, vms, strict).Ok?
    ensures RenameInjective(t, colMap)
    ensures Harmonize(t, colMap, vms, strict).value == MapColumns(Rename(t, colMap).value, vms, vms.Keys)
  {
  }

  /** In strict mode a successful harmonisation leaves no value-mapped cell missing. */
  lemma StrictMappedCellsPresent(t: Table, colMap: ColMap, vms: ValMaps, k: nat, c: Column)
    requires Valid(t)
    requires Harmonize(t, colMap, vms, true).Ok?
    requires k < |t.rows| && c in ColSet(Harmonize(t, colMap, vms, true).value) && c in vms
    ensures Harmonize(t, colMap, vms, true).value.rows[k][c].Some?
  {
    var t1 := Rename(t, colMap).value;
    assert AllMapped(t1, c, vms[c]);
    assert c in t1.rows[k];
  }

  // ---------------------------------------------------------------------
  // The loop of `process_dataframe`.

  lemma MapRowStep(row: Row, vms: ValMaps, done: set<Column>, col: Column)
    requires col in vms && col !in done
    ensures MapRow(row, vms, done + {col}) == MapRow(MapRow(row, vms, done), map[col := vms[col]], {col})
  {
    var a := MapRow(row, vms, done + {col});
    var b := MapRow(MapRow(row, vms, done), map[col := vms[col]], {col});
    assert forall c :: c in a ==> a[c] == b[c];
  }

  lemma MapDTypesStep(dts: map<Column, DType>, vms: ValMaps, done: set<Column>, col: Column)
    requires col in vms && col !in done
    ensures MapDTypes(dts, vms, done + {col}) == MapDTypes(MapDTypes(dts, vms, done), map[col := vms[col]], {col})
  {
    var a := MapDTypes(dts, vms, done + {col});
    var b := MapDTypes(MapDTypes(dts, vms, done), map[col := vms[col]], {col});
    assert forall c :: c in a ==> a[c] == b[c];
  }

  /** Mapping one more column extends the mapped set by that column. */
  lemma MapColumnsStep(t: Table, vms: ValMaps, done: set<Column>, col: Column)
    requires Valid(t) && col in vms && col !in done
    ensures MapColumns(t, vms, done + {col}) == MapColumns(MapColumns(t, vms, done), map[col := vms[col]], {col})
  {
    var cur := MapColumns(t, vms, done);
    MapDTypesStep(t.dtypes, vms, done, col);
    forall k | 0 <= k < |t.rows|
      ensures MapRow(t.rows[k], vms, done + {col}) == MapRow(cur.rows[k], map[col := vms[col]], {col})
    {
      MapRowStep(t.rows[k], vms, done, col);
    }
  }

  /** Mapping a column the table lacks changes nothing. */
  lemma MapColumnsAbsent(t: Table, vms: ValMaps, done: set<Column>, col: Column)
    requires Valid(t) && col !in ColSet(t)
    ensures MapColumns(t, vms, done + {col}) == MapColumns(t, vms, done)
  {
    MapDTypesAbsent(t.dtypes, vms, done, col);
    forall k | 0 <= k < |t.rows| ensures MapRow(t.rows[k], vms, done + {col}) == MapRow(t.rows[k], vms, done) {
      MapRowAbsent(t.rows[k], vms, done, col);
    }
    assert MapColumns(t, vms, done + {col}).rows == MapColumns(t, vms, done).rows;
  }

  lemma MapRowAbsent(row: Row, vms: ValMaps, done: set<Column>, col: Column)
    requires col !in row
    ensures MapRow(row, vms, done + {col}) == MapRow(row, vms, done)
  {
    var a := MapRow(row, vms, done + {col});
    var b := MapRow(row, vms, done);
    assert forall c :: c in a ==> a[c] == b[c];
  }

  lemma MapDTypesAbsent(dts: map<Column, DType>, vms: ValMaps, done: set<Column>, col: Column)
    requires col !in dts
    ensures MapDTypes(dts, vms, done + {col}) == MapDTypes(dts, vms, done)
  {
    var a := MapDTypes(dts, vms, done + {col});
    var b := MapDTypes(dts, vms, done);
    assert forall c :: c in a ==> a[c] == b[c];
  }

  /** Mapping no column changes nothing. */
  lemma MapColumnsNone(t: Table, vms: ValMaps)
    requires Valid(t)
    ensures MapColumns(t, vms, {}) == t
  {
    assert MapDTypes(t.dtypes, vms, {}) == t.dtypes;
    forall k | 0 <= k < |t.rows| ensures MapRow(t.rows[k], vms, {}) == t.rows[k] {
    }
  }

  /** A column outside `done` still holds its original cells. */
  lemma UnmappedColumnKept(t: Table, vms: ValMaps, done: set<Column>, col: Column)
    requires Valid(t) && col in ColSet(t) && col !in done && col in vms
    ensures AllMapped(MapColumns(t, vms, done), col, vms[col]) <==> AllMapped(t, col, vms[col])
  {
    var m := MapColumns(t, vms, done);
    forall k | 0 <= k < |t.rows| ensures m.rows[k][col] == t.rows[k][col] {
      assert col in t.rows[k];
    }
  }

  /** The strict value check has passed for every present column among `done`. */
  predicate ValuesChecked(t: Table, vms: ValMaps, done: set<Column>)
    requires Valid(t)
  {
    forall c :: c in ColSet(t) && c in done && c in vms ==> AllMapped(t, c, vms[c])
  }

  /** `process_dataframe(df, country)` as the source runs it: the mapped
      columns are handled one at a time, in the value maps' iteration order. */
  method ProcessDataFrame(t: Table, country: string, columnMapping: map<string, ColMap>,
                          valueMappings: map<string, ValMaps>, default: Option<string>, strict: bool)
    returns (r: Result<Table>)
    requires Valid(t)
    ensures r == Harmonize(t, CountryMapping(columnMapping, country, default, map[]),
                           CountryMapping(valueMappings, country, default, map[]), strict)
  {
    var colMap := CountryMapping(columnMapping, country, default, map[]);
    var vms := CountryMapping(valueMappings, country, default, map[]);
    if strict && exists c :: c in ColSet(t) && c !in colMap {
      return Err(ValueError);
    }
    var t1 := Rename(t, colMap);
    if t1.Err? {
      return Err(t1.error);
    }
    r := MapValues(t1.value, vms, strict);
  }

  /** The loop of `process_dataframe` over the value maps, on the renamed
      table: in strict mode a column with an unmapped value raises
      ValueError; otherwise every mapped column is replaced. */
  method MapValues(t1: Table, vms: ValMaps, strict: bool) returns (r: Result<Table>)
    requires Valid(t1)
    ensures r == if strict && exists c :: c in ColSet(t1) && c in vms && !AllMapped(t1, c, vms[c]) then Err(ValueError)
                 else Ok(MapColumns(t1, vms, vms.Keys))
  {
    var df := t1;
    var todo := vms.Keys;
    ghost var done: set<Column> := {};
    MapColumnsNone(t1, vms);
    while todo != {}
      invariant done == vms.Keys - todo
      invariant df == MapColumns(t1, vms, done)
      invariant strict ==> ValuesChecked(t1, vms, done)
      decreases todo
    {
      var col :| col in todo;
      if col in ColSet(df) {
        UnmappedColumnKept(t1, vms, done, col);
        if strict && !AllMapped(df, col, vms[col]) {
          return Err(ValueError);
        }
        MapColumnsStep(t1, vms, done, col);
        df := MapColumns(df, map[col := vms[col]], {col});
      } else {
        MapColumnsAbsent(t1, vms, done, col);
      }
      todo := todo - {col};
      done := done + {col};
    }
    assert done == vms.Keys;
    assert strict ==> !exists c :: c in ColSet(t1) && c in vms && !AllMapped(t1, c, vms[c]);
    return Ok(df);
  }


  // ---------------------------------------------------------------------
  // All countries

  /** Every table of every country is well formed. */
  predicate TablesValid(countryDfs: map<string, seq<Table>>)
  {
    forall country, k :: country in countryDfs && 0 <= k < |countryDfs[country]| ==> Valid(countryDfs[country][k])
  }

  /** Some table of some country fails with ValueError. */
  predicate SomeValueError(countryDfs: map<string, seq<Table>>, columnMapping: map<string, ColMap>,
                           valueMappings: map<string, ValMaps>, default: Option<string>, strict: bool)
    requires TablesValid(countryDfs)
  {
    exists country, k :: country in countryDfs && 0 <= k < |countryDfs[country]| &&
      Harmonize(countryDfs[country][k], CountryMapping(columnMapping, country, default, map[]),
                CountryMapping(valueMappings, country, default, map[]), strict) == Err(ValueError)
  }

  /** Every table of every country harmonises. */
  predicate AllHarmonize(countryDfs: map<string, seq<Table>>, columnMapping: map<string, ColMap>,
                         valueMappings: map<string, ValMaps>, default: Option<string>, strict: bool)
    requires TablesValid(countryDfs)
  {
    forall country, k :: country in countryDfs && 0 <= k < |countryDfs[country]| ==>
      Harmonize(countryDfs[country][k], CountryMapping(columnMapping, country, default, map[]),
                CountryMapping(valueMappings, country, default, map[]), strict).Ok?
  }

  /** `harmonize_dataframes(country_dfs, column_mapping, value_mappings,
      default_country=default, strict_mapping=strict)`. A ValueError of any
      table is the outcome whatever the order of the countries, because the
      source raises it; only when there is none does a table whose renamed
      columns collide make the outcome `DuplicateLabels`. */
  function HarmonizeDataframes(countryDfs: map<string, seq<Table>>, columnMapping: map<string, ColMap>,
                               valueMappings: map<string, ValMaps>, default: Option<string>, strict: bool)
    : (r: Result<map<string, seq<Table>>>)
    requires TablesValid(countryDfs)
    ensures r.Ok? <==> AllHarmonize(countryDfs, columnMapping, valueMappings, default, strict)
    ensures r == Err(ValueError) <==> SomeValueError(countryDfs, columnMapping, valueMappings, default, strict)
    ensures r.Err? ==> r.error == ValueError || r.error == DuplicateLabels
    ensures r.Ok? ==> r.value.Keys == countryDfs.Keys
    ensures r.Ok? ==> forall country :: country in countryDfs ==> |r.value[country]| == |countryDfs[country]|
    ensures r.Ok? ==> forall country, k :: country in countryDfs && 0 <= k < |countryDfs[country]| ==>
      r.value[country][k] == Harmonize(countryDfs[country][k], CountryMapping(columnMapping, country, default, map[]),
                                       CountryMapping(valueMappings, country, default, map[]), strict).value
  {
    if SomeValueError(countryDfs, columnMapping, valueMappings, default, strict) then
      Err(ValueError)
    else if !AllHarmonize(countryDfs, columnMapping, valueMappings, default, strict) then
      Err(DuplicateLabels)
    else
      Ok(map country | country in countryDfs ::
        HarmonizeCountry(countryDfs[country], CountryMapping(columnMapping, country, default, map[]),
                         CountryMapping(valueMappings, country, default, map[]), strict))
  }

  /** A ValueError of the whole call comes from strict mode. */
  lemma ValueErrorOnlyStrict(countryDfs: map<string, seq<Table>>, columnMapping: map<string, ColMap>,
                             valueMappings: map<string, ValMaps>, default: Option<string>, strict: bool)
    requires TablesValid(countryDfs)
    ensures HarmonizeDataframes(countryDfs, columnMapping, valueMappings, default, strict) == Err(ValueError) ==> strict
  {
    if HarmonizeDataframes(countryDfs, columnMapping, valueMappings, default, strict) == Err(ValueError) {
      var country, k :| country in countryDfs && 0 <= k < |countryDfs[country]| &&
        Harmonize(countryDfs[country][k], CountryMapping(columnMapping, country, default, map[]),
                  CountryMapping(valueMappings, country, default, map[]), strict) == Err(ValueError);
    }
  }

  /** The harmonised tables of one country, each of which harmonises. */
  function HarmonizeCountry(dfs: seq<Table>, colMap: ColMap, vms: ValMaps, strict: bool): (r: seq<Table>)
    requires forall k :: 0 <= k < |dfs| ==> Valid(dfs[k])
    requires forall k :: 0 <= k < |dfs| ==> Harmonize(dfs[k], colMap, vms, strict).Ok?
    ensures |r| == |dfs|
    ensures forall k :: 0 <= k < |dfs| ==> r[k] == Harmonize(dfs[k], colMap, vms, strict).value
  {
    seq(|dfs|, k requires 0 <= k < |dfs| => Harmonize(dfs[k], colMap, vms, strict).value)
  }
}
