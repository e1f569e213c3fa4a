/** Tables as the harmonisation code sees them.

    A table is an ordered sequence of distinct column names, an opaque dtype
    tag per column (the text of `str(df[col].dtype)`), and rows; a row maps
    every column name to a cell, and a cell is either missing (`None`, the
    NaN/None of pandas) or a value. */
module Tables {
  import opened Wrappers
  import opened Text

  type Column = string

  /** The dtype tag of a column, compared only for equality. */
  type DType = string

  /** A cell value: text or an integer. */
  datatype Value = Str(s: string) | Int(i: int)

  type Cell = Option<Value>

  type Row = map<Column, Cell>

  datatype Table = Table(columns: seq<Column>, dtypes: map<Column, DType>, rows: seq<Row>)

  predicate Distinct<T(==)>(s: seq<T>)
  {
    forall i, j :: 0 <= i < j < |s| ==> s[i] != s[j]
  }

  /** Two sequences without repetitions and without a common element concatenate without repetitions. */
  lemma DistinctConcat<T>(a: seq<T>, b: seq<T>)
    requires Distinct(a) && Distinct(b)
    requires forall x :: x in b ==> x !in a
    ensures Distinct(a + b)
  {
    forall i, j | 0 <= i < j < |a + b| ensures (a + b)[i] != (a + b)[j] {
      if i < |a| && j >= |a| {
        assert (a + b)[j] == b[j - |a|];
        assert (a + b)[j] in b;
      } else if i >= |a| {
        assert (a + b)[i] == b[i - |a|] && (a + b)[j] == b[j - |a|];
      }
    }
  }

  /** In a sequence without repetitions, what its first `n` elements hold does not come back later. */
  lemma DistinctTailAvoids<T>(r: seq<T>, n: nat, S: set<T>)
    requires Distinct(r) && n <= |r| && S <= SetOf(r[..n])
    ensures forall i :: n <= i < |r| ==> r[i] !in S
  {
    forall i | n <= i < |r| ensures r[i] !in S {
    }
  }

  /** A sequence without repetitions has as many elements as its set. */
  lemma {:induction false} DistinctSize(s: seq<Column>)
    requires Distinct(s)
    ensures |SetOf(s)| == |s|
  {
    if s != [] {
      var init := s[..|s| - 1];
      DistinctSize(init);
      assert s == init + [s[|s| - 1]];
      assert SetOf(s) == SetOf(init) + {s[|s| - 1]};
      assert s[|s| - 1] !in SetOf(init);
    }
  }

  function ColSet(t: Table): set<Column>
  {
    SetOf(t.columns)
  }

  /** The representation invariant: distinct column names, one dtype per
      column, and every row has exactly the table's columns. */
  predicate Valid(t: Table)
  {
    && Distinct(t.columns)
    && t.dtypes.Keys == ColSet(t)
    && forall k :: 0 <= k < |t.rows| ==> t.rows[k].Keys == ColSet(t)
  }

  predicate AllValid(ts: seq<Table>)
  {
    forall k :: 0 <= k < |ts| ==> Valid(ts[k])
  }

  /** The table with no columns and no rows (`pd.DataFrame()`). */
  function EmptyTable(): (t: Table)
    ensures Valid(t) && t.columns == [] && t.rows == []
  {
    Table([], map[], [])
  }

  /** `astype('str')` of one cell: a missing cell becomes the text "nan". */
  function CellText(c: Cell): string
  {
    match c
    case None => "nan"
    case Some(Str(s)) => s
    case Some(Int(i)) => IntToDecimal(i)
  }

  /** The row restricted to the columns in `cols`. */
  function RestrictRow(r: Row, cols: set<Column>): (r': Row)
    ensures r'.Keys == r.Keys * cols
    ensures forall c :: c in r' ==> r'[c] == r[c]
  {
    map c | c in r && c in cols :: r[c]
  }

  /** `df[cols]`: the listed columns, in the listed order, of every row. */
  function Project(t: Table, cols: seq<Column>): (r: Table)
    requires Valid(t) && Distinct(cols) && SetOf(cols) <= ColSet(t)
    ensures Valid(r) && r.columns == cols && |r.rows| == |t.rows|
    ensures forall k, c :: 0 <= k < |t.rows| && c in cols ==> r.rows[k][c] == t.rows[k][c]
    ensures forall c :: c in cols ==> r.dtypes[c] == t.dtypes[c]
    ensures SetOf(cols) == ColSet(t) ==> r.rows == t.rows && r.dtypes == t.dtypes
  {
    var keep := SetOf(cols);
    var r := Table(cols, map c | c in keep :: t.dtypes[c], seq(|t.rows|, k requires 0 <= k < |t.rows| => RestrictRow(t.rows[k], keep)));
    assert keep == ColSet(t) ==> r.rows == t.rows by {
      if keep == ColSet(t) {
        forall k | 0 <= k < |t.rows| ensures r.rows[k] == t.rows[k] {
          assert r.rows[k].Keys == t.rows[k].Keys;
        }
      }
    }
    r
  }

  /** The values of column `c`, top to bottom. */
  function ColumnValues(t: Table, c: Column): (vs: seq<Cell>)
    requires Valid(t) && c in ColSet(t)
    ensures |vs| == |t.rows|
    ensures forall k :: 0 <= k < |vs| ==> vs[k] == t.rows[k][c]
  {
    seq(|t.rows|, k requires 0 <= k < |t.rows| => t.rows[k][c])
  }

  /** The number of missing cells in a sequence of cells. */
  function CountMissing(cells: seq<Cell>): (n: nat)
    ensures n <= |cells|
  {
    if cells == [] then 0
    else CountMissing(cells[..|cells| - 1]) + (if cells[|cells| - 1].None? then 1 else 0)
  }

  /** `df[c].isna().mean()`: the fraction of missing cells in column `c`.
      pandas gives NaN for a table without rows; callers test `|t.rows| > 0`. */
  function MissingFraction(t: Table, c: Column): (f: real)
    requires Valid(t) && c in ColSet(t) && |t.rows| > 0
    ensures 0.0 <= f <= 1.0
  {
    var n := CountMissing(ColumnValues(t, c));
    FractionBounds(n, |t.rows|);
    (n as real) / (|t.rows| as real)
  }

  /** A count out of a non-zero total is a fraction between 0 and 1. */
  lemma FractionBounds(n: nat, d: nat)
    requires 0 < d && n <= d
    ensures 0.0 <= (n as real) / (d as real) <= 1.0
  {
    var q := (n as real) / (d as real);
    assert q * (d as real) == n as real;
  }

  /** A count below a non-zero total is a fraction below 1. */
  lemma FractionBelowOne(n: nat, d: nat)
    requires n < d
    ensures 0.0 <= (n as real) / (d as real) < 1.0
  {
    var q := (n as real) / (d as real);
    assert q * (d as real) == n as real;
  }

  /** The number of rows of a sequence of tables, added up. */
  function TotalRows(ts: seq<Table>): nat
  {
    if ts == [] then 0 else TotalRows(ts[..|ts| - 1]) + |ts[|ts| - 1].rows|
  }

  /** The elements of `s` that lie in `keep`, in order. */
  function FilterIn(s: seq<Column>, keep: set<Column>): (r: seq<Column>)
    ensures SetOf(r) == SetOf(s) * keep
    ensures Distinct(s) ==> Distinct(r)
    ensures |r| <= |s|
  {
    if s == [] then []
    else
      var pre := FilterIn(s[..|s| - 1], keep);
      var x := s[|s| - 1];
      var r := pre + (if x in keep then [x] else []);
      assert SetOf(s) == SetOf(s[..|s| - 1]) + {x} by {
        assert s == s[..|s| - 1] + [x];
      }
      assert SetOf(r) == SetOf(pre) + (if x in keep then {x} else {});
      assert Distinct(s) ==> x !in SetOf(s[..|s| - 1]);
      r
  }

  /** Any two elements of `s` occur in `ref` in the same order. */
  predicate InOrder(s: seq<Column>, ref: seq<Column>)
  {
    forall i, j :: 0 <= i < j < |s| ==>
      exists a, b :: 0 <= a < b < |ref| && ref[a] == s[i] && ref[b] == s[j]
  }

  /** Filtering keeps the order of the sequence filtered. */
  lemma {:induction false} FilterInOrder(s: seq<Column>, keep: set<Column>)
    ensures InOrder(FilterIn(s, keep), s)
  {
    if s != [] {
      var init := s[..|s| - 1];
      var x := s[|s| - 1];
      var pre := FilterIn(init, keep);
      var r := FilterIn(s, keep);
      FilterInOrder(init, keep);
      assert r == pre + (if x in keep then [x] else []);
      forall i, j | 0 <= i < j < |r|
        ensures exists a, b :: 0 <= a < b < |s| && s[a] == r[i] && s[b] == r[j]
      {
        if j < |pre| {
          var a, b :| 0 <= a < b < |init| && init[a] == pre[i] && init[b] == pre[j];
          assert s[a] == r[i] && s[b] == r[j];
        } else {
          assert r[i] == pre[i] && pre[i] in SetOf(pre);
          var a :| 0 <= a < |init| && init[a] == pre[i];
          assert s[a] == r[i] && s[|s| - 1] == r[j];
        }
      }
    }
  }

  /** The elements of `s` that do not lie in `drop`, in order. */
  function FilterOut(s: seq<Column>, drop: set<Column>): (r: seq<Column>)
    ensures SetOf(r) == SetOf(s) - drop
    ensures Distinct(s) ==> Distinct(r)
    ensures |r| <= |s|
  {
    if s == [] then []
    else
      var pre := FilterOut(s[..|s| - 1], drop);
      var x := s[|s| - 1];
      var r := pre + (if x !in drop then [x] else []);
      assert SetOf(s) == SetOf(s[..|s| - 1]) + {x} by {
        assert s == s[..|s| - 1] + [x];
      }
      assert SetOf(r) == SetOf(pre) + (if x !in drop then {x} else {});
      assert Distinct(s) ==> x !in SetOf(s[..|s| - 1]);
      r
  }

  /** Dropping `drop` is keeping what lies outside it. */
  lemma {:induction false} FilterOutAsIn(s: seq<Column>, drop: set<Column>, keep: set<Column>)
    requires forall x :: x in s ==> (x in keep <==> x !in drop)
    ensures FilterOut(s, drop) == FilterIn(s, keep)
  {
    if s != [] {
      FilterOutAsIn(s[..|s| - 1], drop, keep);
    }
  }

  /** Dropping keeps the order of the sequence filtered. */
  lemma FilterOutInOrder(s: seq<Column>, drop: set<Column>)
    ensures InOrder(FilterOut(s, drop), s)
  {
    FilterOutAsIn(s, drop, SetOf(s) - drop);
    FilterInOrder(s, SetOf(s) - drop);
  }

  /** Filtering a concatenation filters each part. */
  lemma {:induction false} FilterInConcat(a: seq<Column>, b: seq<Column>, S: set<Column>)
    ensures FilterIn(a + b, S) == FilterIn(a, S) + FilterIn(b, S)
  {
    if b == [] {
      assert a + b == a;
    } else {
      var init := b[..|b| - 1];
      var x := b[|b| - 1];
      var ab := a + b;
      assert ab[..|ab| - 1] == a + init;
      assert ab[|ab| - 1] == x;
      FilterInConcat(a, init, S);
      var tail := if x in S then [x] else [];
      assert FilterIn(ab, S) == FilterIn(a + init, S) + tail;
      assert FilterIn(b, S) == FilterIn(init, S) + tail;
      AppendAssocCols(FilterIn(a, S), FilterIn(init, S), tail);
    }
  }

  /** Dropping from a concatenation drops from each part. */
  lemma {:induction false} FilterOutConcat(a: seq<Column>, b: seq<Column>, S: set<Column>)
    ensures FilterOut(a + b, S) == FilterOut(a, S) + FilterOut(b, S)
  {
    if b == [] {
      assert a + b == a;
    } else {
      var init := b[..|b| - 1];
      var x := b[|b| - 1];
      var ab := a + b;
      assert ab[..|ab| - 1] == a + init;
      assert ab[|ab| - 1] == x;
      FilterOutConcat(a, init, S);
      var tail := if x !in S then [x] else [];
      assert FilterOut(ab, S) == FilterOut(a + init, S) + tail;
      assert FilterOut(b, S) == FilterOut(init, S) + tail;
      AppendAssocCols(FilterOut(a, S), FilterOut(init, S), tail);
    }
  }

  lemma AppendAssocCols(a: seq<Column>, b: seq<Column>, c: seq<Column>)
    ensures (a + b) + c == a + (b + c)
  {
  }

  /** Filtering on a set that holds every element keeps them all, and
      dropping it drops them all. */
  lemma {:induction false} FilterWithin(s: seq<Column>, S: set<Column>)
    requires forall x :: x in s ==> x in S
    ensures FilterIn(s, S) == s && FilterOut(s, S) == []
  {
    if s != [] {
      FilterWithin(s[..|s| - 1], S);
      assert s == s[..|s| - 1] + [s[|s| - 1]];
    }
  }

  /** Filtering on a set that holds no element keeps none, and dropping it
      keeps them all. */
  lemma {:induction false} FilterOutside(s: seq<Column>, S: set<Column>)
    requires forall x :: x in s ==> x !in S
    ensures FilterIn(s, S) == [] && FilterOut(s, S) == s
  {
    if s != [] {
      FilterOutside(s[..|s| - 1], S);
      assert s == s[..|s| - 1] + [s[|s| - 1]];
    }
  }

  /** Dropping nothing keeps the sequence as it is. */
  lemma {:induction false} FilterOutNothing(s: seq<Column>)
    ensures FilterOut(s, {}) == s
  {
    if s != [] {
      FilterOutNothing(s[..|s| - 1]);
    }
  }

  // ---------------------------------------------------------------------
  // Vertical concatenation (`concat(axis=0, ignore_index=True)`, outer join).

  /** The union of the column sets of all the tables. */
  function UnionAll(ts: seq<Table>): set<Column>
  {
    if ts == [] then {} else UnionAll(ts[..|ts| - 1]) + ColSet(ts[|ts| - 1])
  }

  lemma {:induction false} UnionAllMember(ts: seq<Table>, c: Column)
    ensures c in UnionAll(ts) <==> exists k :: 0 <= k < |ts| && c in ColSet(ts[k])
  {
    if ts != [] {
      UnionAllMember(ts[..|ts| - 1], c);
      if c in ColSet(ts[|ts| - 1]) {
      } else if c in UnionAll(ts[..|ts| - 1]) {
        var k :| 0 <= k < |ts| - 1 && c in ColSet(ts[..|ts| - 1][k]);
        assert c in ColSet(ts[k]);
      } else {
        forall k | 0 <= k < |ts| ensures c !in ColSet(ts[k]) {
          if k < |ts| - 1 {
            assert ts[..|ts| - 1][k] == ts[k];
          }
        }
      }
    }
  }

  /** The columns of all the tables in order of first appearance: the column
      index of an outer concatenation. */
  function OrderedUnion(ts: seq<Table>): (cols: seq<Column>)
    requires AllValid(ts)
    ensures Distinct(cols)
    ensures SetOf(cols) == UnionAll(ts)
  {
    if ts == [] then []
    else
      var pre := OrderedUnion(ts[..|ts| - 1]);
      var extra := FilterOut(ts[|ts| - 1].columns, SetOf(pre));
      assert forall i, j :: 0 <= i < |pre| && 0 <= j < |extra| ==> pre[i] != extra[j] by {
        forall i, j | 0 <= i < |pre| && 0 <= j < |extra| ensures pre[i] != extra[j] {
          assert extra[j] in SetOf(extra);
        }
      }
      assert SetOf(pre + extra) == SetOf(pre) + SetOf(extra);
      pre + extra
  }

  /** The first table's columns open the concatenation, in their own order. */
  lemma {:induction false} OrderedUnionStartsWithFirst(ts: seq<Table>)
    requires AllValid(ts) && ts != []
    ensures |ts[0].columns| <= |OrderedUnion(ts)|
    ensures OrderedUnion(ts)[..|ts[0].columns|] == ts[0].columns
  {
    if |ts| == 1 {
      OrderedUnionOne(ts);
    } else {
      var init := ts[..|ts| - 1];
      AllValidPrefix(ts);
      OrderedUnionStartsWithFirst(init);
      OrderedUnionSnoc(ts);
      AppendKeepsPrefix(OrderedUnion(init), FilterOut(ts[|ts| - 1].columns, SetOf(OrderedUnion(init))), |init[0].columns|);
    }
  }

  /** The columns of one table, in order. */
  lemma OrderedUnionOne(ts: seq<Table>)
    requires AllValid(ts) && |ts| == 1
    ensures OrderedUnion(ts) == ts[0].columns
  {
    FilterOutNothing(ts[0].columns);
    assert OrderedUnion(ts[..0]) == [];
  }

  /** The columns of the tables before the last, then the last table's new ones. */
  lemma OrderedUnionSnoc(ts: seq<Table>)
    requires AllValid(ts) && ts != []
    ensures AllValid(ts[..|ts| - 1])
    ensures OrderedUnion(ts) == OrderedUnion(ts[..|ts| - 1]) + FilterOut(ts[|ts| - 1].columns, SetOf(OrderedUnion(ts[..|ts| - 1])))
  {
  }

  /** A prefix of valid tables is valid. */
  lemma AllValidPrefix(ts: seq<Table>)
    requires AllValid(ts) && ts != []
    ensures AllValid(ts[..|ts| - 1])
  {
    var init := ts[..|ts| - 1];
    forall k | 0 <= k < |init| ensures Valid(init[k]) {
      assert init[k] == ts[k];
    }
  }

  /** Appending to a sequence keeps its first `n` elements. */
  lemma AppendKeepsPrefix<T>(a: seq<T>, b: seq<T>, n: nat)
    requires n <= |a|
    ensures (a + b)[..n] == a[..n]
  {
  }

  /** The row widened to the columns `cols`: a column the row lacks is missing. */
  function PadRow(r: Row, cols: set<Column>): (r': Row)
    ensures r'.Keys == cols
    ensures forall c :: c in cols && c in r ==> r'[c] == r[c]
    ensures forall c :: c in cols && c !in r ==> r'[c].None?
  {
    map c | c in cols :: if c in r then r[c] else None
  }

  /** The rows of all the tables, one table after the other, each widened to `cols`. */
  function ConcatRows(ts: seq<Table>, cols: set<Column>): (rows: seq<Row>)
    ensures |rows| == TotalRows(ts)
    ensures forall k :: 0 <= k < |rows| ==> rows[k].Keys == cols
  {
    if ts == [] then []
    else
      var last := ts[|ts| - 1];
      ConcatRows(ts[..|ts| - 1], cols) + seq(|last.rows|, k requires 0 <= k < |last.rows| => PadRow(last.rows[k], cols))
  }

  lemma {:induction false} TotalRowsPrefix(ts: seq<Table>, t: nat)
    requires t < |ts|
    ensures TotalRows(ts[..t]) + |ts[t].rows| <= TotalRows(ts)
    decreases |ts|
  {
    if t < |ts| - 1 {
      TotalRowsPrefix(ts[..|ts| - 1], t);
      assert ts[..|ts| - 1][..t] == ts[..t];
    } else {
      assert ts[..|ts| - 1] == ts[..t];
    }
  }

  /** Row `k` of table `t` lands at row `TotalRows(ts[..t]) + k` of the
      concatenation, widened with missing cells. */
  lemma {:induction false} ConcatRowsAt(ts: seq<Table>, cols: set<Column>, t: nat, k: nat)
    requires t < |ts| && k < |ts[t].rows|
    ensures TotalRows(ts[..t]) + k < TotalRows(ts)
    ensures ConcatRows(ts, cols)[TotalRows(ts[..t]) + k] == PadRow(ts[t].rows[k], cols)
    decreases |ts|
  {
    TotalRowsPrefix(ts, t);
    var init := ts[..|ts| - 1];
    if t < |ts| - 1 {
      ConcatRowsAt(init, cols, t, k);
      assert init[..t] == ts[..t];
      assert init[t] == ts[t];
    } else {
      assert init == ts[..t];
    }
  }

  /** The dtype record of an outer concatenation: each column keeps the dtype
      of the first table that has it. */
  function UnionDTypes(ts: seq<Table>): (m: map<Column, DType>)
    requires AllValid(ts)
    ensures m.Keys == UnionAll(ts)
    ensures ts != [] ==> forall c :: c in ts[0].dtypes ==> c in m && m[c] == ts[0].dtypes[c]
  {
    if ts == [] then map[]
    else
      var init := ts[..|ts| - 1];
      var m := ts[|ts| - 1].dtypes + UnionDTypes(init);
      assert |ts| > 1 ==> init[0] == ts[0];
      m
  }

  /** `concat(ts, axis=0, ignore_index=True)` with an outer join of the columns. */
  function Concat(ts: seq<Table>): (r: Table)
    requires AllValid(ts)
    ensures Valid(r)
    ensures ColSet(r) == UnionAll(ts)
    ensures |r.rows| == TotalRows(ts)
  {
    var cols := OrderedUnion(ts);
    Table(cols, UnionDTypes(ts), ConcatRows(ts, SetOf(cols)))
  }

  /** Every row of every table reappears in the concatenation, in order, with
      its cells unchanged and a missing cell in every column it lacked. */
  lemma ConcatKeepsRows(ts: seq<Table>, t: nat, k: nat)
    requires AllValid(ts) && t < |ts| && k < |ts[t].rows|
    ensures TotalRows(ts[..t]) + k < |Concat(ts).rows|
    ensures var row := Concat(ts).rows[TotalRows(ts[..t]) + k];
      && (forall c :: c in ts[t].rows[k] ==> c in row && row[c] == ts[t].rows[k][c])
      && (forall c :: c in row && c !in ts[t].rows[k] ==> row[c].None?)
  {
    ConcatRowsAt(ts, SetOf(OrderedUnion(ts)), t, k);
    forall c | c in ts[t].rows[k] ensures c in UnionAll(ts) {
      UnionAllMember(ts, c);
    }
  }

  /** The concatenation starts with the first table's columns, in its order. */
  lemma ConcatColumnsStartWithFirst(ts: seq<Table>)
    requires AllValid(ts) && ts != []
    ensures |ts[0].columns| <= |Concat(ts).columns|
    ensures Concat(ts).columns[..|ts[0].columns|] == ts[0].columns
  {
    OrderedUnionStartsWithFirst(ts);
  }
}
