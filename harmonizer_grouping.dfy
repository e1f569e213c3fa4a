/** The greedy grouping pass of `vertical_merge` (src/socio4health/harmonizer.py).

    Tables are visited in input order. An unused table starts a group (its
    seed); every later unused table is then tried once, in order, against the
    group's accumulated column set `acc`, and joins when it shares at least
    `minCommon` columns with `acc`, when `|shared| / max(|acc|, |cols|)`
    reaches the threshold, and when no shared column has a dtype other than
    the one the SEED recorded for it. A table that joins adds its columns to
    `acc`; the seed's dtype record never grows.

    `Grouping` is the reference definition; `GroupTables` is the loop of the
    source, proved to compute it. */
module HarmonizerGrouping {
  import opened Wrappers
  import opened Text
  import opened Tables

  /** `min_common_columns` and `similarity_threshold`. */
  datatype Params = Params(minCommon: int, threshold: real)

  function Max(a: nat, b: nat): nat
  {
    if a >= b then a else b
  }

  /** The similarity can be computed: `max(len(cols1), len(cols2))` is not zero. */
  predicate Divisible(acc: set<Column>, cand: Table)
  {
    acc != {} || ColSet(cand) != {}
  }

  /** `len(common_cols) / max(len(cols1), len(cols2))`. */
  function Similarity(acc: set<Column>, cand: Table): real
    requires Divisible(acc, cand)
  {
    (|acc * ColSet(cand)| as real) / (Max(|acc|, |ColSet(cand)|) as real)
  }

  /** No shared column the seed recorded has a different dtype in the candidate. */
  predicate DTypesAgree(seedTypes: map<Column, DType>, shared: set<Column>, cand: Table)
  {
    forall c :: c in shared && c in seedTypes ==> c in cand.dtypes && cand.dtypes[c] == seedTypes[c]
  }

  /** The three-part admission test of a candidate. */
  predicate Admits(seedTypes: map<Column, DType>, acc: set<Column>, cand: Table, p: Params)
    requires Divisible(acc, cand)
  {
    var shared := acc * ColSet(cand);
    && |shared| >= p.minCommon
    && Similarity(acc, cand) >= p.threshold
    && DTypesAgree(seedTypes, shared, cand)
  }

  /** The union of the column sets of the tables at the given indices. */
  function UnionCols(ts: seq<Table>, g: seq<nat>): set<Column>
    requires forall k :: 0 <= k < |g| ==> g[k] < |ts|
  {
    if g == [] then {} else UnionCols(ts, g[..|g| - 1]) + ColSet(ts[g[|g| - 1]])
  }

  /** The columns of the group members below `m`: what the group had
      accumulated when candidate `m` was tried. */
  function UnionBelow(ts: seq<Table>, g: seq<nat>, m: nat): set<Column>
    requires forall k :: 0 <= k < |g| ==> g[k] < |ts|
  {
    if g == [] then {}
    else UnionBelow(ts, g[..|g| - 1], m) + (if g[|g| - 1] < m then ColSet(ts[g[|g| - 1]]) else {})
  }

  predicate Increasing(g: seq<nat>)
  {
    forall a, b :: 0 <= a < b < |g| ==> g[a] < g[b]
  }

  predicate InRange(ts: seq<Table>, g: seq<nat>)
  {
    forall k :: 0 <= k < |g| ==> g[k] < |ts|
  }

  /** Candidate `m` of the group `g` seeded by `seed` passed the admission test. */
  predicate Accepted(ts: seq<Table>, p: Params, seed: nat, g: seq<nat>, m: nat)
    requires seed < |ts| && m < |ts| && InRange(ts, g)
  {
    var acc := UnionBelow(ts, g, m);
    Divisible(acc, ts[m]) && Admits(ts[seed].dtypes, acc, ts[m], p)
  }

  /** Candidate `m` was tried against the group `g` seeded by `seed` and failed. */
  predicate Rejected(ts: seq<Table>, p: Params, seed: nat, g: seq<nat>, m: nat)
    requires seed < |ts| && m < |ts| && InRange(ts, g)
  {
    var acc := UnionBelow(ts, g, m);
    Divisible(acc, ts[m]) && !Admits(ts[seed].dtypes, acc, ts[m], p)
  }

  /** The state of the scan over candidates: `cols1`, `used_indices`, `current_group`. */
  datatype Pass = Pass(acc: set<Column>, used: set<nat>, group: seq<nat>)

  /** The inner loop: tries candidates `j`, `j + 1`, ... against the group seeded by `seed`. */
  function Scan(ts: seq<Table>, p: Params, seed: nat, st: Pass, j: nat): Result<Pass>
    requires seed < |ts|
    decreases |ts| - j
  {
    if j >= |ts| then Ok(st)
    else if j in st.used then Scan(ts, p, seed, st, j + 1)
    else if !Divisible(st.acc, ts[j]) then Err(ZeroDivisionError)
    else if Admits(ts[seed].dtypes, st.acc, ts[j], p) then
      Scan(ts, p, seed, Pass(st.acc + ColSet(ts[j]), st.used + {j}, st.group + [j]), j + 1)
    else Scan(ts, p, seed, st, j + 1)
  }

  /** The outer loop from table `i` on, given the indices already used. */
  function GroupsFrom(ts: seq<Table>, p: Params, i: nat, used: set<nat>): Result<seq<seq<nat>>>
    decreases |ts| - i
  {
    if i >= |ts| then Ok([])
    else if i in used then GroupsFrom(ts, p, i + 1, used)
    else
      match Scan(ts, p, i, Pass(ColSet(ts[i]), used + {i}, [i]), i + 1)
      case Err(e) => Err(e)
      case Ok(st) =>
        match GroupsFrom(ts, p, i + 1, st.used)
        case Err(e) => Err(e)
        case Ok(rest) => Ok([st.group] + rest)
  }

  /** The groups `vertical_merge` forms, as lists of input indices. The
      only failure is the division by zero of the similarity. */
  function Grouping(ts: seq<Table>, p: Params): (r: Result<seq<seq<nat>>>)
    ensures r.Err? ==> r.error == ZeroDivisionError
  {
    GroupsFromErrorKind(ts, p, 0, {});
    GroupsFrom(ts, p, 0, {})
  }

  function Prepend(gs: seq<seq<nat>>, r: Result<seq<seq<nat>>>): Result<seq<seq<nat>>>
  {
    match r
    case Ok(rest) => Ok(gs + rest)
    case Err(e) => Err(e)
  }

  function Flatten(gs: seq<seq<nat>>): seq<nat>
  {
    if gs == [] then [] else gs[0] + Flatten(gs[1..])
  }

  lemma PrependTwice(a: seq<seq<nat>>, b: seq<seq<nat>>, r: Result<seq<seq<nat>>>)
    ensures Prepend(a, Prepend(b, r)) == Prepend(a + b, r)
  {
    if r.Ok? {
      assert a + (b + r.value) == (a + b) + r.value;
    }
  }

  /** One round of the outer loop, as the reference definition takes it. */
  lemma GroupsFromStep(ts: seq<Table>, p: Params, i: nat, used: set<nat>, scanned: Result<Pass>)
    requires i < |ts| && i !in used
    requires scanned == Scan(ts, p, i, Pass(ColSet(ts[i]), used + {i}, [i]), i + 1)
    ensures scanned.Err? ==> GroupsFrom(ts, p, i, used) == Err(scanned.error)
    ensures scanned.Ok? ==>
      GroupsFrom(ts, p, i, used) == Prepend([scanned.value.group], GroupsFrom(ts, p, i + 1, scanned.value.used))
  {
  }

  // ---------------------------------------------------------------------
  // Properties of the reference definition.

  /** Every group is a non-empty increasing list of valid indices. */
  predicate WellFormedGroups(ts: seq<Table>, gs: seq<seq<nat>>)
  {
    forall t :: 0 <= t < |gs| ==> gs[t] != [] && Increasing(gs[t]) && InRange(ts, gs[t])
  }

  /** A group's seed is below every index of every later group. */
  predicate SeedsFirst(gs: seq<seq<nat>>)
    requires forall t :: 0 <= t < |gs| ==> gs[t] != []
  {
    forall t, u, k :: 0 <= t < u < |gs| && 0 <= k < |gs[u]| ==> gs[t][0] < gs[u][k]
  }

  /** Every member after the seed passed the test against the group as it then stood. */
  predicate MembersAccepted(ts: seq<Table>, p: Params, gs: seq<seq<nat>>)
    requires WellFormedGroups(ts, gs)
  {
    forall t, k {:trigger Accepted(ts, p, gs[t][0], gs[t], gs[t][k])} :: 0 <= t < |gs| && 1 <= k < |gs[t]| ==> Accepted(ts, p, gs[t][0], gs[t], gs[t][k])
  }

  /** Every table of a later group was tried against this group and failed. */
  predicate LaterRejected(ts: seq<Table>, p: Params, gs: seq<seq<nat>>)
    requires WellFormedGroups(ts, gs)
  {
    forall t, u, k {:trigger Rejected(ts, p, gs[t][0], gs[t], gs[u][k])} :: 0 <= t < u < |gs| && 0 <= k < |gs[u]| ==> Rejected(ts, p, gs[t][0], gs[t], gs[u][k])
  }

  lemma UnionColsAppend(ts: seq<Table>, g: seq<nat>, x: nat)
    requires InRange(ts, g) && x < |ts|
    ensures UnionCols(ts, g + [x]) == UnionCols(ts, g) + ColSet(ts[x])
  {
    assert (g + [x])[..|g|] == g;
  }

  /** When the first `n` members are below `m` and the rest are not, the
      columns accumulated before `m` are those of the first `n`. */
  lemma {:induction false} UnionBelowSplit(ts: seq<Table>, g: seq<nat>, n: nat, m: nat)
    requires InRange(ts, g) && n <= |g|
    requires forall k :: 0 <= k < n ==> g[k] < m
    requires forall k :: n <= k < |g| ==> g[k] >= m
    ensures UnionBelow(ts, g, m) == UnionCols(ts, g[..n])
  {
    if g != [] {
      var init := g[..|g| - 1];
      if n == |g| {
        UnionBelowSplit(ts, init, n - 1, m);
        assert init[..n - 1] == g[..n][..n - 1];
      } else {
        UnionBelowSplit(ts, init, n, m);
        assert init[..n] == g[..n];
      }
    }
  }

  /** What one scan leaves in the group: the old group followed by new,
      increasing candidates from `j` on, none of them used before. */
  lemma ScanShape(ts: seq<Table>, p: Params, seed: nat, st: Pass, j: nat)
    requires seed < |ts|
    requires Scan(ts, p, seed, st, j).Ok?
    requires InRange(ts, st.group) && Increasing(st.group)
    requires forall k :: 0 <= k < |st.group| ==> st.group[k] < j
    ensures var g := Scan(ts, p, seed, st, j).value.group;
      && |st.group| <= |g| && g[..|st.group|] == st.group
      && InRange(ts, g) && Increasing(g)
      && (forall k :: |st.group| <= k < |g| ==> j <= g[k] && g[k] !in st.used)
    ensures var st' := Scan(ts, p, seed, st, j).value;
      st'.used == st.used + SetOf(st'.group[|st.group|..])
  {
    ScanNew(ts, p, seed, st, j);
    ScanUsed(ts, p, seed, st, j);
    var g := Scan(ts, p, seed, st, j).value.group;
    var n := |st.group|;
    forall a, b | 0 <= a < b < |g| ensures g[a] < g[b] {
      if b < n {
        assert g[a] == st.group[a] && g[b] == st.group[b];
      } else if a < n {
        assert g[a] == st.group[a];
      }
    }
    forall k | 0 <= k < |g| ensures g[k] < |ts| {
      if k < n {
        assert g[k] == st.group[k];
      }
    }
  }

  /** The candidates a scan appends: each from `j` on, unused before, in
      increasing order, after the group as it stood. */
  lemma {:induction false} ScanNew(ts: seq<Table>, p: Params, seed: nat, st: Pass, j: nat)
    requires seed < |ts|
    requires Scan(ts, p, seed, st, j).Ok?
    ensures var g := Scan(ts, p, seed, st, j).value.group;
      && |st.group| <= |g| && g[..|st.group|] == st.group
      && (forall k :: |st.group| <= k < |g| ==> j <= g[k] < |ts| && g[k] !in st.used)
      && (forall a, b :: |st.group| <= a < b < |g| ==> g[a] < g[b])
    decreases |ts| - j
  {
    var n := |st.group|;
    if j >= |ts| {
      assert st.group[..n] == st.group;
    } else if j in st.used {
      ScanNew(ts, p, seed, st, j + 1);
    } else if Admits(ts[seed].dtypes, st.acc, ts[j], p) {
      var st2 := Pass(st.acc + ColSet(ts[j]), st.used + {j}, st.group + [j]);
      ScanNew(ts, p, seed, st2, j + 1);
      var g := Scan(ts, p, seed, st2, j + 1).value.group;
      assert g[..n + 1] == st.group + [j];
      assert g[..n] == st.group by { assert g[..n] == g[..n + 1][..n]; }
      assert g[n] == j;
    } else {
      ScanNew(ts, p, seed, st, j + 1);
    }
  }

  /** A scan marks as used exactly the candidates it appends. */
  lemma {:induction false} ScanUsed(ts: seq<Table>, p: Params, seed: nat, st: Pass, j: nat)
    requires seed < |ts|
    requires Scan(ts, p, seed, st, j).Ok?
    ensures |st.group| <= |Scan(ts, p, seed, st, j).value.group|
    ensures var st' := Scan(ts, p, seed, st, j).value;
      st'.used == st.used + SetOf(st'.group[|st.group|..])
    decreases |ts| - j
  {
    var n := |st.group|;
    ScanNew(ts, p, seed, st, j);
    if j >= |ts| {
      assert SetOf(st.group[n..]) == {};
    } else if j in st.used {
      ScanUsed(ts, p, seed, st, j + 1);
    } else if Admits(ts[seed].dtypes, st.acc, ts[j], p) {
      var st2 := Pass(st.acc + ColSet(ts[j]), st.used + {j}, st.group + [j]);
      ScanUsed(ts, p, seed, st2, j + 1);
      ScanNew(ts, p, seed, st2, j + 1);
      var g := Scan(ts, p, seed, st2, j + 1).value.group;
      assert g[..n + 1] == st.group + [j];
      assert g[n..] == [j] + g[n + 1..];
      assert SetOf(g[n..]) == {j} + SetOf(g[n + 1..]);
    } else {
      ScanUsed(ts, p, seed, st, j + 1);
    }
  }

  /** A scan that admits candidate `j`: `j` passed the test against the
      group as it then stood, and so did every candidate admitted after it. */
  lemma {:induction false} AcceptStep(ts: seq<Table>, p: Params, seed: nat, st: Pass, j: nat)
    requires seed < |ts| && j < |ts| && j !in st.used
    requires Divisible(st.acc, ts[j]) && Admits(ts[seed].dtypes, st.acc, ts[j], p)
    requires InRange(ts, st.group) && Increasing(st.group)
    requires st.acc == UnionCols(ts, st.group)
    requires forall k :: 0 <= k < |st.group| ==> st.group[k] < j
    requires Scan(ts, p, seed, Pass(st.acc + ColSet(ts[j]), st.used + {j}, st.group + [j]), j + 1).Ok?
    ensures var g := Scan(ts, p, seed, Pass(st.acc + ColSet(ts[j]), st.used + {j}, st.group + [j]), j + 1).value.group;
      InRange(ts, g) && AcceptedFrom(ts, p, seed, g, |st.group|)
    decreases |ts| - j, 0
  {
    var n := |st.group|;
    var st2 := Pass(st.acc + ColSet(ts[j]), st.used + {j}, st.group + [j]);
    UnionColsAppend(ts, st.group, j);
    ScanAccepted(ts, p, seed, st2, j + 1);
    AdmitShape(ts, p, seed, st, j);
    var g := Scan(ts, p, seed, st2, j + 1).value.group;
    AcceptedAtTurn(ts, p, seed, g, n, j, st.acc);
  }

  /** The group after admitting `j`: the old group, then `j`, then larger candidates. */
  lemma AdmitShape(ts: seq<Table>, p: Params, seed: nat, st: Pass, j: nat)
    requires seed < |ts| && j < |ts|
    requires forall k :: 0 <= k < |st.group| ==> st.group[k] < j
    requires Scan(ts, p, seed, Pass(st.acc + ColSet(ts[j]), st.used + {j}, st.group + [j]), j + 1).Ok?
    ensures var g := Scan(ts, p, seed, Pass(st.acc + ColSet(ts[j]), st.used + {j}, st.group + [j]), j + 1).value.group;
      && |st.group| < |g| && g[|st.group|] == j && g[..|st.group|] == st.group
      && (forall k :: 0 <= k < |st.group| ==> g[k] < j)
      && (forall k :: |st.group| <= k < |g| ==> g[k] >= j)
  {
    var st2 := Pass(st.acc + ColSet(ts[j]), st.used + {j}, st.group + [j]);
    ScanNew(ts, p, seed, st2, j + 1);
    var g := Scan(ts, p, seed, st2, j + 1).value.group;
    ExtendedPrefix(g, st.group, j);
  }

  /** Member `n` of `g`, with every earlier member below it and every later
      one above, passed the test against the columns of the earlier ones. */
  lemma AcceptedAtTurn(ts: seq<Table>, p: Params, seed: nat, g: seq<nat>, n: nat, j: nat, acc: set<Column>)
    requires seed < |ts| && InRange(ts, g) && n < |g| && g[n] == j
    requires forall k :: 0 <= k < n ==> g[k] < j
    requires forall k :: n <= k < |g| ==> g[k] >= j
    requires acc == UnionCols(ts, g[..n])
    requires Divisible(acc, ts[j]) && Admits(ts[seed].dtypes, acc, ts[j], p)
    ensures Accepted(ts, p, seed, g, g[n])
  {
    UnionBelowSplit(ts, g, n, j);
  }

  /** A sequence opening with `pre + [j]` opens with `pre`, then `j`. */
  lemma ExtendedPrefix(g: seq<nat>, pre: seq<nat>, j: nat)
    requires |pre| + 1 <= |g| && g[..|pre| + 1] == pre + [j]
    ensures g[|pre|] == j && g[..|pre|] == pre
    ensures forall k :: 0 <= k < |pre| ==> g[k] == pre[k]
  {
    assert g[|pre|] == g[..|pre| + 1][|pre|];
    forall k | 0 <= k < |pre| ensures g[k] == pre[k] {
      assert g[k] == g[..|pre| + 1][k];
    }
  }

  /** Member `n` of the group and every member after it passed the test. */
  predicate AcceptedFrom(ts: seq<Table>, p: Params, seed: nat, g: seq<nat>, n: nat)
    requires seed < |ts| && InRange(ts, g)
    decreases |g| - n
  {
    n >= |g| || (Accepted(ts, p, seed, g, g[n]) && AcceptedFrom(ts, p, seed, g, n + 1))
  }

  lemma {:induction false} AcceptedFromAll(ts: seq<Table>, p: Params, seed: nat, g: seq<nat>, n: nat)
    requires seed < |ts| && InRange(ts, g) && AcceptedFrom(ts, p, seed, g, n)
    ensures forall k {:trigger Accepted(ts, p, seed, g, g[k])} :: n <= k < |g| ==> Accepted(ts, p, seed, g, g[k])
    decreases |g| - n
  {
    if n < |g| {
      AcceptedFromAll(ts, p, seed, g, n + 1);
    }
  }

  /** Every candidate a scan adds passed the test against the group as it then stood. */
  lemma {:induction false} ScanAccepted(ts: seq<Table>, p: Params, seed: nat, st: Pass, j: nat)
    requires seed < |ts|
    requires Scan(ts, p, seed, st, j).Ok?
    requires InRange(ts, st.group) && Increasing(st.group)
    requires st.acc == UnionCols(ts, st.group)
    requires forall k :: 0 <= k < |st.group| ==> st.group[k] < j
    ensures var g := Scan(ts, p, seed, st, j).value.group;
      InRange(ts, g) && AcceptedFrom(ts, p, seed, g, |st.group|)
    decreases |ts| - j, 1
  {
    if j >= |ts| {
    } else if j in st.used {
      ScanAccepted(ts, p, seed, st, j + 1);
    } else if Admits(ts[seed].dtypes, st.acc, ts[j], p) {
      AcceptStep(ts, p, seed, st, j);
    } else {
      ScanAccepted(ts, p, seed, st, j + 1);
    }
  }

  lemma UnionColsSingle(ts: seq<Table>, x: nat)
    requires x < |ts|
    ensures UnionCols(ts, [x]) == ColSet(ts[x])
  {
    assert [x][..0] == [];
  }

  /** The candidate a scan turns down was tried against the group as it then stood. */
  lemma RejectStep(ts: seq<Table>, p: Params, seed: nat, st: Pass, j: nat)
    requires seed < |ts| && j < |ts| && j !in st.used
    requires Divisible(st.acc, ts[j]) && !Admits(ts[seed].dtypes, st.acc, ts[j], p)
    requires InRange(ts, st.group) && Increasing(st.group)
    requires st.acc == UnionCols(ts, st.group)
    requires forall k :: 0 <= k < |st.group| ==> st.group[k] < j
    requires Scan(ts, p, seed, st, j + 1).Ok?
    ensures var st' := Scan(ts, p, seed, st, j + 1).value;
      j !in st'.used && InRange(ts, st'.group) && Rejected(ts, p, seed, st'.group, j)
  {
    ScanShape(ts, p, seed, st, j + 1);
    var g := Scan(ts, p, seed, st, j + 1).value.group;
    forall k | 0 <= k < |st.group| ensures g[k] < j {
      assert g[k] == g[..|st.group|][k];
    }
    RejectedAtTurn(ts, p, seed, g, |st.group|, j, st.acc);
  }

  /** Candidate `j`, tried when the group's first `n` members were all below
      it and the rest all above, failed the test against their columns. */
  lemma RejectedAtTurn(ts: seq<Table>, p: Params, seed: nat, g: seq<nat>, n: nat, j: nat, acc: set<Column>)
    requires seed < |ts| && j < |ts| && InRange(ts, g) && n <= |g|
    requires forall k :: 0 <= k < n ==> g[k] < j
    requires forall k :: n <= k < |g| ==> g[k] > j
    requires acc == UnionCols(ts, g[..n])
    requires Divisible(acc, ts[j]) && !Admits(ts[seed].dtypes, acc, ts[j], p)
    ensures Rejected(ts, p, seed, g, j)
  {
    UnionBelowSplit(ts, g, n, j);
  }

  /** Every candidate from `x` on that is not in `used` failed the test
      against the group `g` seeded by `seed`. */
  predicate RejectedFrom(ts: seq<Table>, p: Params, seed: nat, g: seq<nat>, used: set<nat>, x: nat)
    requires seed < |ts| && InRange(ts, g)
    decreases |ts| - x
  {
    x >= |ts| || ((x in used || Rejected(ts, p, seed, g, x)) && RejectedFrom(ts, p, seed, g, used, x + 1))
  }

  lemma {:induction false} RejectedFromAll(ts: seq<Table>, p: Params, seed: nat, g: seq<nat>, used: set<nat>, x: nat)
    requires seed < |ts| && InRange(ts, g) && RejectedFrom(ts, p, seed, g, used, x)
    ensures forall y {:trigger Rejected(ts, p, seed, g, y)} :: x <= y < |ts| && y !in used ==> Rejected(ts, p, seed, g, y)
    decreases |ts| - x
  {
    if x < |ts| {
      RejectedFromAll(ts, p, seed, g, used, x + 1);
    }
  }

  /** Every unused candidate from `j` on that a scan leaves out was tried
      against the group as it then stood and failed. */
  lemma {:induction false} ScanRejected(ts: seq<Table>, p: Params, seed: nat, st: Pass, j: nat)
    requires seed < |ts|
    requires Scan(ts, p, seed, st, j).Ok?
    requires InRange(ts, st.group) && Increasing(st.group)
    requires st.acc == UnionCols(ts, st.group)
    requires forall k :: 0 <= k < |st.group| ==> st.group[k] < j
    ensures var st' := Scan(ts, p, seed, st, j).value;
      InRange(ts, st'.group) && RejectedFrom(ts, p, seed, st'.group, st'.used, j)
    decreases |ts| - j, 1
  {
    if j >= |ts| {
    } else if j in st.used {
      ScanUsed(ts, p, seed, st, j + 1);
      ScanRejected(ts, p, seed, st, j + 1);
    } else if Admits(ts[seed].dtypes, st.acc, ts[j], p) {
      RejectAfterAdmit(ts, p, seed, st, j);
    } else {
      RejectStep(ts, p, seed, st, j);
      ScanRejected(ts, p, seed, st, j + 1);
    }
  }

  /** A scan that admits candidate `j` turns down every later unused candidate it leaves out. */
  lemma {:induction false} RejectAfterAdmit(ts: seq<Table>, p: Params, seed: nat, st: Pass, j: nat)
    requires seed < |ts| && j < |ts| && j !in st.used
    requires Divisible(st.acc, ts[j]) && Admits(ts[seed].dtypes, st.acc, ts[j], p)
    requires InRange(ts, st.group) && Increasing(st.group)
    requires st.acc == UnionCols(ts, st.group)
    requires forall k :: 0 <= k < |st.group| ==> st.group[k] < j
    requires Scan(ts, p, seed, Pass(st.acc + ColSet(ts[j]), st.used + {j}, st.group + [j]), j + 1).Ok?
    ensures var st' := Scan(ts, p, seed, Pass(st.acc + ColSet(ts[j]), st.used + {j}, st.group + [j]), j + 1).value;
      InRange(ts, st'.group) && RejectedFrom(ts, p, seed, st'.group, st'.used, j)
    decreases |ts| - j, 0
  {
    var st2 := Pass(st.acc + ColSet(ts[j]), st.used + {j}, st.group + [j]);
    UnionColsAppend(ts, st.group, j);
    assert Increasing(st2.group) && InRange(ts, st2.group);
    ScanUsed(ts, p, seed, st2, j + 1);
    ScanRejected(ts, p, seed, st2, j + 1);
  }

  lemma {:induction false} FlattenMember(gs: seq<seq<nat>>, u: nat, k: nat)
    requires u < |gs| && k < |gs[u]|
    ensures gs[u][k] in Flatten(gs)
  {
    if u > 0 {
      FlattenMember(gs[1..], u - 1, k);
    }
  }

  lemma {:induction false} FlattenFind(gs: seq<seq<nat>>, x: nat) returns (u: nat, k: nat)
    requires x in Flatten(gs)
    ensures u < |gs| && k < |gs[u]| && gs[u][k] == x
  {
    if x in gs[0] {
      u := 0;
      k :| 0 <= k < |gs[0]| && gs[0][k] == x;
    } else {
      var u', k' := FlattenFind(gs[1..], x);
      u, k := u' + 1, k';
    }
  }

  lemma IncreasingDistinct(g: seq<nat>)
    requires Increasing(g)
    ensures Distinct(g)
  {
  }

  /** The first group of a round: the seed followed by what the scan added. */
  lemma FirstGroup(ts: seq<Table>, p: Params, i: nat, used: set<nat>)
    requires i < |ts| && i !in used
    requires Scan(ts, p, i, Pass(ColSet(ts[i]), used + {i}, [i]), i + 1).Ok?
    ensures var st := Scan(ts, p, i, Pass(ColSet(ts[i]), used + {i}, [i]), i + 1).value;
      && st.group != [] && st.group[0] == i
      && InRange(ts, st.group) && Increasing(st.group)
      && (forall k :: 1 <= k < |st.group| ==> i < st.group[k] && st.group[k] !in used)
      && st.used == used + SetOf(st.group)
  {
    var start := Pass(ColSet(ts[i]), used + {i}, [i]);
    ScanShape(ts, p, i, start, i + 1);
    var st := Scan(ts, p, i, start, i + 1).value;
    assert st.group[..1] == [i];
    assert st.group == [i] + st.group[1..];
    assert SetOf(st.group) == {i} + SetOf(st.group[1..]);
  }

  /** The shape of the groups formed from table `i` on: they hold exactly the
      unused indices from `i` on, each once, and each group's seed is below
      every index of later groups. */
  lemma {:induction false} GroupsFromShape(ts: seq<Table>, p: Params, i: nat, used: set<nat>)
    requires GroupsFrom(ts, p, i, used).Ok?
    ensures var gs := GroupsFrom(ts, p, i, used).value;
      && (forall x :: x in Flatten(gs) <==> i <= x < |ts| && x !in used)
      && Distinct(Flatten(gs))
      && WellFormedGroups(ts, gs)
      && SeedsFirst(gs)
    decreases |ts| - i, 1
  {
    if i >= |ts| {
    } else if i in used {
      GroupsFromShape(ts, p, i + 1, used);
    } else {
      ShapeStep(ts, p, i, used);
    }
  }

  /** One round of `GroupsFromShape`: the seed's group, then the groups after it. */
  lemma {:induction false} ShapeStep(ts: seq<Table>, p: Params, i: nat, used: set<nat>)
    requires i < |ts| && i !in used
    requires GroupsFrom(ts, p, i, used).Ok?
    ensures var gs := GroupsFrom(ts, p, i, used).value;
      && (forall x :: x in Flatten(gs) <==> i <= x < |ts| && x !in used)
      && Distinct(Flatten(gs))
      && WellFormedGroups(ts, gs)
      && SeedsFirst(gs)
    decreases |ts| - i, 0
  {
    FirstGroup(ts, p, i, used);
    var st := Scan(ts, p, i, Pass(ColSet(ts[i]), used + {i}, [i]), i + 1).value;
    GroupsFromShape(ts, p, i + 1, st.used);
    var rest := GroupsFrom(ts, p, i + 1, st.used).value;
    var g := st.group;
    var gs := [g] + rest;
    assert GroupsFrom(ts, p, i, used).value == gs;
    assert gs[1..] == rest;
    assert Flatten(gs) == g + Flatten(rest);
    IncreasingDistinct(g);
    forall x | x in Flatten(rest) ensures x !in g {
      assert x !in SetOf(g);
    }
    DistinctConcat(g, Flatten(rest));
    forall x ensures x in Flatten(gs) <==> i <= x < |ts| && x !in used {
      assert x in g <==> x in SetOf(g);
    }
    assert WellFormedGroups(ts, gs);
    ConsSeedsFirst(g, rest);
  }

  /** A group whose seed is below everything after it keeps the seeds in order. */
  lemma ConsSeedsFirst(g: seq<nat>, rest: seq<seq<nat>>)
    requires g != [] && forall t :: 0 <= t < |rest| ==> rest[t] != []
    requires SeedsFirst(rest)
    requires forall x :: x in Flatten(rest) ==> g[0] < x
    ensures SeedsFirst([g] + rest)
  {
    var gs := [g] + rest;
    forall t, u, k | 0 <= t < u < |gs| && 0 <= k < |gs[u]| ensures gs[t][0] < gs[u][k] {
      if t == 0 {
        FlattenMember(rest, u - 1, k);
      } else {
        assert gs[t] == rest[t - 1] && gs[u] == rest[u - 1];
      }
    }
  }

  lemma {:induction false} GroupsFromAdmission(ts: seq<Table>, p: Params, i: nat, used: set<nat>)
    requires GroupsFrom(ts, p, i, used).Ok?
    ensures var gs := GroupsFrom(ts, p, i, used).value;
      WellFormedGroups(ts, gs) && MembersAccepted(ts, p, gs) && LaterRejected(ts, p, gs)
    decreases |ts| - i, 1
  {
    GroupsFromShape(ts, p, i, used);
    if i >= |ts| {
    } else if i in used {
      GroupsFromAdmission(ts, p, i + 1, used);
    } else {
      AdmissionStep(ts, p, i, used);
    }
  }

  /** One round of `GroupsFromAdmission`: the seed's group, then the groups after it. */
  lemma {:induction false} AdmissionStep(ts: seq<Table>, p: Params, i: nat, used: set<nat>)
    requires i < |ts| && i !in used
    requires GroupsFrom(ts, p, i, used).Ok?
    ensures var gs := GroupsFrom(ts, p, i, used).value;
      WellFormedGroups(ts, gs) && MembersAccepted(ts, p, gs) && LaterRejected(ts, p, gs)
    decreases |ts| - i, 0
  {
    var start := Pass(ColSet(ts[i]), used + {i}, [i]);
    UnionColsSingle(ts, i);
    FirstGroup(ts, p, i, used);
    ScanAccepted(ts, p, i, start, i + 1);
    ScanRejected(ts, p, i, start, i + 1);
    var st := Scan(ts, p, i, start, i + 1).value;
    AcceptedFromAll(ts, p, i, st.group, 1);
    RejectedFromAll(ts, p, i, st.group, st.used, i + 1);
    GroupsFromShape(ts, p, i, used);
    GroupsFromShape(ts, p, i + 1, st.used);
    GroupsFromAdmission(ts, p, i + 1, st.used);
    var rest := GroupsFrom(ts, p, i + 1, st.used).value;
    assert GroupsFrom(ts, p, i, used).value == [st.group] + rest;
    ConsMembersAccepted(ts, p, st.group, rest);
    ConsLaterRejected(ts, p, st.group, rest);
  }

  lemma ConsMembersAccepted(ts: seq<Table>, p: Params, g: seq<nat>, rest: seq<seq<nat>>)
    requires g != [] && Increasing(g) && InRange(ts, g)
    requires WellFormedGroups(ts, [g] + rest) && WellFormedGroups(ts, rest)
    requires forall k {:trigger Accepted(ts, p, g[0], g, g[k])} :: 1 <= k < |g| ==> Accepted(ts, p, g[0], g, g[k])
    requires MembersAccepted(ts, p, rest)
    ensures MembersAccepted(ts, p, [g] + rest)
  {
    var gs := [g] + rest;
    forall t, k | 0 <= t < |gs| && 1 <= k < |gs[t]| ensures Accepted(ts, p, gs[t][0], gs[t], gs[t][k]) {
      if t > 0 {
        assert gs[t] == rest[t - 1];
      }
    }
  }

  lemma ConsLaterRejected(ts: seq<Table>, p: Params, g: seq<nat>, rest: seq<seq<nat>>)
    requires g != [] && Increasing(g) && InRange(ts, g)
    requires WellFormedGroups(ts, [g] + rest) && WellFormedGroups(ts, rest)
    requires forall x :: x in Flatten(rest) ==> x < |ts| && Rejected(ts, p, g[0], g, x)
    requires LaterRejected(ts, p, rest)
    ensures LaterRejected(ts, p, [g] + rest)
  {
    var gs := [g] + rest;
    forall t, u, k | 0 <= t < u < |gs| && 0 <= k < |gs[u]|
      ensures Rejected(ts, p, gs[t][0], gs[t], gs[u][k])
    {
      if t == 0 {
        FlattenMember(rest, u - 1, k);
      } else {
        assert gs[t] == rest[t - 1] && gs[u] == rest[u - 1];
      }
    }
  }

  /** The groups partition the input indices: every index lies in exactly one
      group, and every group is a non-empty increasing list of indices. */
  lemma GroupingPartition(ts: seq<Table>, p: Params)
    requires Grouping(ts, p).Ok?
    ensures var gs := Grouping(ts, p).value;
      && (forall x :: x in Flatten(gs) <==> 0 <= x < |ts|)
      && Distinct(Flatten(gs))
      && WellFormedGroups(ts, gs)
  {
    GroupsFromShape(ts, p, 0, {});
  }

  /** Each group starts with its seed, the smallest index no earlier group
      holds, and the groups appear in increasing order of their seeds. */
  lemma GroupingSeeds(ts: seq<Table>, p: Params)
    requires Grouping(ts, p).Ok?
    ensures var gs := Grouping(ts, p).value;
      && WellFormedGroups(ts, gs)
      && (forall t :: 0 <= t < |gs| - 1 ==> gs[t][0] < gs[t + 1][0])
      && (forall t, x :: 0 <= t < |gs| && 0 <= x < gs[t][0] ==> x in Flatten(gs[..t]))
  {
    GroupsFromShape(ts, p, 0, {});
    var gs := Grouping(ts, p).value;
    SeedsIncrease(gs);
    BelowSeedsEarlier(gs, |ts|);
  }

  lemma SeedsIncrease(gs: seq<seq<nat>>)
    requires forall t :: 0 <= t < |gs| ==> gs[t] != []
    requires SeedsFirst(gs)
    ensures forall t :: 0 <= t < |gs| - 1 ==> gs[t][0] < gs[t + 1][0]
  {
    forall t | 0 <= t < |gs| - 1 ensures gs[t][0] < gs[t + 1][0] {
      assert 0 < |gs[t + 1]|;
    }
  }

  /** When the groups hold exactly the indices below `n`, every index below
      a group's seed lies in an earlier group. */
  lemma BelowSeedsEarlier(gs: seq<seq<nat>>, n: nat)
    requires forall u :: 0 <= u < |gs| ==> gs[u] != [] && Increasing(gs[u])
    requires SeedsFirst(gs)
    requires forall x :: x in Flatten(gs) <==> 0 <= x < n
    requires forall u :: 0 <= u < |gs| ==> gs[u][0] < n
    ensures forall t, x :: 0 <= t < |gs| && 0 <= x < gs[t][0] ==> x in Flatten(gs[..t])
  {
    forall t, x | 0 <= t < |gs| && 0 <= x < gs[t][0] ensures x in Flatten(gs[..t]) {
      SeedBelowEarlier(gs, t, x);
    }
  }

  /** An index in some group and below group `t`'s seed lies in an earlier group. */
  lemma SeedBelowEarlier(gs: seq<seq<nat>>, t: nat, x: nat)
    requires forall u :: 0 <= u < |gs| ==> gs[u] != [] && Increasing(gs[u])
    requires SeedsFirst(gs)
    requires t < |gs| && x in Flatten(gs) && x < gs[t][0]
    ensures x in Flatten(gs[..t])
  {
    var u, k := FlattenFind(gs, x);
    SeedAtMost(gs, t, u, k);
    assert gs[..t][u] == gs[u];
    FlattenMember(gs[..t], u, k);
  }

  /** No member of group `t` or of a later group is below group `t`'s seed. */
  lemma SeedAtMost(gs: seq<seq<nat>>, t: nat, u: nat, k: nat)
    requires forall v :: 0 <= v < |gs| ==> gs[v] != [] && Increasing(gs[v])
    requires SeedsFirst(gs)
    requires t < |gs| && u < |gs| && k < |gs[u]|
    ensures t <= u ==> gs[t][0] <= gs[u][k]
  {
    if u == t && k > 0 {
      assert gs[t][0] < gs[t][k];
    }
  }

  /** The admission rule, both ways: a table joined a group exactly when it
      passed the three-part test against the columns the group had
      accumulated so far (shared count, similarity against
      `max(|acc|, |cols|)`, dtypes against the seed's record). Every member
      after the seed passed it; every table of a later group was tried and
      failed it. */
  lemma GroupingAdmission(ts: seq<Table>, p: Params)
    requires Grouping(ts, p).Ok?
    ensures var gs := Grouping(ts, p).value;
      && WellFormedGroups(ts, gs)
      && MembersAccepted(ts, p, gs)
      && LaterRejected(ts, p, gs)
  {
    GroupsFromAdmission(ts, p, 0, {});
  }

  /** A scan cannot divide by zero while every unused candidate left has
      columns or the group has some. */
  lemma {:induction false} ScanDefined(ts: seq<Table>, p: Params, seed: nat, st: Pass, j: nat)
    requires seed < |ts|
    requires forall x :: j <= x < |ts| && x !in st.used ==> Divisible(st.acc, ts[x])
    ensures Scan(ts, p, seed, st, j).Ok?
    decreases |ts| - j
  {
    if j < |ts| && j !in st.used {
      if Admits(ts[seed].dtypes, st.acc, ts[j], p) {
        ScanDefined(ts, p, seed, Pass(st.acc + ColSet(ts[j]), st.used + {j}, st.group + [j]), j + 1);
      } else {
        ScanDefined(ts, p, seed, st, j + 1);
      }
    } else if j < |ts| {
      ScanDefined(ts, p, seed, st, j + 1);
    }
  }

  lemma {:induction false} GroupsFromDefined(ts: seq<Table>, p: Params, i: nat, used: set<nat>)
    requires forall a, b :: 0 <= a < b < |ts| ==> ColSet(ts[a]) != {} || ColSet(ts[b]) != {}
    ensures GroupsFrom(ts, p, i, used).Ok?
    decreases |ts| - i
  {
    if i < |ts| && i in used {
      GroupsFromDefined(ts, p, i + 1, used);
    } else if i < |ts| {
      var start := Pass(ColSet(ts[i]), used + {i}, [i]);
      ScanDefined(ts, p, i, start, i + 1);
      GroupsFromDefined(ts, p, i + 1, Scan(ts, p, i, start, i + 1).value.used);
    }
  }

  /** `vertical_merge` divides by zero only when two of its tables have no
      columns at all: with at most one column-less table the grouping is defined. */
  lemma GroupingDefined(ts: seq<Table>, p: Params)
    requires forall a, b :: 0 <= a < b < |ts| ==> ColSet(ts[a]) != {} || ColSet(ts[b]) != {}
    ensures Grouping(ts, p).Ok?
  {
    GroupsFromDefined(ts, p, 0, {});
  }

  /** Two tables without columns: the similarity of the second against the
      first divides by zero, whatever the parameters. */
  lemma TwoColumnlessTables(p: Params)
    ensures Grouping([EmptyTable(), EmptyTable()], p) == Err(ZeroDivisionError)
  {
    var ts := [EmptyTable(), EmptyTable()];
    assert !Divisible(ColSet(ts[0]), ts[1]);
  }

  /** A scan fails only where the similarity divides by zero. */
  lemma {:induction false} ScanErrorKind(ts: seq<Table>, p: Params, seed: nat, st: Pass, j: nat)
    requires seed < |ts|
    ensures Scan(ts, p, seed, st, j).Err? ==> Scan(ts, p, seed, st, j).error == ZeroDivisionError
    decreases |ts| - j
  {
    if j < |ts| && j in st.used {
      ScanErrorKind(ts, p, seed, st, j + 1);
    } else if j < |ts| && Divisible(st.acc, ts[j]) {
      if Admits(ts[seed].dtypes, st.acc, ts[j], p) {
        ScanErrorKind(ts, p, seed, Pass(st.acc + ColSet(ts[j]), st.used + {j}, st.group + [j]), j + 1);
      } else {
        ScanErrorKind(ts, p, seed, st, j + 1);
      }
    }
  }

  lemma {:induction false} GroupsFromErrorKind(ts: seq<Table>, p: Params, i: nat, used: set<nat>)
    ensures GroupsFrom(ts, p, i, used).Err? ==> GroupsFrom(ts, p, i, used).error == ZeroDivisionError
    decreases |ts| - i
  {
    if i < |ts| && i in used {
      GroupsFromErrorKind(ts, p, i + 1, used);
    } else if i < |ts| {
      var scanned := Scan(ts, p, i, Pass(ColSet(ts[i]), used + {i}, [i]), i + 1);
      ScanErrorKind(ts, p, i, Pass(ColSet(ts[i]), used + {i}, [i]), i + 1);
      if scanned.Ok? {
        GroupsFromErrorKind(ts, p, i + 1, scanned.value.used);
      }
    }
  }

  // ---------------------------------------------------------------------
  // The loop of the source.

  /** The dtype check of one candidate: the `for col in common_cols` loop with `break`. */
  method CheckDTypes(seedTypes: map<Column, DType>, shared: set<Column>, cand: Table) returns (compatible: bool)
    requires Valid(cand) && shared <= ColSet(cand)
    ensures compatible == DTypesAgree(seedTypes, shared, cand)
  {
    compatible := true;
    var todo := shared;
    while todo != {}
      invariant todo <= shared
      invariant compatible == DTypesAgree(seedTypes, shared - todo, cand)
      decreases todo
    {
      var col :| col in todo;
      if col in seedTypes && col in ColSet(cand) {
        if cand.dtypes[col] != seedTypes[col] {
          compatible := false;
          assert !DTypesAgree(seedTypes, shared, cand);
          return;
        }
      }
      todo := todo - {col};
    }
  }

  /** The inner loop of `vertical_merge` (lines 41-70): the group seeded by
      table `i` collects the later unused tables that pass the test. */
  method ScanCandidates(ts: seq<Table>, p: Params, i: nat, used0: set<nat>) returns (r: Result<Pass>)
    requires AllValid(ts) && i < |ts|
    ensures r == Scan(ts, p, i, Pass(ColSet(ts[i]), used0 + {i}, [i]), i + 1)
  {
    var cols1 := ColSet(ts[i]);
    var dtypes1 := ts[i].dtypes;
    var group: seq<nat> := [i];
    var used: set<nat> := used0 + {i};
    var j := i + 1;
    while j < |ts|
      invariant i + 1 <= j <= |ts|
      invariant dtypes1 == ts[i].dtypes
      invariant Scan(ts, p, i, Pass(ColSet(ts[i]), used0 + {i}, [i]), i + 1)
             == Scan(ts, p, i, Pass(cols1, used, group), j)
    {
      if j !in used {
        var cols2 := ColSet(ts[j]);
        var common := cols1 * cols2;
        if |cols1| == 0 && |cols2| == 0 {
          // `len(common_cols) / max(len(cols1), len(cols2))` divides by zero
          return Err(ZeroDivisionError);
        }
        var similarity := (|common| as real) / (Max(|cols1|, |cols2|) as real);
        if |common| >= p.minCommon && similarity >= p.threshold {
          var compatible := CheckDTypes(dtypes1, common, ts[j]);
          if compatible {
            group := group + [j];
            used := used + {j};
            cols1 := cols1 + cols2;
            // `for col in cols2 - cols1` runs after the update: the set is
            // empty, so `dtypes1` keeps the seed's record
            assert cols2 - cols1 == {};
          }
        }
      }
      j := j + 1;
    }
    return Ok(Pass(cols1, used, group));
  }

  /** The grouping loop of `vertical_merge` (lines 31-72). */
  method GroupTables(ts: seq<Table>, p: Params) returns (r: Result<seq<seq<nat>>>)
    requires AllValid(ts)
    ensures r == Grouping(ts, p)
  {
    if |ts| == 0 {
      return Ok([]);
    }
    var groups: seq<seq<nat>> := [];
    var used: set<nat> := {};
    var i := 0;
    match GroupsFrom(ts, p, 0, used) {
      case Ok(rest) => assert groups + rest == rest;
      case Err(_) =>
    }
    while i < |ts|
      invariant 0 <= i <= |ts|
      invariant Grouping(ts, p) == Prepend(groups, GroupsFrom(ts, p, i, used))
    {
      if i !in used {
        var scanned := ScanCandidates(ts, p, i, used);
        GroupsFromStep(ts, p, i, used, scanned);
        match scanned {
          case Err(e) =>
            return Err(e);
          case Ok(st) =>
            PrependTwice(groups, [st.group], GroupsFrom(ts, p, i + 1, st.used));
            groups := groups + [st.group];
            used := st.used;
        }
      }
      i := i + 1;
    }
    assert groups + [] == groups;
    return Ok(groups);
  }
}
