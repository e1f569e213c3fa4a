/** `query_json` of src/socio4health/dict/jsonQuery.py, on an already loaded
    JSON value: for a variable, one of its options and one of its data
    sources, the source's code mappings whose target code has a label in the
    option's detailed list. */
module JsonQuery {
  import opened Wrappers
  import opened JsonValues

  /** One result dictionary: `code`, `label`, `mapped_code`, `mapped_label`. */
  datatype Entry = Entry(code: string, codeLabel: Json, mappedCode: Json, mappedLabel: Json)

  /** The entry one mapping contributes, if its target code has a truthy
      label in `detailed`. */
  function MappingEntry(code: string, mapping: Json, detailed: Json): (r: Result<Option<Entry>>)
    ensures r.Ok? && r.value.Some? ==>
              && mapping.JObj? && detailed.JObj?
              && r.value.value.code == code
              && Get(mapping, JStr("map_to"), JNull) == Ok(r.value.value.mappedCode)
              && Get(mapping, JStr("label"), JNull) == Ok(r.value.value.codeLabel)
              && Get(detailed, r.value.value.mappedCode, JNull) == Ok(r.value.value.mappedLabel)
              && Truthy(r.value.value.mappedLabel)
    ensures r.Ok? && r.value.None? ==>
              exists m :: Get(mapping, JStr("map_to"), JNull) == Ok(m) && Get(detailed, m, JNull).Ok?
                          && !Truthy(Get(detailed, m, JNull).value)
  {
    match Get(mapping, JStr("map_to"), JNull)
    case Err(k) => Err(k)
    case Ok(mapTo) =>
      match Get(detailed, mapTo, JNull)
      case Err(k) => Err(k)
      case Ok(mapLabel) =>
        if Truthy(mapLabel) then
          var codeLabel := Get(mapping, JStr("label"), JNull).value;
          Ok(Some(Entry(code, codeLabel, mapTo, mapLabel)))
        else Ok(None)
  }

  /** Appends `r`'s entries to `acc`, or passes its error on. */
  function Then(acc: seq<Entry>, r: Result<seq<Entry>>): Result<seq<Entry>>
  {
    match r
    case Ok(es) => Ok(acc + es)
    case Err(k) => Err(k)
  }

  /** Every entry of `es` is the entry of one of the mappings. */
  ghost predicate EntriesOfMappings(es: seq<Entry>, mappings: seq<(string, Json)>, detailed: Json)
  {
    forall e :: e in es ==>
      exists k :: 0 <= k < |mappings| && MappingEntry(mappings[k].0, mappings[k].1, detailed) == Ok(Some(e))
  }

  /** No mapping raises. */
  ghost predicate MappingsOk(mappings: seq<(string, Json)>, detailed: Json)
  {
    forall k :: 0 <= k < |mappings| ==> MappingEntry(mappings[k].0, mappings[k].1, detailed).Ok?
  }

  /** The loop over one variable's mappings, in order. */
  function MappingEntries(mappings: seq<(string, Json)>, detailed: Json): (r: Result<seq<Entry>>)
    ensures r.Ok? ==> EntriesOfMappings(r.value, mappings, detailed)
    ensures r.Ok? ==> MappingsOk(mappings, detailed)
    ensures r.Ok? ==> |r.value| <= |mappings|
  {
    if mappings == [] then Ok([])
    else
      match MappingEntry(mappings[0].0, mappings[0].1, detailed)
      case Err(k) => Err(k)
      case Ok(first) =>
        var rest := MappingEntries(mappings[1..], detailed);
        var head := if first.Some? then [first.value] else [];
        assert rest.Ok? ==> forall e :: e in rest.value ==>
                 exists k :: 0 <= k < |mappings| && MappingEntry(mappings[k].0, mappings[k].1, detailed) == Ok(Some(e)) by {
          if rest.Ok? {
            forall e | e in rest.value
              ensures exists k :: 0 <= k < |mappings| && MappingEntry(mappings[k].0, mappings[k].1, detailed) == Ok(Some(e))
            {
              var k :| 0 <= k < |mappings[1..]| && MappingEntry(mappings[1..][k].0, mappings[1..][k].1, detailed) == Ok(Some(e));
              assert mappings[k + 1] == mappings[1..][k];
            }
          }
        }
        assert rest.Ok? ==> forall k :: 0 <= k < |mappings| ==> MappingEntry(mappings[k].0, mappings[k].1, detailed).Ok? by {
          if rest.Ok? {
            forall k | 0 <= k < |mappings| ensures MappingEntry(mappings[k].0, mappings[k].1, detailed).Ok? {
              if k > 0 {
                assert mappings[k] == mappings[1..][k - 1];
              }
            }
          }
        }
        Then(head, rest)
  }

  /** Every mapping whose target has a truthy label yields its entry. */
  lemma {:induction false} MappingEntriesComplete(mappings: seq<(string, Json)>, detailed: Json, k: int, e: Entry)
    requires MappingEntries(mappings, detailed).Ok?
    requires 0 <= k < |mappings| && MappingEntry(mappings[k].0, mappings[k].1, detailed) == Ok(Some(e))
    ensures e in MappingEntries(mappings, detailed).value
  {
    assert mappings[0..] == mappings;
    MappingEntriesAt(mappings, 0, detailed);
    var first := MappingEntry(mappings[0].0, mappings[0].1, detailed).value;
    var head := if first.Some? then [first.value] else [];
    var rest := MappingEntries(mappings[1..], detailed);
    assert MappingEntries(mappings, detailed) == Then(head, rest);
    if k == 0 {
      assert e in head;
    } else {
      assert mappings[1..][k - 1] == mappings[k];
      MappingEntriesComplete(mappings[1..], detailed, k - 1, e);
      assert e in rest.value;
    }
  }

  // ---------------------------------------------------------------------
  // Order and multiplicity of the entries

  /** What a run of loop turns yields: the first error, or the entries
      present, in order. */
  function Gather(rs: seq<Result<Option<Entry>>>): Result<seq<Entry>>
  {
    if rs == [] then Ok([])
    else
      match rs[0]
      case Err(k) => Err(k)
      case Ok(first) => Then(if first.Some? then [first.value] else [], Gather(rs[1..]))
  }

  /** One turn of gathering: an error outcome ends it, any other appends its
      entry, if any, and goes on with the next outcome. */
  lemma GatherStep(acc: seq<Entry>, rs: seq<Result<Option<Entry>>>, j: nat)
    requires j < |rs|
    ensures rs[j].Err? ==> Then(acc, Gather(rs[j..])) == Err(rs[j].error)
    ensures rs[j].Ok? ==>
      Then(acc, Gather(rs[j..]))
      == Then(acc + (if rs[j].value.Some? then [rs[j].value.value] else []), Gather(rs[j + 1..]))
  {
    assert rs[j..][0] == rs[j];
    assert rs[j..][1..] == rs[j + 1..];
    if rs[j].Ok? {
      ThenThen(acc, if rs[j].value.Some? then [rs[j].value.value] else [], Gather(rs[j + 1..]));
    }
  }

  /** The outcome of each mapping's turn of the loop. */
  function Outcomes(mappings: seq<(string, Json)>, detailed: Json): (rs: seq<Result<Option<Entry>>>)
    ensures |rs| == |mappings|
    ensures forall k :: 0 <= k < |mappings| ==> rs[k] == MappingEntry(mappings[k].0, mappings[k].1, detailed)
  {
    seq(|mappings|, k requires 0 <= k < |mappings| => MappingEntry(mappings[k].0, mappings[k].1, detailed))
  }

  /** The loop over the mappings gathers the outcomes of its turns. */
  lemma {:induction false} MappingEntriesGather(mappings: seq<(string, Json)>, detailed: Json)
    ensures MappingEntries(mappings, detailed) == Gather(Outcomes(mappings, detailed))
  {
    if mappings != [] {
      MappingEntriesGather(mappings[1..], detailed);
      assert Outcomes(mappings, detailed)[1..] == Outcomes(mappings[1..], detailed);
    }
  }

  /** The positions from `from` on whose outcome is an entry, in increasing order. */
  function PresentFrom(rs: seq<Result<Option<Entry>>>, from: nat): (idx: seq<nat>)
    requires from <= |rs|
    ensures forall j :: 0 <= j < |idx| ==> from <= idx[j] < |rs|
    ensures forall j1, j2 :: 0 <= j1 < j2 < |idx| ==> idx[j1] < idx[j2]
    ensures forall i :: from <= i < |rs| ==> (i in idx <==> rs[i].Ok? && rs[i].value.Some?)
    decreases |rs| - from
  {
    if from == |rs| then []
    else (if rs[from].Ok? && rs[from].value.Some? then [from] else []) + PresentFrom(rs, from + 1)
  }

  /** Gathering from `from` on yields one entry per present outcome, in order. */
  lemma {:induction false} GatherInOrder(rs: seq<Result<Option<Entry>>>, from: nat)
    requires from <= |rs| && Gather(rs[from..]).Ok?
    ensures |Gather(rs[from..]).value| == |PresentFrom(rs, from)|
    ensures forall j :: 0 <= j < |PresentFrom(rs, from)| ==>
      rs[PresentFrom(rs, from)[j]] == Ok(Some(Gather(rs[from..]).value[j]))
    decreases |rs| - from
  {
    if from < |rs| {
      var first := rs[from].value;
      var head := if first.Some? then [first.value] else [];
      assert rs[from..][0] == rs[from] && rs[from..][1..] == rs[from + 1..];
      var rest := Gather(rs[from + 1..]);
      assert Gather(rs[from..]) == Then(head, rest);
      GatherInOrder(rs, from + 1);
      var es := Gather(rs[from..]).value;
      var later := PresentFrom(rs, from + 1);
      var pre: seq<nat> := if first.Some? then [from] else [];
      var idx := PresentFrom(rs, from);
      assert es == head + rest.value && idx == pre + later;
      forall j | 0 <= j < |idx| ensures rs[idx[j]] == Ok(Some(es[j])) {
        if j >= |pre| {
          assert idx[j] == later[j - |pre|] && es[j] == rest.value[j - |pre|];
        }
      }
    }
  }

  /** The loop over one variable's mappings yields exactly one entry per
      mapping whose outcome is an entry, in the mappings' order. */
  lemma MappingEntriesInOrder(mappings: seq<(string, Json)>, detailed: Json)
    requires MappingEntries(mappings, detailed).Ok?
    ensures var es := MappingEntries(mappings, detailed).value;
      var idx := PresentFrom(Outcomes(mappings, detailed), 0);
      && |es| == |idx|
      && forall j :: 0 <= j < |idx| ==> MappingEntry(mappings[idx[j]].0, mappings[idx[j]].1, detailed) == Ok(Some(es[j]))
  {
    var rs := Outcomes(mappings, detailed);
    MappingEntriesGather(mappings, detailed);
    assert rs[0..] == rs;
    GatherInOrder(rs, 0);
  }

  /** The entries one variable contributes: its `mappings`, `{}` when absent. */
  function VariableEntries(varData: Json, detailed: Json): Result<seq<Entry>>
  {
    match Get(varData, JStr("mappings"), EmptyObject())
    case Err(k) => Err(k)
    case Ok(mappings) =>
      match Items(mappings)
      case Err(k) => Err(k)
      case Ok(ms) => MappingEntries(ms, detailed)
  }

  /** The loop over a data source's variables, in order. */
  function VariablesEntries(variables: seq<(string, Json)>, detailed: Json): Result<seq<Entry>>
  {
    if variables == [] then Ok([])
    else
      match VariableEntries(variables[0].1, detailed)
      case Err(k) => Err(k)
      case Ok(es) => Then(es, VariablesEntries(variables[1..], detailed))
  }

  /** The loop over the variables succeeds exactly when no variable's turn raises. */
  lemma {:induction false} VariablesEntriesOk(variables: seq<(string, Json)>, detailed: Json)
    ensures VariablesEntries(variables, detailed).Ok?
        <==> forall k :: 0 <= k < |variables| ==> VariableEntries(variables[k].1, detailed).Ok?
  {
    if variables != [] {
      var tail := variables[1..];
      VariablesEntriesOk(tail, detailed);
      var first := VariableEntries(variables[0].1, detailed);
      assert VariablesEntries(variables, detailed)
          == if first.Err? then Err(first.error) else Then(first.value, VariablesEntries(tail, detailed));
      if forall k :: 0 <= k < |variables| ==> VariableEntries(variables[k].1, detailed).Ok? {
        forall k | 0 <= k < |tail| ensures VariableEntries(tail[k].1, detailed).Ok? {
          assert tail[k] == variables[k + 1];
        }
      } else {
        var k :| 0 <= k < |variables| && !VariableEntries(variables[k].1, detailed).Ok?;
        if k > 0 {
          assert tail[k - 1] == variables[k];
        }
      }
    }
  }

  /** What a run of the outer loop's turns yields: the first error, or the
      entries of every turn, in order. */
  function Joined(rs: seq<Result<seq<Entry>>>): Result<seq<Entry>>
  {
    if rs == [] then Ok([])
    else
      match rs[0]
      case Err(k) => Err(k)
      case Ok(es) => Then(es, Joined(rs[1..]))
  }

  /** The outcome of each variable's turn of the outer loop. */
  function VariableOutcomes(variables: seq<(string, Json)>, detailed: Json): (rs: seq<Result<seq<Entry>>>)
    ensures |rs| == |variables|
    ensures forall k :: 0 <= k < |variables| ==> rs[k] == VariableEntries(variables[k].1, detailed)
  {
    seq(|variables|, k requires 0 <= k < |variables| => VariableEntries(variables[k].1, detailed))
  }

  /** The loop over the variables joins the outcomes of its turns. */
  lemma {:induction false} VariablesEntriesJoined(variables: seq<(string, Json)>, detailed: Json)
    ensures VariablesEntries(variables, detailed) == Joined(VariableOutcomes(variables, detailed))
  {
    if variables != [] {
      VariablesEntriesJoined(variables[1..], detailed);
      assert VariableOutcomes(variables, detailed)[1..] == VariableOutcomes(variables[1..], detailed);
    }
  }

  /** A joined run splits around its `i`-th turn. */
  lemma {:induction false} JoinedSplit(rs: seq<Result<seq<Entry>>>, i: nat)
    requires i < |rs| && Joined(rs).Ok?
    ensures Joined(rs[..i]).Ok? && rs[i].Ok? && Joined(rs[i + 1..]).Ok?
    ensures Joined(rs).value == Joined(rs[..i]).value + rs[i].value + Joined(rs[i + 1..]).value
  {
    var first := rs[0].value;
    var tail := rs[1..];
    assert Joined(rs) == Then(first, Joined(tail));
    if i == 0 {
      assert rs[..0] == [] && [] + first == first;
    } else {
      JoinedSplit(tail, i - 1);
      assert rs[..i][0] == rs[0] && rs[..i][1..] == tail[..i - 1];
      assert rs[i] == tail[i - 1] && rs[i + 1..] == tail[i..];
      var a := Joined(tail[..i - 1]).value;
      var c := Joined(tail[i..]).value;
      assert Joined(rs[..i]) == Then(first, Joined(tail[..i - 1]));
      assert first + (a + rs[i].value + c) == (first + a) + rs[i].value + c;
    }
  }

  /** The entries of the `i`-th variable come after those of the variables
      before it and before those of the variables after it. */
  lemma VariablesEntriesSplit(variables: seq<(string, Json)>, detailed: Json, i: nat)
    requires i < |variables| && VariablesEntries(variables, detailed).Ok?
    ensures VariablesEntries(variables[..i], detailed).Ok?
    ensures VariableEntries(variables[i].1, detailed).Ok?
    ensures VariablesEntries(variables[i + 1..], detailed).Ok?
    ensures VariablesEntries(variables, detailed).value
         == VariablesEntries(variables[..i], detailed).value + VariableEntries(variables[i].1, detailed).value
            + VariablesEntries(variables[i + 1..], detailed).value
  {
    var rs := VariableOutcomes(variables, detailed);
    VariablesEntriesJoined(variables, detailed);
    VariablesEntriesJoined(variables[..i], detailed);
    VariablesEntriesJoined(variables[i + 1..], detailed);
    assert VariableOutcomes(variables[..i], detailed) == rs[..i];
    assert VariableOutcomes(variables[i + 1..], detailed) == rs[i + 1..];
    JoinedSplit(rs, i);
  }

  /** The `variables` object of the data source `dataSource` of a variable,
      when each step of that path is an object. */
  function SourceVariables(varData: Json, dataSource: string): Option<seq<(string, Json)>>
  {
    if !varData.JObj? then None
    else
      match Lookup(varData.members, "data_sources")
      case Some(JObj(ds)) =>
        (match Lookup(ds, dataSource)
         case Some(JObj(src)) =>
           (match Lookup(src, "variables")
            case Some(JObj(vs)) => Some(vs)
            case _ => None)
         case _ => None)
      case _ => None
  }

  /** The entries for the data source once the variable and the option were
      found: nothing for a missing or unknown source, the entries of the
      source's variables when the path to them is present. */
  function SourceEntries(varData: Json, dataSource: string, detailed: Json): (r: Result<seq<Entry>>)
    ensures varData.JObj? &&
            (Lookup(varData.members, "data_sources").None?
             || (Lookup(varData.members, "data_sources").value.JObj?
                 && Lookup(Lookup(varData.members, "data_sources").value.members, dataSource).None?))
            ==> r == Ok([])
    ensures SourceVariables(varData, dataSource).Some? ==>
              r == VariablesEntries(DictItems(SourceVariables(varData, dataSource).value), detailed)
  {
    match Get(varData, JStr("data_sources"), EmptyObject())
    case Err(k) => Err(k)
    case Ok(sources) =>
      match Contains(sources, JStr(dataSource))
      case Err(k) => Err(k)
      case Ok(false) => Ok([])
      case Ok(true) =>
        match Index(varData, "data_sources")
        case Err(k) => Err(k)
        case Ok(ds) =>
          match Index(ds, dataSource)
          case Err(k) => Err(k)
          case Ok(src) =>
            match Get(src, JStr("variables"), EmptyObject())
            case Err(k) => Err(k)
            case Ok(vars) =>
              match Items(vars)
              case Err(k) => Err(k)
              case Ok(vs) => VariablesEntries(vs, detailed)
  }

  /** `query_json(data, variable, option, data_source)`. */
  function Query(data: Json, variable: string, option: string, dataSource: string): (r: Result<seq<Entry>>)
    ensures data.JObj? && Lookup(data.members, variable).None? ==> r == Ok([])
  {
    match Contains(data, JStr(variable))
    case Err(k) => Err(k)
    case Ok(false) => Ok([])
    case Ok(true) =>
      match Index(data, variable)
      case Err(k) => Err(k)
      case Ok(varData) =>
        match Get(varData, JStr("options"), EmptyObject())
        case Err(k) => Err(k)
        case Ok(options) =>
          match Contains(options, JStr(option))
          case Err(k) => Err(k)
          case Ok(false) => Ok([])
          case Ok(true) =>
            match Index(options, option)
            case Err(k) => Err(k)
            case Ok(opt) =>
              match Get(opt, JStr("detailed"), EmptyObject())
              case Err(k) => Err(k)
              case Ok(detailed) => SourceEntries(varData, dataSource, detailed)
  }

  /** A variable without an `options` member, or without the requested
      option, gives no entries. */
  lemma MissingOptionGivesNothing(data: Json, variable: string, option: string, dataSource: string, varData: Json)
    requires data.JObj? && Lookup(data.members, variable) == Some(varData) && varData.JObj?
    requires Lookup(varData.members, "options").None?
             || (Lookup(varData.members, "options").value.JObj?
                 && Lookup(Lookup(varData.members, "options").value.members, option).None?)
    ensures Query(data, variable, option, dataSource) == Ok([])
  {
  }

  /** A data source without `variables`, or variables without `mappings`,
      give no entries. */
  lemma MissingVariablesGiveNothing(variables: seq<(string, Json)>, detailed: Json)
    requires forall i :: 0 <= i < |variables| ==>
               variables[i].1.JObj? && Lookup(variables[i].1.members, "mappings").None?
    ensures VariablesEntries(variables, detailed) == Ok([])
  {
    if variables != [] {
      MissingVariablesGiveNothing(variables[1..], detailed);
      assert VariableEntries(variables[0].1, detailed) == Ok([]);
      var none: seq<Entry> := []; assert none + none == none;
    }
  }

  /** An option without a `detailed` list labels nothing, so no mapping
      yields an entry. */
  lemma NoDetailedGivesNothing(mappings: seq<(string, Json)>)
    requires forall i :: 0 <= i < |mappings| ==> mappings[i].1.JObj? && HashableTarget(mappings[i].1)
    ensures MappingEntries(mappings, EmptyObject()) == Ok([])
  {
    if mappings != [] {
      NoDetailedGivesNothing(mappings[1..]);
      var m := mappings[0].1;
      assert Get(m, JStr("map_to"), JNull).Ok? && Hashable(Get(m, JStr("map_to"), JNull).value);
      assert MappingEntry(mappings[0].0, m, EmptyObject()) == Ok(None);
      var none: seq<Entry> := []; assert none + none == none;
    }
  }

  /** The mapping's `map_to`, when present, can be looked up in a dict. */
  predicate HashableTarget(mapping: Json)
    requires mapping.JObj?
  {
    Lookup(mapping.members, "map_to").None? || Hashable(Lookup(mapping.members, "map_to").value)
  }

  /** `Then` regroups: appending in two steps is appending once. */
  lemma ThenThen(acc: seq<Entry>, es: seq<Entry>, r: Result<seq<Entry>>)
    ensures Then(acc, Then(es, r)) == Then(acc + es, r)
  {
    if r.Ok? {
      assert acc + (es + r.value) == (acc + es) + r.value;
    }
  }

  /** One turn of the loop over one variable's mappings: an error ends it,
      otherwise the entry, if any, comes before the later ones. */
  lemma MappingEntriesAt(ms: seq<(string, Json)>, j: nat, detailed: Json)
    requires j < |ms|
    ensures var entry := MappingEntry(ms[j].0, ms[j].1, detailed);
      && (entry.Err? ==> MappingEntries(ms[j..], detailed) == Err(entry.error))
      && (entry.Ok? ==>
            MappingEntries(ms[j..], detailed)
            == Then(if entry.value.Some? then [entry.value.value] else [], MappingEntries(ms[j + 1..], detailed)))
  {
    assert ms[j..][0] == ms[j] && ms[j..][1..] == ms[j + 1..];
  }

  /** One turn of the loop over the variables: an error ends the query
      with that error; otherwise the entries so far are extended by the
      variable's entries. */
  lemma CollectStep(variables: seq<(string, Json)>, detailed: Json, i: nat, result: seq<Entry>, r: Result<seq<Entry>>)
    requires i < |variables|
    requires VariablesEntries(variables, detailed) == Then(result, VariablesEntries(variables[i..], detailed))
    requires r == Then(result, VariableEntries(variables[i].1, detailed))
    requires r.Ok? ==> |result| <= |r.value| && r.value[..|result|] == result
    ensures r.Err? ==> VariablesEntries(variables, detailed) == r
    ensures r.Ok? ==> VariablesEntries(variables, detailed) == Then(r.value, VariablesEntries(variables[i + 1..], detailed))
  {
    assert variables[i..][1..] == variables[i + 1..];
    if r.Ok? {
      ThenThen(result, r.value[|result|..], VariablesEntries(variables[i + 1..], detailed));
      assert result + r.value[|result|..] == r.value;
    }
  }

  /** The nested loops of `query_json`, appending to the result list. */
  method QueryJson(data: Json, variable: string, option: string, dataSource: string) returns (r: Result<seq<Entry>>)
    ensures r == Query(data, variable, option, dataSource)
  {
    var hasVariable := Contains(data, JStr(variable));
    if hasVariable.Err? { return Err(hasVariable.error); }
    if !hasVariable.value { return Ok([]); }
    var varData := Index(data, variable);
    if varData.Err? { return Err(varData.error); }
    var options := Get(varData.value, JStr("options"), EmptyObject());
    if options.Err? { return Err(options.error); }
    var hasOption := Contains(options.value, JStr(option));
    if hasOption.Err? { return Err(hasOption.error); }
    if !hasOption.value { return Ok([]); }
    var opt := Index(options.value, option);
    if opt.Err? { return Err(opt.error); }
    var detailed := Get(opt.value, JStr("detailed"), EmptyObject());
    if detailed.Err? { return Err(detailed.error); }
    r := CollectSource(varData.value, dataSource, detailed.value);
  }

  /** The part of `query_json` after the option's `detailed` list was found. */
  method CollectSource(varData: Json, dataSource: string, detailed: Json) returns (r: Result<seq<Entry>>)
    ensures r == SourceEntries(varData, dataSource, detailed)
  {
    var sources := Get(varData, JStr("data_sources"), EmptyObject());
    if sources.Err? { return Err(sources.error); }
    var hasSource := Contains(sources.value, JStr(dataSource));
    if hasSource.Err? { return Err(hasSource.error); }
    if !hasSource.value { return Ok([]); }
    var ds := Index(varData, "data_sources");
    if ds.Err? { return Err(ds.error); }
    var src := Index(ds.value, dataSource);
    if src.Err? { return Err(src.error); }
    var vars := Get(src.value, JStr("variables"), EmptyObject());
    if vars.Err? { return Err(vars.error); }
    var items := Items(vars.value);
    if items.Err? { return Err(items.error); }
    r := CollectVariables(items.value, detailed);
  }

  /** The loop over a data source's variables, appending to the result list. */
  method CollectVariables(variables: seq<(string, Json)>, detailed: Json) returns (r: Result<seq<Entry>>)
    ensures r == VariablesEntries(variables, detailed)
  {
    var result: seq<Entry> := [];
    assert variables[0..] == variables;
    assert VariablesEntries(variables, detailed).Ok? ==>
           [] + VariablesEntries(variables, detailed).value == VariablesEntries(variables, detailed).value;
    var i := 0;
    while i < |variables|
      invariant 0 <= i <= |variables|
      invariant VariablesEntries(variables, detailed) == Then(result, VariablesEntries(variables[i..], detailed))
    {
      r := AppendVariable(result, variables[i].1, detailed);
      CollectStep(variables, detailed, i, result, r);
      if r.Err? {
        return r;
      }
      result := r.value;
      i := i + 1;
    }
    assert variables[i..] == [];
    assert result + [] == result;
    return Ok(result);
  }

  /** The inner loop for one variable: `result` extended with its entries. */
  method AppendVariable(result: seq<Entry>, varData: Json, detailed: Json) returns (r: Result<seq<Entry>>)
    ensures r == Then(result, VariableEntries(varData, detailed))
    ensures r.Ok? ==> |result| <= |r.value| && r.value[..|result|] == result
  {
    var mappings := Get(varData, JStr("mappings"), EmptyObject());
    if mappings.Err? { return Err(mappings.error); }
    var items := Items(mappings.value);
    if items.Err? { return Err(items.error); }
    r := AppendMappings(result, items.value, detailed);
  }

  /** The loop over one variable's mappings, in order: `result` extended
      with the entry of each mapping that has one. */
  /** Appending keeps a prefix. */
  lemma PrefixKept(pre: seq<Entry>, acc: seq<Entry>, added: seq<Entry>)
    requires |pre| <= |acc| && acc[..|pre|] == pre
    ensures |pre| <= |acc + added| && (acc + added)[..|pre|] == pre
  {
    assert (acc + added)[..|pre|] == acc[..|pre|];
  }

  method AppendMappings(result: seq<Entry>, ms: seq<(string, Json)>, detailed: Json) returns (r: Result<seq<Entry>>)
    ensures r == Then(result, MappingEntries(ms, detailed))
    ensures r.Ok? ==> |result| <= |r.value| && r.value[..|result|] == result
  {
    ghost var outcomes := Outcomes(ms, detailed);
    MappingEntriesGather(ms, detailed);
    assert outcomes[0..] == outcomes;
    var acc := result;
    var j := 0;
    while j < |ms|
      invariant 0 <= j <= |ms|
      invariant Then(result, Gather(outcomes)) == Then(acc, Gather(outcomes[j..]))
      invariant |result| <= |acc| && acc[..|result|] == result
    {
      var entry := MappingEntry(ms[j].0, ms[j].1, detailed);
      assert entry == outcomes[j];
      GatherStep(acc, outcomes, j);
      if entry.Err? {
        return Err(entry.error);
      }
      var added := if entry.value.Some? then [entry.value.value] else [];
      PrefixKept(result, acc, added);
      acc := acc + added;
      j := j + 1;
    }
    assert outcomes[j..] == [];
    assert acc + [] == acc;
    return Ok(acc);
  }
}
