/** `get_general_option` of src/socio4health/onto/config.py, on an already
    loaded option mapping: a local variable's option is translated to a
    detailed code, and the first general option whose `detailed` collection
    holds that code is returned with its label. */
module OntoConfig {
  import opened Wrappers
  import opened Text
  import opened JsonValues

  /** The `local_option` argument: an integer code or a text code. */
  datatype OptionKey = IntKey(i: int) | StrKey(s: string)

  /** `str(local_option)`: the decimal digits of an integer (with a leading
      '-' when negative), a string as it is. */
  function KeyText(key: OptionKey): (r: string)
    ensures key.StrKey? ==> r == key.s
    ensures key.IntKey? && key.i >= 0 ==>
              (forall k :: 0 <= k < |r| ==> IsDecimalDigit(r[k])) && DigitsValue(r) == key.i
    ensures key.IntKey? && key.i < 0 ==>
              r != [] && r[0] == '-' &&
              var digits := r[1..];
              (forall k :: 0 <= k < |digits| ==> IsDecimalDigit(digits[k])) && DigitsValue(digits) == -key.i
  {
    match key
    case StrKey(s) => s
    case IntKey(i) =>
      if i >= 0 then
        DecimalRoundTrip(i);
        IntToDecimal(i)
      else
        DecimalRoundTrip(-i);
        assert ("-" + NatToDecimal(-i))[1..] == NatToDecimal(-i);
        IntToDecimal(i)
  }

  /** The answer when nothing matches: `(None, "No match found")`. */
  function NoMatch(): (Json, Json)
  {
    (JNull, JStr("No match found"))
  }

  /** `detailed_option in data["detailed"]` holds for the general option `data`. */
  predicate Holds(data: Json, detailedOption: Json)
  {
    Index(data, "detailed").Ok? && Contains(Index(data, "detailed").value, detailedOption) == Ok(true)
  }

  /** `detailed_option in data["detailed"]` is evaluated and is false. */
  predicate Misses(data: Json, detailedOption: Json)
  {
    Index(data, "detailed").Ok? && Contains(Index(data, "detailed").value, detailedOption) == Ok(false)
  }

  /** The search loop over the general options, in order: the first one that
      holds the detailed code, with its `label`. */
  function FirstContaining(options: seq<(string, Json)>, detailedOption: Json): (r: Result<(Json, Json)>)
    ensures r.Ok? && r.value != NoMatch() ==> r.value.0.JStr? && exists k :: 0 <= k < |options| && options[k].0 == r.value.0.s
  {
    if options == [] then Ok(NoMatch())
    else
      var data := options[0].1;
      match Index(data, "detailed")
      case Err(k) => Err(k)
      case Ok(detailed) =>
        match Contains(detailed, detailedOption)
        case Err(k) => Err(k)
        case Ok(true) =>
          (match Index(data, "label")
           case Err(k) => Err(k)
           case Ok(optionLabel) => Ok((JStr(options[0].0), optionLabel)))
        case Ok(false) =>
          var r := FirstContaining(options[1..], detailedOption);
          assert r.Ok? && r.value != NoMatch() ==> exists k :: 0 <= k < |options| && options[k].0 == r.value.0.s by {
            if r.Ok? && r.value != NoMatch() {
              var k :| 0 <= k < |options[1..]| && options[1..][k].0 == r.value.0.s;
              assert options[k + 1] == options[1..][k];
            }
          }
          r
  }

  /** One turn of the search loop: a holding option ends it with its label,
      a missing one passes to the next option, anything else raises. */
  lemma FirstContainingStep(options: seq<(string, Json)>, detailedOption: Json)
    requires options != []
    ensures Holds(options[0].1, detailedOption) ==>
      FirstContaining(options, detailedOption)
      == (match Index(options[0].1, "label")
          case Err(e) => Err(e)
          case Ok(optionLabel) => Ok((JStr(options[0].0), optionLabel)))
    ensures Misses(options[0].1, detailedOption) ==>
      FirstContaining(options, detailedOption) == FirstContaining(options[1..], detailedOption)
    ensures !Holds(options[0].1, detailedOption) && !Misses(options[0].1, detailedOption) ==>
      FirstContaining(options, detailedOption).Err?
  {
  }

  /** A first option that holds the code ends the search with its label. */
  lemma FirstContainingHolds(options: seq<(string, Json)>, detailedOption: Json)
    requires options != [] && Holds(options[0].1, detailedOption) && Index(options[0].1, "label").Ok?
    ensures FirstContaining(options, detailedOption) == Ok((JStr(options[0].0), Index(options[0].1, "label").value))
  {
    FirstContainingStep(options, detailedOption);
  }

  /** A first option that misses the code passes the search to the rest. */
  lemma FirstContainingMisses(options: seq<(string, Json)>, detailedOption: Json)
    requires options != [] && Misses(options[0].1, detailedOption)
    ensures FirstContaining(options, detailedOption) == FirstContaining(options[1..], detailedOption)
  {
    FirstContainingStep(options, detailedOption);
  }

  /** A general option is returned only if it holds the detailed code and
      every option before it was looked at and does not. */
  lemma {:induction false} FoundIsFirstHolding(options: seq<(string, Json)>, detailedOption: Json) returns (k: nat)
    requires FirstContaining(options, detailedOption).Ok? && FirstContaining(options, detailedOption).value != NoMatch()
    ensures k < |options| && Holds(options[k].1, detailedOption) && Index(options[k].1, "label").Ok?
    ensures FirstContaining(options, detailedOption).value == (JStr(options[k].0), Index(options[k].1, "label").value)
    ensures forall j :: 0 <= j < k ==> Misses(options[j].1, detailedOption)
  {
    k := MissingPrefix(options, detailedOption);
    SkipMisses(options, detailedOption, k);
    assert k < |options|;
    FirstContainingStep(options[k..], detailedOption);
    assert options[k..][0] == options[k];
  }

  /** `(None, "No match found")` comes back exactly when no general option
      holds the detailed code. */
  lemma {:induction false} NoMatchIffNoneHolds(options: seq<(string, Json)>, detailedOption: Json)
    ensures FirstContaining(options, detailedOption) == Ok(NoMatch())
            <==> forall j :: 0 <= j < |options| ==> Misses(options[j].1, detailedOption)
  {
    if options != [] && Misses(options[0].1, detailedOption) {
      NoMatchIffNoneHolds(options[1..], detailedOption);
      if forall j :: 0 <= j < |options[1..]| ==> Misses(options[1..][j].1, detailedOption) {
        forall j | 0 <= j < |options| ensures Misses(options[j].1, detailedOption) {
          if j > 0 {
            assert options[j] == options[1..][j - 1];
          }
        }
      } else {
        var j :| 0 <= j < |options[1..]| && !Misses(options[1..][j].1, detailedOption);
        assert options[1..][j] == options[j + 1];
      }
    }
  }

  /** Where the mapping holds every object the lookup walks through (the
      variable's entry, its `mapping_to_detailed` with an entry for the
      option's text, and the `option` object), the general options in dict
      order paired with the detailed code the option maps to. */
  function ResolvedSearch(localVarName: string, localOption: OptionKey, mapping: Json): Option<(seq<(string, Json)>, Json)>
  {
    if !mapping.JObj? then None
    else match Lookup(mapping.members, "school_education")
      case Some(JObj(se)) =>
        (match (Lookup(se, localVarName), Lookup(se, "option"))
         case (Some(JObj(varData)), Some(JObj(general))) =>
           (match Lookup(varData, "mapping_to_detailed")
            case Some(JObj(toDetailed)) =>
              (match Lookup(toDetailed, KeyText(localOption))
               case Some(detailedOption) => Some((DictItems(general), detailedOption))
               case None => None)
            case _ => None)
         case _ => None)
      case _ => None
  }

  /** `get_general_option(local_var_name, local_option, option_mapping)`. */
  function GeneralOption(localVarName: string, localOption: OptionKey, mapping: Json): (r: Result<(Json, Json)>)
    ensures ResolvedSearch(localVarName, localOption, mapping).Some? ==>
              r == FirstContaining(ResolvedSearch(localVarName, localOption, mapping).value.0,
                                   ResolvedSearch(localVarName, localOption, mapping).value.1)
  {
    match Index(mapping, "school_education")
    case Err(k) => Err(k)
    case Ok(se) =>
      match Contains(se, JStr(localVarName))
      case Err(k) => Err(k)
      case Ok(false) => Ok(NoMatch())
      case Ok(true) =>
        match Index(se, localVarName)
        case Err(k) => Err(k)
        case Ok(localVarData) =>
          match Index(localVarData, "mapping_to_detailed")
          case Err(k) => Err(k)
          case Ok(toDetailed) =>
            match Contains(toDetailed, JStr(KeyText(localOption)))
            case Err(k) => Err(k)
            case Ok(false) => Ok(NoMatch())
            case Ok(true) =>
              match Index(toDetailed, KeyText(localOption))
              case Err(k) => Err(k)
              case Ok(detailedOption) =>
                match Index(se, "option")
                case Err(k) => Err(k)
                case Ok(generalOptions) =>
                  match Items(generalOptions)
                  case Err(k) => Err(k)
                  case Ok(options) => FirstContaining(options, detailedOption)
  }

  /** A variable name the mapping does not know gives `(None, "No match found")`. */
  lemma UnknownVariableNoMatch(localVarName: string, localOption: OptionKey, mapping: Json)
    requires mapping.JObj? && Lookup(mapping.members, "school_education").Some?
    requires Lookup(mapping.members, "school_education").value.JObj?
    requires Lookup(Lookup(mapping.members, "school_education").value.members, localVarName).None?
    ensures GeneralOption(localVarName, localOption, mapping) == Ok(NoMatch())
  {
  }

  /** An option code with no entry in the variable's `mapping_to_detailed`
      gives `(None, "No match found")`; the code is looked up by its text,
      so the integer 3 and the string "3" are the same code. */
  lemma UnknownOptionNoMatch(localVarName: string, localOption: OptionKey, mapping: Json, localVarData: Json)
    requires mapping.JObj? && Lookup(mapping.members, "school_education").Some?
    requires Lookup(mapping.members, "school_education").value.JObj?
    requires Lookup(Lookup(mapping.members, "school_education").value.members, localVarName) == Some(localVarData)
    requires localVarData.JObj? && Lookup(localVarData.members, "mapping_to_detailed").Some?
    requires Lookup(localVarData.members, "mapping_to_detailed").value.JObj?
    requires Lookup(Lookup(localVarData.members, "mapping_to_detailed").value.members, KeyText(localOption)).None?
    ensures GeneralOption(localVarName, localOption, mapping) == Ok(NoMatch())
  {
  }

  /** An integer option and its decimal text select the same general option. */
  lemma IntegerOptionIsItsText(localVarName: string, i: nat, mapping: Json)
    ensures GeneralOption(localVarName, IntKey(i), mapping) == GeneralOption(localVarName, StrKey(NatToDecimal(i)), mapping)
  {
  }

  /** When the variable and its option are known, the answer is the first
      general option, in document order, that holds the detailed code. */
  lemma {:induction false} FirstHoldingOptionWins(options: seq<(string, Json)>, detailedOption: Json, k: int)
    requires 0 <= k < |options| && Holds(options[k].1, detailedOption)
    requires Index(options[k].1, "label").Ok?
    requires forall j :: 0 <= j < k ==> Misses(options[j].1, detailedOption)
    ensures FirstContaining(options, detailedOption) == Ok((JStr(options[k].0), Index(options[k].1, "label").value))
  {
    SkipMisses(options, detailedOption, k);
    assert options[k..][0] == options[k];
    FirstContainingHolds(options[k..], detailedOption);
  }

  /** The length of the longest run of options, from the start, that miss
      the code. */
  lemma MissingPrefix(options: seq<(string, Json)>, detailedOption: Json) returns (k: nat)
    ensures k <= |options|
    ensures forall j :: 0 <= j < k ==> Misses(options[j].1, detailedOption)
    ensures k < |options| ==> !Misses(options[k].1, detailedOption)
  {
    var misses := seq(|options|, j requires 0 <= j < |options| => Misses(options[j].1, detailedOption));
    k := LeadingTrue(misses);
    forall j | 0 <= j < k ensures Misses(options[j].1, detailedOption) {
      assert misses[j];
    }
    if k < |options| {
      assert !misses[k];
    }
  }

  /** The length of the longest run of `true` at the start of `flags`. */
  lemma LeadingTrue(flags: seq<bool>) returns (k: nat)
    ensures k <= |flags|
    ensures forall j :: 0 <= j < k ==> flags[j]
    ensures k < |flags| ==> !flags[k]
  {
    k := 0;
    while k < |flags| && flags[k]
      invariant k <= |flags|
      invariant forall j :: 0 <= j < k ==> flags[j]
      decreases |flags| - k
    {
      k := k + 1;
    }
  }

  /** Options that miss the code are passed over: the search from the start
      answers as the search from the first option not yet known to miss. */
  lemma {:induction false} SkipMisses(options: seq<(string, Json)>, detailedOption: Json, k: int)
    requires 0 <= k <= |options|
    requires forall j :: 0 <= j < k ==> Misses(options[j].1, detailedOption)
    ensures FirstContaining(options, detailedOption) == FirstContaining(options[k..], detailedOption)
  {
    if k > 0 {
      SkipMisses(options, detailedOption, k - 1);
      var tail := options[k - 1..];
      assert tail[0] == options[k - 1];
      assert tail[1..] == options[k..];
      FirstContainingMisses(tail, detailedOption);
    }
  }
}
