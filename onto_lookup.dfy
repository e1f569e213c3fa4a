/** `get_harmonized_code` of src/socio4health/onto/test.py, on an already
    loaded table: the rows whose survey column reads "<code>=...", and the
    `harmonize_var` value of the first of them. */
module OntoLookup {
  import opened Wrappers
  import opened Text
  import opened Tables

  /** Row `k` survives `dropna(subset=[survey])` and its survey text, after
      `astype(str)`, starts with "<code>=". */
  predicate Matches(t: Table, survey: Column, code: string, k: int)
    requires Valid(t) && survey in ColSet(t) && 0 <= k < |t.rows|
  {
    t.rows[k][survey].Some? && StartsWith(CellText(t.rows[k][survey]), code + "=")
  }

  /** The first matching row at or after `from`, top to bottom. */
  function FirstMatch(t: Table, survey: Column, code: string, from: nat): (r: Option<nat>)
    requires Valid(t) && survey in ColSet(t)
    decreases |t.rows| - from
    ensures r.Some? ==> from <= r.value < |t.rows| && Matches(t, survey, code, r.value)
    ensures r.Some? ==> forall j :: from <= j < r.value ==> !Matches(t, survey, code, j)
    ensures r.None? ==> forall j :: from <= j < |t.rows| ==> !Matches(t, survey, code, j)
  {
    if from >= |t.rows| then None
    else if Matches(t, survey, code, from) then Some(from)
    else FirstMatch(t, survey, code, from + 1)
  }

  /** `get_harmonized_code(csv_file, harmonize_var, survey, code)` once the
      CSV file is read into `t`: `Ok(None)` is Python's `None`, `Ok(Some(c))`
      the cell `c` (a missing cell included) of the first matching row. */
  function HarmonizedCode(t: Table, harmonizeVar: Column, survey: Column, code: string): (r: Result<Option<Cell>>)
    requires Valid(t)
    ensures survey !in ColSet(t) ==> r == Err(ValueError)
    ensures r == Ok(None) <==>
              survey in ColSet(t) && forall j :: 0 <= j < |t.rows| ==> !Matches(t, survey, code, j)
    ensures r.Ok? && r.value.Some? ==>
              survey in ColSet(t) && harmonizeVar in ColSet(t) &&
              exists k :: 0 <= k < |t.rows| && Matches(t, survey, code, k) && r.value.value == t.rows[k][harmonizeVar]
                          && forall j :: 0 <= j < k ==> !Matches(t, survey, code, j)
    ensures r.Err? ==>
              r.error == ValueError &&
              (survey !in ColSet(t) ||
               (harmonizeVar !in ColSet(t) && exists k :: 0 <= k < |t.rows| && Matches(t, survey, code, k)))
  {
    if survey !in ColSet(t) then Err(ValueError)
    else
      match FirstMatch(t, survey, code, 0)
      case None => Ok(None)
      case Some(k) =>
        if harmonizeVar in ColSet(t) then Ok(Some(t.rows[k][harmonizeVar]))
        else Err(ValueError)
  }

  /** An unknown `harmonize_var` is reported only when some row matches;
      without a match the answer is `None` whatever it names. */
  lemma UnknownVariableNeedsMatch(t: Table, harmonizeVar: Column, survey: Column, code: string)
    requires Valid(t) && survey in ColSet(t) && harmonizeVar !in ColSet(t)
    ensures HarmonizedCode(t, harmonizeVar, survey, code).Err? <==>
              exists k :: 0 <= k < |t.rows| && Matches(t, survey, code, k)
  {
    if exists k :: 0 <= k < |t.rows| && Matches(t, survey, code, k) {
      assert HarmonizedCode(t, harmonizeVar, survey, code) != Ok(None);
    }
  }

  /** A numeric survey cell never matches: `str` of an integer, with or
      without a ".0" from a float column, holds no '='. */
  lemma {:induction false} NumericCellsNeverMatch(i: int, floatSuffix: bool, code: string)
    ensures !StartsWith(IntToDecimal(i) + (if floatSuffix then ".0" else ""), code + "=")
  {
    var text := IntToDecimal(i) + (if floatSuffix then ".0" else "");
    var digits := NatToDecimal(if i < 0 then -i else i);
    assert forall k :: 0 <= k < |text| ==> text[k] != '=' by {
      forall k | 0 <= k < |text| ensures text[k] != '=' {
        if i < 0 {
          assert text == "-" + digits + (if floatSuffix then ".0" else "");
          if 1 <= k < 1 + |digits| {
            assert text[k] == digits[k - 1];
            assert IsDecimalDigit(digits[k - 1]);
          }
        } else {
          assert text == digits + (if floatSuffix then ".0" else "");
          if k < |digits| {
            assert text[k] == digits[k];
            assert IsDecimalDigit(digits[k]);
          }
        }
      }
    }
    var prefix := code + "=";
    assert prefix[|code|] == '=';
    if |prefix| <= |text| {
      assert text[..|prefix|][|code|] == text[|code|];
    }
  }

  /** The code is matched as a whole: a row matches at most one code free
      of '=', because the '=' must follow the code (looking for "1" does
      not find a row reading "12=..."). */
  lemma CodeIsDelimited(t: Table, survey: Column, c1: string, c2: string, k: int)
    requires Valid(t) && survey in ColSet(t) && 0 <= k < |t.rows|
    requires Matches(t, survey, c1, k) && Matches(t, survey, c2, k)
    requires '=' !in c1 + c2
    ensures c1 == c2
  {
    assert '=' !in c1 && '=' !in c2 by {
      assert forall x :: x in c1 ==> x in c1 + c2;
      assert forall x :: x in c2 ==> x in c1 + c2;
    }
    OneCodeBeforeDelimiter(CellText(t.rows[k][survey]), c1, c2);
  }

  /** A text starts with at most one "<code>=" whose code holds no '='. */
  lemma OneCodeBeforeDelimiter(s: string, a: string, b: string)
    requires StartsWith(s, a + "=") && StartsWith(s, b + "=")
    requires '=' !in a && '=' !in b
    ensures a == b
  {
    assert s[|a|] == '=' by {
      assert s[..|a| + 1][|a|] == (a + "=")[|a|];
    }
    assert s[|b|] == '=' by {
      assert s[..|b| + 1][|b|] == (b + "=")[|b|];
    }
    assert |a| == |b|;
    assert a == s[..|a|] by {
      assert s[..|a|] == s[..|a| + 1][..|a|];
      assert (a + "=")[..|a|] == a;
    }
    assert b == s[..|b|] by {
      assert s[..|b|] == s[..|b| + 1][..|b|];
      assert (b + "=")[..|b|] == b;
    }
  }

  /** Looking for "1" does not find a row reading "12=urban", but finds one
      reading "1=urban". */
  lemma CodeIsDelimitedExample()
    ensures !StartsWith("12=urban", "1" + "=")
    ensures StartsWith("1=urban", "1" + "=")
  {
    assert "12=urban"[..2][1] != "1="[1];
    assert "1=urban"[..2] == "1=";
  }
}
