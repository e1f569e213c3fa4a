/** `DataInfo` of src/socio4health/dto/data_info.py: six fields that the
    constructor stores as given and that validating setters overwrite only
    when the new value passes their checks. The country and source-type
    checks accept the member names of `CountryEnum` and `DataSourceTypeEnum`
    (src/socio4health/enums/data_info_enum.py). */
module DataInfoModel {
  import opened Wrappers
  import opened Text

  /** A Python value as the setters see it. `bool` is a subclass of `int` in
      Python, so `PyBool` passes an `isinstance(_, int)` test. */
  datatype PyValue = PyNone | PyStr(s: string) | PyInt(i: int) | PyBool(b: bool) | PyOther

  /** `isinstance(v, str)` or `v is None`. */
  predicate StrOrNone(v: PyValue)
  {
    v.PyNone? || v.PyStr?
  }

  /** The member names of `CountryEnum`. */
  function CountryNames(): seq<string>
  {
    ["COLOMBIA", "PERU", "BRAZIL", "DOMINICAN_REPUBLIC"]
  }

  /** The member names of `DataSourceTypeEnum`. */
  function SourceTypeNames(): seq<string>
  {
    ["CENSUS", "SURVEY"]
  }

  /** The checks of the `file_path` and `url` setters: a string or None,
      and not a non-empty string of whitespace only. */
  function TextCheck(v: PyValue): (err: Option<ErrorKind>)
    ensures err.None? <==> v.PyNone? || (v.PyStr? && !IsBlank(v.s))
    ensures err == Some(TypeError) <==> !StrOrNone(v)
    ensures err.Some? ==> err.value in {TypeError, ValueError}
  {
    if !StrOrNone(v) then Some(TypeError)
    else if v.PyStr? && IsBlank(v.s) then Some(ValueError)
    else None
  }

  /** The empty string is accepted: only blank text is refused. */
  lemma EmptyTextAccepted()
    ensures TextCheck(PyStr("")).None?
  {
  }

  /** The checks of the `country` and `data_source_type` setters: a string or
      None, not blank, and one of the member names (so None is refused too). */
  function NameCheck(v: PyValue, names: seq<string>): (err: Option<ErrorKind>)
    requires forall i :: 0 <= i < |names| ==> !IsBlank(names[i])
    ensures err.None? <==> v.PyStr? && v.s in names
    ensures err == Some(TypeError) <==> !StrOrNone(v)
    ensures err.Some? ==> err.value in {TypeError, ValueError}
  {
    if !StrOrNone(v) then Some(TypeError)
    else if v.PyStr? && IsBlank(v.s) then Some(ValueError)
    else if !(v.PyStr? && v.s in names) then Some(ValueError)
    else None
  }

  /** The check of the `country` setter. */
  function CountryCheck(v: PyValue): (err: Option<ErrorKind>)
    ensures err.None? <==> v in {PyStr("COLOMBIA"), PyStr("PERU"), PyStr("BRAZIL"), PyStr("DOMINICAN_REPUBLIC")}
    ensures err == Some(TypeError) <==> !StrOrNone(v)
  {
    assert forall i :: 0 <= i < |CountryNames()| ==> !IsBlank(CountryNames()[i]) by {
      forall i | 0 <= i < |CountryNames()| ensures !IsBlank(CountryNames()[i]) {
        assert !IsSpace(CountryNames()[i][0]);
      }
    }
    NameCheck(v, CountryNames())
  }

  /** A country code such as 'COL' is not a member name and is refused. */
  lemma CountryCodeRefused()
    ensures CountryCheck(PyStr("COL")) == Some(ValueError)
    ensures CountryCheck(PyNone) == Some(ValueError)
  {
    assert PyStr("COL") !in {PyStr("COLOMBIA"), PyStr("PERU"), PyStr("BRAZIL"), PyStr("DOMINICAN_REPUBLIC")};
  }

  /** The check of the `data_source_type` setter. */
  function SourceTypeCheck(v: PyValue): (err: Option<ErrorKind>)
    ensures err.None? <==> v in {PyStr("CENSUS"), PyStr("SURVEY")}
    ensures err == Some(TypeError) <==> !StrOrNone(v)
  {
    assert forall i :: 0 <= i < |SourceTypeNames()| ==> !IsBlank(SourceTypeNames()[i]) by {
      forall i | 0 <= i < |SourceTypeNames()| ensures !IsBlank(SourceTypeNames()[i]) {
        assert !IsSpace(SourceTypeNames()[i][0]);
      }
    }
    NameCheck(v, SourceTypeNames())
  }

  /** The check of the `year` setter: an int (a bool included) or None, and
      not negative; `year and year < 0` lets zero through. */
  function YearCheck(v: PyValue): (err: Option<ErrorKind>)
    ensures err.None? <==> v.PyNone? || v.PyBool? || (v.PyInt? && v.i >= 0)
    ensures err == Some(TypeError) <==> !(v.PyNone? || v.PyInt? || v.PyBool?)
    ensures err == Some(ValueError) <==> v.PyInt? && v.i < 0
  {
    if !(v.PyNone? || v.PyInt? || v.PyBool?) then Some(TypeError)
    else if v.PyInt? && v.i != 0 && v.i < 0 then Some(ValueError)
    else None
  }

  /** The check of the `is_aggregated` setter: a bool or None. */
  function FlagCheck(v: PyValue): (err: Option<ErrorKind>)
    ensures err.None? <==> v.PyNone? || v.PyBool?
    ensures err.Some? ==> err == Some(TypeError)
  {
    if !(v.PyNone? || v.PyBool?) then Some(TypeError) else None
  }

  class DataInfo {
    var filePath: PyValue
    var url: PyValue
    var country: PyValue
    var year: PyValue
    var dataSourceType: PyValue
    var isAggregated: PyValue

    /** `DataInfo(...)`: every argument is stored as given, unchecked. */
    constructor(filePath: PyValue, url: PyValue, country: PyValue, year: PyValue,
                dataSourceType: PyValue, isAggregated: PyValue)
      ensures this.filePath == filePath && this.url == url && this.country == country
      ensures this.year == year && this.dataSourceType == dataSourceType && this.isAggregated == isAggregated
    {
      this.filePath := filePath;
      this.url := url;
      this.country := country;
      this.year := year;
      this.dataSourceType := dataSourceType;
      this.isAggregated := isAggregated;
    }

    /** `DataInfo()`: the default arguments. */
    constructor Defaults()
      ensures filePath == PyNone && url == PyNone && country == PyNone
      ensures year == PyNone && dataSourceType == PyNone && isAggregated == PyBool(false)
    {
      filePath := PyNone;
      url := PyNone;
      country := PyNone;
      year := PyNone;
      dataSourceType := PyNone;
      isAggregated := PyBool(false);
    }

    /** The `file_path` setter: stored only when the checks pass. */
    method SetFilePath(v: PyValue) returns (err: Option<ErrorKind>)
      modifies this
      ensures err == TextCheck(v)
      ensures filePath == (if err.None? then v else old(filePath))
      ensures url == old(url) && country == old(country) && year == old(year)
      ensures dataSourceType == old(dataSourceType) && isAggregated == old(isAggregated)
    {
      err := TextCheck(v);
      if err.None? {
        filePath := v;
      }
    }

    /** The `url` setter. */
    method SetUrl(v: PyValue) returns (err: Option<ErrorKind>)
      modifies this
      ensures err == TextCheck(v)
      ensures url == (if err.None? then v else old(url))
      ensures filePath == old(filePath) && country == old(country) && year == old(year)
      ensures dataSourceType == old(dataSourceType) && isAggregated == old(isAggregated)
    {
      err := TextCheck(v);
      if err.None? {
        url := v;
      }
    }

    /** The `country` setter. */
    method SetCountry(v: PyValue) returns (err: Option<ErrorKind>)
      modifies this
      ensures err == CountryCheck(v)
      ensures country == (if err.None? then v else old(country))
      ensures filePath == old(filePath) && url == old(url) && year == old(year)
      ensures dataSourceType == old(dataSourceType) && isAggregated == old(isAggregated)
    {
      err := CountryCheck(v);
      if err.None? {
        country := v;
      }
    }

    /** The `year` setter. */
    method SetYear(v: PyValue) returns (err: Option<ErrorKind>)
      modifies this
      ensures err == YearCheck(v)
      ensures year == (if err.None? then v else old(year))
      ensures filePath == old(filePath) && url == old(url) && country == old(country)
      ensures dataSourceType == old(dataSourceType) && isAggregated == old(isAggregated)
    {
      err := YearCheck(v);
      if err.None? {
        year := v;
      }
    }

    /** The `data_source_type` setter. */
    method SetDataSourceType(v: PyValue) returns (err: Option<ErrorKind>)
      modifies this
      ensures err == SourceTypeCheck(v)
      ensures dataSourceType == (if err.None? then v else old(dataSourceType))
      ensures filePath == old(filePath) && url == old(url) && country == old(country)
      ensures year == old(year) && isAggregated == old(isAggregated)
    {
      err := SourceTypeCheck(v);
      if err.None? {
        dataSourceType := v;
      }
    }

    /** The `is_aggregated` setter. */
    method SetIsAggregated(v: PyValue) returns (err: Option<ErrorKind>)
      modifies this
      ensures err == FlagCheck(v)
      ensures isAggregated == (if err.None? then v else old(isAggregated))
      ensures filePath == old(filePath) && url == old(url) && country == old(country)
      ensures year == old(year) && dataSourceType == old(dataSourceType)
    {
      err := FlagCheck(v);
      if err.None? {
        isAggregated := v;
      }
    }
  }
}
