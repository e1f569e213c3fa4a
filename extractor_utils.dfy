/** The pure parts of src/socio4health/utils/extractor_utils.py: the column
    names and column specifications read from a SAS input script
    (`parse_pnadc_sas_script`), and the extension filter, naming rule and
    depth limit of `compressed2files`, whose archive contents are given as a
    tree instead of being extracted from disk. */
module ExtractorUtils {
  import opened Wrappers
  import opened Text
  import ExtractorModel

  // ---------------------------------------------------------------------
  // Regular expressions of the SAS script parser

  /** The character classes the two patterns use: `\d`, `\s`, `\w` and `[$.\d]`. */
  datatype CharClass = Digit | Space | Word | Format

  predicate InClass(c: char, k: CharClass)
  {
    match k
    case Digit => IsDecimalDigit(c)
    case Space => IsSpace(c)
    case Word => IsWordChar(c)
    case Format => c == '$' || c == '.' || IsDecimalDigit(c)
  }

  /** Where the longest run of `k` characters starting at `p` ends. */
  function RunEnd(s: string, p: nat, k: CharClass): (e: nat)
    requires p <= |s|
    ensures p <= e <= |s|
    ensures forall i :: p <= i < e ==> InClass(s[i], k)
    ensures e < |s| ==> !InClass(s[e], k)
    decreases |s| - p
  {
    if p < |s| && InClass(s[p], k) then RunEnd(s, p + 1, k) else p
  }

  /** A run reaches at least as far as any stretch of its class. */
  lemma {:induction false} RunEndCovers(s: string, p: nat, k: CharClass, e: nat)
    requires p <= e <= |s|
    requires forall i :: p <= i < e ==> InClass(s[i], k)
    ensures RunEnd(s, p, k) >= e
    decreases e - p
  {
    if p < e {
      RunEndCovers(s, p + 1, k, e);
    }
  }

  /** A match of `@(\d+)\s+\w+\s+[\$\.\d]+`: where it ends and the number after `@`. */
  datatype SpecMatch = SpecMatch(end: nat, position: nat)

  /** A match of `@\d+\s+(\w+)\s+`: where it ends and the captured name. */
  datatype NameMatch = NameMatch(end: nat, name: string)

  /** `s[a..b]` is a non-empty run of class `k`. */
  predicate Stretch(s: string, a: int, b: int, k: CharClass)
  {
    0 <= a < b <= |s| && forall i :: a <= i < b ==> InClass(s[i], k)
  }

  /** The classes that follow each other in the patterns share no character. */
  lemma Disjoint(c: char)
    ensures IsSpace(c) ==> !IsDecimalDigit(c) && !IsWordChar(c) && !InClass(c, Format)
  {
  }

  /** The regular expression `@\d+\s+\w+\s+[\$\.\d]+` matches `s[p..f]`,
      with the digits in `s[p+1..d]`, the name in `s[w0..w]` and the format
      from `f0`. */
  predicate SpecShape(s: string, p: int, d: int, w0: int, w: int, f0: int, f: int)
  {
    0 <= p < |s| && s[p] == '@'
    && Stretch(s, p + 1, d, Digit) && Stretch(s, d, w0, Space) && Stretch(s, w0, w, Word)
    && Stretch(s, w, f0, Space) && Stretch(s, f0, f, Format)
  }

  /** The regular expression `@\d+\s+\w+\s+` matches `s[p..e]`, with the name in `s[w0..w]`. */
  predicate NameShape(s: string, p: int, d: int, w0: int, w: int, e: int)
  {
    0 <= p < |s| && s[p] == '@'
    && Stretch(s, p + 1, d, Digit) && Stretch(s, d, w0, Space) && Stretch(s, w0, w, Word)
    && Stretch(s, w, e, Space)
  }

  /** The match the regular-expression engine finds at `p`, taking every run
      as long as it goes (the classes that follow each other are disjoint, so
      backtracking never finds another split). */
  function MatchSpec(s: string, p: nat): (r: Option<SpecMatch>)
    requires p <= |s|
    ensures r.Some? ==> p < r.value.end <= |s|
    ensures r.Some? ==> exists d, w0, w, f0 :: SpecShape(s, p, d, w0, w, f0, r.value.end)
                                              && r.value.position == DigitsValue(s[p + 1..d])
  {
    if p < |s| && s[p] == '@' then
      var d := RunEnd(s, p + 1, Digit);
      var w0 := RunEnd(s, d, Space);
      var w := RunEnd(s, w0, Word);
      var f0 := RunEnd(s, w, Space);
      var f := RunEnd(s, f0, Format);
      if d > p + 1 && w0 > d && w > w0 && f0 > w && f > f0 then
        assert SpecShape(s, p, d, w0, w, f0, f);
        Some(SpecMatch(f, DigitsValue(s[p + 1..d])))
      else None
    else None
  }

  /** Whenever the pattern matches at `p` in any way, `MatchSpec` finds that
      match, reading the same number. */
  lemma SpecMatchComplete(s: string, p: nat, d: nat, w0: nat, w: nat, f0: nat, f: nat)
    requires SpecShape(s, p, d, w0, w, f0, f)
    ensures MatchSpec(s, p).Some?
    ensures MatchSpec(s, p).value.end >= f
    ensures MatchSpec(s, p).value.position == DigitsValue(s[p + 1..d])
  {
    RunEndCovers(s, p + 1, Digit, d);
    assert InClass(s[d], Space);
    Disjoint(s[d]);
    assert RunEnd(s, p + 1, Digit) == d;
    RunEndCovers(s, d, Space, w0);
    assert InClass(s[w0], Word);
    Disjoint(s[w0]);
    assert RunEnd(s, d, Space) == w0;
    RunEndCovers(s, w0, Word, w);
    assert InClass(s[w], Space);
    Disjoint(s[w]);
    assert RunEnd(s, w0, Word) == w;
    RunEndCovers(s, w, Space, f0);
    assert InClass(s[f0], Format);
    Disjoint(s[f0]);
    assert RunEnd(s, w, Space) == f0;
    RunEndCovers(s, f0, Format, f);
  }

  /** The match of `@\d+\s+(\w+)\s+` at `p`, runs taken as long as they go. */
  function MatchName(s: string, p: nat): (r: Option<NameMatch>)
    requires p <= |s|
    ensures r.Some? ==> p < r.value.end <= |s|
    ensures r.Some? ==> exists d, w0, w :: NameShape(s, p, d, w0, w, r.value.end) && r.value.name == s[w0..w]
  {
    if p < |s| && s[p] == '@' then
      var d := RunEnd(s, p + 1, Digit);
      var w0 := RunEnd(s, d, Space);
      var w := RunEnd(s, w0, Word);
      var e := RunEnd(s, w, Space);
      if d > p + 1 && w0 > d && w > w0 && e > w then
        assert NameShape(s, p, d, w0, w, e);
        Some(NameMatch(e, s[w0..w]))
      else None
    else None
  }

  /** Whenever the name pattern matches at `p` in any way, `MatchName` finds
      it and captures the same name. */
  lemma NameMatchComplete(s: string, p: nat, d: nat, w0: nat, w: nat, e: nat)
    requires NameShape(s, p, d, w0, w, e)
    ensures MatchName(s, p).Some?
    ensures MatchName(s, p).value.name == s[w0..w]
  {
    RunEndCovers(s, p + 1, Digit, d);
    assert InClass(s[d], Space);
    Disjoint(s[d]);
    assert RunEnd(s, p + 1, Digit) == d;
    RunEndCovers(s, d, Space, w0);
    assert InClass(s[w0], Word);
    Disjoint(s[w0]);
    assert RunEnd(s, d, Space) == w0;
    RunEndCovers(s, w0, Word, w);
    assert InClass(s[w], Space);
    Disjoint(s[w]);
    assert RunEnd(s, w0, Word) == w;
    RunEndCovers(s, w, Space, e);
  }

  /** `re.search` from position `p`: the leftmost match. */
  function SearchSpec(s: string, p: nat): (r: Option<SpecMatch>)
    requires p <= |s|
    ensures r.Some? ==> p < r.value.end <= |s|
    ensures r.None? ==> forall q :: p <= q <= |s| ==> MatchSpec(s, q).None?
    decreases |s| - p
  {
    if p == |s| then
      assert MatchSpec(s, p).None?;
      None
    else match MatchSpec(s, p)
      case Some(m) => Some(m)
      case None =>
        var r := SearchSpec(s, p + 1);
        assert r.None? ==> forall q :: p + 1 <= q <= |s| ==> MatchSpec(s, q).None?;
        r
  }

  /** What `SearchSpec` finds is the match at some position `q`, and there
      is no match before `q`. */
  lemma {:induction false} SearchSpecLeftmost(s: string, p: nat) returns (q: nat)
    requires p <= |s| && SearchSpec(s, p).Some?
    ensures p <= q < |s| && MatchSpec(s, q) == SearchSpec(s, p)
    ensures forall q' :: p <= q' < q ==> MatchSpec(s, q').None?
    decreases |s| - p
  {
    if MatchSpec(s, p).None? {
      q := SearchSpecLeftmost(s, p + 1);
      NoSpecFrom(s, p, q);
    } else {
      q := p;
    }
  }

  /** No match at `p` and none strictly between `p` and `q`: none from `p` to `q`. */
  lemma NoSpecFrom(s: string, p: nat, q: nat)
    requires p < q <= |s| && MatchSpec(s, p).None?
    requires forall q' :: p + 1 <= q' < q ==> MatchSpec(s, q').None?
    ensures forall q' :: p <= q' < q ==> MatchSpec(s, q').None?
  {
  }

  /** `re.finditer` from `p`: successive leftmost matches, each search
      resuming where the previous match ended. */
  function FindSpecs(s: string, p: nat): (ms: seq<SpecMatch>)
    requires p <= |s|
    ensures forall i :: 0 <= i < |ms| ==> ms[i].end <= |s|
    decreases |s| - p
  {
    match SearchSpec(s, p)
    case None => []
    case Some(m) => [m] + FindSpecs(s, m.end)
  }

  /** A captured name: one or more word characters. */
  predicate IsName(n: string)
  {
    n != [] && forall j :: 0 <= j < |n| ==> IsWordChar(n[j])
  }

  /** The leftmost name match from `p`. */
  function SearchName(s: string, p: nat): (r: Option<NameMatch>)
    requires p <= |s|
    ensures r.Some? ==> p < r.value.end <= |s| && IsName(r.value.name)
    ensures r.None? ==> forall q :: p <= q <= |s| ==> MatchName(s, q).None?
    decreases |s| - p
  {
    if p == |s| then None
    else match MatchName(s, p)
      case Some(m) =>
        NameIsWord(s, p, m);
        Some(m)
      case None => SearchName(s, p + 1)
  }

  /** A name captured at `p` is made of word characters. */
  lemma NameIsWord(s: string, p: nat, m: NameMatch)
    requires p <= |s| && MatchName(s, p) == Some(m)
    ensures p < m.end <= |s| && IsName(m.name)
  {
    var d, w0, w :| NameShape(s, p, d, w0, w, m.end) && m.name == s[w0..w];
    assert forall j :: 0 <= j < |m.name| ==> m.name[j] == s[w0 + j];
  }

  /** `re.findall(r'@\d+\s+(\w+)\s+', s[p..])`: the captured names in text order. */
  function FindNames(s: string, p: nat): (names: seq<string>)
    requires p <= |s|
    ensures forall i :: 0 <= i < |names| ==> IsName(names[i])
    decreases |s| - p
  {
    match SearchName(s, p)
    case None => []
    case Some(m) => [m.name] + FindNames(s, m.end)
  }

  /** Searching again from the end of a match finds the next match of the
      iteration, or nothing after the last one. */
  lemma {:induction false} SearchFindsNext(s: string, p: nat, i: nat)
    requires p <= |s| && i < |FindSpecs(s, p)|
    ensures SearchSpec(s, FindSpecs(s, p)[i].end) ==
            if i + 1 < |FindSpecs(s, p)| then Some(FindSpecs(s, p)[i + 1]) else None
    decreases |s| - p
  {
    var m := SearchSpec(s, p).value;
    var rest := FindSpecs(s, m.end);
    assert FindSpecs(s, p) == [m] + rest;
    if i > 0 {
      SearchFindsNext(s, m.end, i - 1);
    }
  }

  /** The column specification the parser derives for the `i`-th directive. */
  function SpecOf(ms: seq<SpecMatch>, i: nat): (int, int)
    requires i < |ms|
  {
    var start := ms[i].position - 1;
    (start, if i + 1 < |ms| then ms[i + 1].position - 1 else start + 1)
  }

  /** `specs` are the specifications of the first `|specs|` directives. */
  predicate SpecsOf(specs: seq<(int, int)>, ms: seq<SpecMatch>)
  {
    |specs| <= |ms| && forall k :: 0 <= k < |specs| ==> specs[k] == SpecOf(ms, k)
  }

  lemma AppendSpec(specs: seq<(int, int)>, ms: seq<SpecMatch>, x: (int, int))
    requires SpecsOf(specs, ms) && |specs| < |ms| && x == SpecOf(ms, |specs|)
    ensures SpecsOf(specs + [x], ms)
  {
  }

  /** One step of the parser's loop: the end it computes from the next
      search is the one `SpecOf` gives. */
  lemma SpecStep(content: string, matches: seq<SpecMatch>, i: nat, next: Option<SpecMatch>)
    requires matches == FindSpecs(content, 0) && i < |matches|
    requires next == SearchSpec(content, matches[i].end)
    ensures SpecOf(matches, i) == (matches[i].position - 1,
                                   if next.Some? then next.value.position - 1 else matches[i].position - 1 + 1)
  {
    SearchFindsNext(content, 0, i);
    SpecOfNext(matches, i, next);
  }

  /** The end `SpecOf` gives is the next directive's start, once the next
      match is known. */
  lemma SpecOfNext(ms: seq<SpecMatch>, i: nat, next: Option<SpecMatch>)
    requires i < |ms| && next == if i + 1 < |ms| then Some(ms[i + 1]) else None
    ensures SpecOf(ms, i) == (ms[i].position - 1, if next.Some? then next.value.position - 1 else ms[i].position - 1 + 1)
  {
  }

  /** `parse_pnadc_sas_script` on the text of the script: the names captured
      by the name pattern, and one (start, end) pair per spec directive, with
      0-based starts, each end at the next directive's start and a width of
      one for the last. */
  method ParseSasScript(content: string) returns (colnames: seq<string>, colspecs: seq<(int, int)>)
    ensures colnames == FindNames(content, 0)
    ensures |colspecs| == |FindSpecs(content, 0)|
    ensures forall i :: 0 <= i < |colspecs| ==> colspecs[i].0 == FindSpecs(content, 0)[i].position - 1
    ensures forall i :: 0 <= i < |colspecs| - 1 ==> colspecs[i].1 == colspecs[i + 1].0
    ensures |colspecs| > 0 ==> colspecs[|colspecs| - 1].1 == colspecs[|colspecs| - 1].0 + 1
  {
    colnames := FindNames(content, 0);
    var matches := FindSpecs(content, 0);
    colspecs := [];
    var i := 0;
    while i < |matches|
      invariant 0 <= i <= |matches|
      invariant |colspecs| == i
      invariant SpecsOf(colspecs, matches)
    {
      var start := matches[i].position - 1;
      var next := SearchSpec(content, matches[i].end);
      var end := if next.Some? then next.value.position - 1 else start + 1;
      SpecStep(content, matches, i, next);
      AppendSpec(colspecs, matches, (start, end));
      colspecs := colspecs + [(start, end)];
      i := i + 1;
    }
  }

  /** The two patterns differ: a directive without a format is named but
      given no column specification. */
  lemma NamesMayOutnumberSpecs()
    ensures FindNames("@1 x\n", 0) == ["x"]
    ensures FindSpecs("@1 x\n", 0) == []
  {
    SampleRuns();
    SampleNames();
    SampleSpecs();
  }

  /** The runs of the sample directive `@1 x` followed by a newline. */
  lemma SampleRuns()
    ensures var s := "@1 x\n";
      && RunEnd(s, 1, Digit) == 2 && RunEnd(s, 2, Space) == 3 && RunEnd(s, 3, Word) == 4
      && RunEnd(s, 4, Space) == 5 && RunEnd(s, 5, Format) == 5
  {
    var s := "@1 x\n";
    assert IsDecimalDigit(s[1]) && !IsDecimalDigit(s[2]);
    assert RunEnd(s, 2, Digit) == 2;
    assert IsSpace(s[2]) && !IsSpace(s[3]);
    assert RunEnd(s, 3, Space) == 3;
    assert IsWordChar(s[3]) && !IsWordChar(s[4]);
    assert RunEnd(s, 4, Word) == 4;
    assert IsSpace(s[4]);
    assert RunEnd(s, 5, Space) == 5;
  }

  /** The name pattern captures `x` in the sample. */
  lemma SampleNames()
    requires var s := "@1 x\n";
      && RunEnd(s, 1, Digit) == 2 && RunEnd(s, 2, Space) == 3 && RunEnd(s, 3, Word) == 4
      && RunEnd(s, 4, Space) == 5
    ensures FindNames("@1 x\n", 0) == ["x"]
  {
    var s := "@1 x\n";
    assert s[3..4] == "x";
    assert MatchName(s, 0) == Some(NameMatch(5, "x"));
    assert SearchName(s, 5) == None;
  }

  /** The spec pattern finds nothing in the sample: it has no format. */
  lemma SampleSpecs()
    requires var s := "@1 x\n";
      && RunEnd(s, 1, Digit) == 2 && RunEnd(s, 2, Space) == 3 && RunEnd(s, 3, Word) == 4
      && RunEnd(s, 4, Space) == 5 && RunEnd(s, 5, Format) == 5
    ensures FindSpecs("@1 x\n", 0) == []
  {
    var s := "@1 x\n";
    assert MatchSpec(s, 0) == None;
    assert s[1] != '@' && s[2] != '@' && s[3] != '@' && s[4] != '@';
    assert SearchSpec(s, 5) == None;
    assert SearchSpec(s, 4) == None;
    assert SearchSpec(s, 3) == None;
    assert SearchSpec(s, 2) == None;
    assert SearchSpec(s, 1) == None;
    assert SearchSpec(s, 0) == None;
  }

  // ---------------------------------------------------------------------
  // Extension filter and naming rule

  /** `f".{file.split('.')[-1].lower()}"`: a dot and the lower-cased text
      after the file's last dot (the whole name when it has none). */
  function ExtensionKey(file: string): (k: string)
    ensures k != [] && k[0] == '.' && '.' !in k[1..]
    ensures forall i :: 0 <= i < |k| ==> !('A' <= k[i] <= 'Z')
    ensures |k| - 1 <= |file| && k[1..] == Lower(file[|file| - (|k| - 1)..])
    ensures |k| - 1 < |file| ==> file[|file| - |k|] == '.'
    ensures |k| - 1 == |file| ==> '.' !in file
  {
    var tail := AfterLast(file, '.');
    LowerTail(tail);
    var k := "." + Lower(tail);
    assert k[1..] == Lower(tail);
    k
  }

  /** Lower-casing a text without a dot leaves no dot and no capital letter. */
  lemma LowerTail(tail: string)
    requires '.' !in tail
    ensures '.' !in Lower(tail)
    ensures forall i :: 0 <= i < |tail| ==> !('A' <= Lower(tail)[i] <= 'Z')
  {
    forall c | c in Lower(tail) ensures c != '.' {
      var i :| 0 <= i < |tail| && Lower(tail)[i] == c;
      assert tail[i] in tail;
    }
  }

  /** An extracted file is kept when its key is one of `down_ext`. */
  predicate Kept(file: string, downExt: seq<string>)
  {
    ExtensionKey(file) in downExt
  }

  /** An entry of `down_ext` holding an upper-case letter never matches. */
  lemma UpperCaseEntryNeverMatches(file: string, e: string, i: int)
    requires 0 <= i < |e| && 'A' <= e[i] <= 'Z'
    ensures ExtensionKey(file) != e
  {
  }

  /** Lower-casing a string keeps where its dots are. */
  lemma {:induction false} AfterLastLower(s: string)
    ensures AfterLast(Lower(s), '.') == Lower(AfterLast(s, '.'))
  {
    if s != [] {
      var init := s[..|s| - 1];
      var x := s[|s| - 1];
      assert s == init + [x];
      LowerSnoc(init, x);
      AfterLastLower(init);
      if x == '.' {
        assert AfterLast(Lower(s), '.') == [];
      } else {
        AfterLastSnoc(Lower(init), LowerChar(x));
        AfterLastSnoc(init, x);
        LowerSnoc(AfterLast(init, '.'), x);
      }
    }
  }

  lemma LowerSnoc(s: string, x: char)
    ensures Lower(s + [x]) == Lower(s) + [LowerChar(x)]
  {
  }

  lemma AfterLastSnoc(s: string, x: char)
    requires x != '.'
    ensures AfterLast(s + [x], '.') == AfterLast(s, '.') + [x]
  {
    assert (s + [x])[..|s|] == s;
  }

  lemma LowerIdempotent(s: string)
    ensures Lower(Lower(s)) == Lower(s)
  {
    assert forall i :: 0 <= i < |s| ==> LowerChar(LowerChar(s[i])) == LowerChar(s[i]);
  }

  /** The filter ignores the case of the file name. */
  lemma KeptIgnoresCase(file: string, downExt: seq<string>)
    ensures Kept(Lower(file), downExt) == Kept(file, downExt)
  {
    AfterLastLower(file);
    var t := AfterLast(file, '.');
    LowerIdempotent(t);
    assert ExtensionKey(Lower(file)) == "." + Lower(Lower(t));
  }

  /** The index of the last `c` in `s`, or -1. */
  function LastIndexOf(s: string, c: char): (r: int)
    ensures -1 <= r < |s|
    ensures r >= 0 ==> s[r] == c
    ensures forall k :: r < k < |s| ==> s[k] != c
  {
    if s == [] then -1
    else if s[|s| - 1] == c then |s| - 1
    else LastIndexOf(s[..|s| - 1], c)
  }

  /** `os.path.splitext(p)`: the extension is the text from the last dot of
      the last path component, unless only dots precede that dot in the
      component (so `.bashrc` has none). */
  function SplitExt(p: string): (r: (string, string))
    ensures r.0 + r.1 == p
    ensures r.1 == "" || (r.1[0] == '.' && '.' !in r.1[1..] && '/' !in r.1)
    ensures r.1 != "" <==> DotAfterStem(p)
  {
    var sep := LastIndexOf(p, '/');
    var dot := LastIndexOf(p, '.');
    SplitExtCondition(p, sep, dot);
    if dot > sep && exists k :: sep < k < dot && p[k] != '.' then
      assert forall k :: dot < k < |p| ==> p[k] != '.' && p[k] != '/';
      var tail := p[dot + 1..];
      assert p[dot..][1..] == tail;
      assert forall k :: 0 <= k < |tail| ==> tail[k] == p[dot + 1 + k];
      (p[..dot], p[dot..])
    else (p, "")
  }

  /** The last path component has a dot with some character other than a
      dot before it in that component. */
  predicate DotAfterStem(p: string)
  {
    exists i, j :: 0 <= i < j < |p| && p[i] != '.' && p[j] == '.' && '/' !in p[i..]
  }

  /** `SplitExt`'s test, stated through the last separator and the last dot. */
  lemma SplitExtCondition(p: string, sep: int, dot: int)
    requires sep == LastIndexOf(p, '/') && dot == LastIndexOf(p, '.')
    ensures (dot > sep && exists k :: sep < k < dot && p[k] != '.') <==> DotAfterStem(p)
  {
    if DotAfterStem(p) {
      var i, j :| 0 <= i < j < |p| && p[i] != '.' && p[j] == '.' && '/' !in p[i..];
      assert sep < i < j <= dot;
    }
    if dot > sep && exists k :: sep < k < dot && p[k] != '.' {
      var k :| sep < k < dot && p[k] != '.';
      forall m | 0 <= m < |p[k..]| ensures p[k..][m] != '/' {
        assert p[k..][m] == p[k + m];
      }
      assert p[k] != '.' && p[dot] == '.' && '/' !in p[k..];
    }
  }

  /** A name that starts with its only dots has no extension. */
  lemma HiddenFileHasNoExtension(p: string, n: nat)
    requires 0 < n <= |p| && '/' !in p
    requires forall k :: 0 <= k < n ==> p[k] == '.'
    requires forall k :: n <= k < |p| ==> p[k] != '.'
    ensures SplitExt(p).1 == ""
  {
    assert LastIndexOf(p, '/') == -1;
    assert p[n - 1] == '.';
    assert LastIndexOf(p, '.') == n - 1;
  }

  /** `f"{parent}_{base_name}{ext}"`: the archive's stem, an underscore and
      the extracted file's own name. */
  function UniqueName(archive: string, file: string): (name: string)
    ensures name == SplitExt(AfterLast(archive, '/')).0 + "_" + file
    ensures EndsWith(name, SplitExt(file).1)
  {
    var parent := SplitExt(AfterLast(archive, '/')).0;
    var parts := SplitExt(file);
    var baseName := parts.0;
    var ext := parts.1;
    assert parent + "_" + baseName + ext == parent + "_" + (baseName + ext);
    parent + "_" + baseName + ext
  }

  /** `os.path.join(directory, name)` for a relative `name`. */
  function JoinPath(directory: string, name: string): (r: string)
    ensures StartsWith(r, directory) && EndsWith(r, name)
  {
    if directory == [] || directory[|directory| - 1] == '/' then directory + name
    else directory + "/" + name
  }

  // ---------------------------------------------------------------------
  // compressed2files

  /** A file found after extracting an archive: its name, whether it can be
      opened as a zip, tar or 7z archive, and if so the files extracting it
      yields. */
  datatype Entry = Entry(name: string, opens: bool, entries: seq<Entry>)

  /** The paths a list of extracted entries contributes at a depth where
      nested archives are no longer opened. */
  function KeptDestinations(archive: string, entries: seq<Entry>, target: string, downExt: seq<string>): set<string>
  {
    if entries == [] then {}
    else
      var e := entries[0];
      (if !EndsWithAny(e.name, ExtractorModel.CompressedExt()) && Kept(e.name, downExt)
       then {JoinPath(target, UniqueName(archive, e.name))} else {})
      + KeptDestinations(archive, entries[1..], target, downExt)
  }

  /** `grown` holds every path of `found`, and any other path it holds lies under `target`. */
  predicate Grown(found: set<string>, grown: set<string>, target: string)
  {
    found <= grown && forall x :: x in grown - found ==> StartsWith(x, target)
  }

  /** Growing twice is growing once. */
  lemma GrownStep(found: set<string>, mid: set<string>, r: Result<set<string>>, target: string)
    requires Grown(found, mid, target)
    requires r.Ok? ==> Grown(mid, r.value, target)
    ensures r.Ok? ==> Grown(found, r.value, target)
  {
  }

  /** The outcome for an archive that is neither a zip nor a tar file and
      does not open as 7z either: a name ending in ".7z" goes to the 7z
      reader, which raises; any other name is an unsupported format, for
      which the function returns None. */
  function Unopened(archive: Entry): (r: Result<Option<set<string>>>)
  {
    if EndsWith(archive.name, ".7z") then Err(Bad7zFile) else Ok(None)
  }

  /** The exception a nested archive that does not open raises in the loop:
      the 7z reader's own, or the TypeError of `set(None)`. */
  function NestedFailure(archive: Entry): ErrorKind
  {
    if EndsWith(archive.name, ".7z") then Bad7zFile else TypeError
  }

  /** `compressed2files(archive, target, down_ext, depth, max_depth, found)`:
      `Ok(None)` when the archive format is not supported (the function
      returns None), `Err(Bad7zFile)` when a ".7z" file does not open,
      `Err(TypeError)` when a nested archive is unsupported (`set(None)`
      raises), and otherwise the grown set of found paths. */
  function Collect(archive: Entry, target: string, downExt: seq<string>, depth: int, maxDepth: int,
                   found: set<string>): (r: Result<Option<set<string>>>)
    ensures depth > maxDepth ==> r == Ok(Some(found))
    ensures depth <= maxDepth ==> (r == Ok(None) <==> !archive.opens && !EndsWith(archive.name, ".7z"))
    ensures depth <= maxDepth && !archive.opens && EndsWith(archive.name, ".7z") ==> r == Err(Bad7zFile)
    ensures r.Ok? && r.value.Some? ==> Grown(found, r.value.value, target)
    ensures r.Err? ==> r.error in {TypeError, Bad7zFile}
    decreases archive, |archive.entries| + 1
  {
    if depth > maxDepth then Ok(Some(found))
    else if !archive.opens then Unopened(archive)
    else match CollectFrom(archive, 0, target, downExt, depth, maxDepth, found)
      case Err(k) => Err(k)
      case Ok(s) => Ok(Some(s))
  }

  /** The loop over the extracted entries of `archive` from the `i`-th on. */
  function CollectFrom(archive: Entry, i: nat, target: string, downExt: seq<string>,
                       depth: int, maxDepth: int, found: set<string>): (r: Result<set<string>>)
    requires i <= |archive.entries|
    ensures r.Ok? ==> Grown(found, r.value, target)
    ensures r.Err? ==> r.error in {TypeError, Bad7zFile}
    decreases archive, |archive.entries| - i
  {
    var entries := archive.entries;
    if i == |entries| then Ok(found)
    else
      var e := entries[i];
      var next: Result<set<string>> :=
        if EndsWithAny(e.name, ExtractorModel.CompressedExt()) then
          if depth < maxDepth then
            assert e in archive.entries;
            match Collect(e, target, downExt, depth + 1, maxDepth, found)
            case Err(k) => Err(k)
            case Ok(None) => Err(TypeError)
            case Ok(Some(inner)) => Ok(found + inner)
          else Ok(found)
        else if Kept(e.name, downExt) then Ok(found + {JoinPath(target, UniqueName(archive.name, e.name))})
        else Ok(found);
      if next.Err? then Err(next.error)
      else
        var r := CollectFrom(archive, i + 1, target, downExt, depth, maxDepth, next.value);
        GrownStep(found, next.value, r, target);
        r
  }

  /** At the maximum depth nested archives are skipped: only the kept files
      of this archive are added. */
  lemma {:induction false} NoNestingAtMaxDepth(archive: Entry, i: nat, target: string, downExt: seq<string>,
                                               depth: int, maxDepth: int, found: set<string>)
    requires i <= |archive.entries|
    requires depth >= maxDepth
    ensures CollectFrom(archive, i, target, downExt, depth, maxDepth, found)
            == Ok(found + KeptDestinations(archive.name, archive.entries[i..], target, downExt))
    decreases |archive.entries| - i
  {
    var entries := archive.entries;
    if i == |entries| {
      assert entries[i..] == [];
      assert found + {} == found;
    } else {
      var added := KeptAt(archive.name, entries[i], target, downExt);
      KeptDestinationsAt(archive.name, entries, i, target, downExt);
      CollectFromFlat(archive, i, target, downExt, depth, maxDepth, found);
      NoNestingAtMaxDepth(archive, i + 1, target, downExt, depth, maxDepth, found + added);
      assert found + added + KeptDestinations(archive.name, entries[i + 1..], target, downExt)
             == found + (added + KeptDestinations(archive.name, entries[i + 1..], target, downExt));
    }
  }

  /** The path one entry contributes at a depth where nested archives are skipped. */
  function KeptAt(archive: string, e: Entry, target: string, downExt: seq<string>): (s: set<string>)
    ensures |s| <= 1
  {
    if !EndsWithAny(e.name, ExtractorModel.CompressedExt()) && Kept(e.name, downExt)
    then {JoinPath(target, UniqueName(archive, e.name))} else {}
  }

  /** The destinations from the `i`-th entry on: that entry's, then the rest's. */
  lemma KeptDestinationsAt(archive: string, entries: seq<Entry>, i: nat, target: string, downExt: seq<string>)
    requires i < |entries|
    ensures KeptDestinations(archive, entries[i..], target, downExt)
            == KeptAt(archive, entries[i], target, downExt) + KeptDestinations(archive, entries[i + 1..], target, downExt)
  {
    assert entries[i..][0] == entries[i] && entries[i..][1..] == entries[i + 1..];
  }

  /** At the maximum depth, or on an entry that is not an archive, one turn
      of the loop adds the entry's path, if any. */
  lemma CollectFromFlat(archive: Entry, i: nat, target: string, downExt: seq<string>,
                        depth: int, maxDepth: int, found: set<string>)
    requires i < |archive.entries|
    requires depth >= maxDepth || !EndsWithAny(archive.entries[i].name, ExtractorModel.CompressedExt())
    ensures CollectFrom(archive, i, target, downExt, depth, maxDepth, found)
            == CollectFrom(archive, i + 1, target, downExt, depth, maxDepth,
                           found + KeptAt(archive.name, archive.entries[i], target, downExt))
  {
    var e := archive.entries[i];
    var added := KeptAt(archive.name, e, target, downExt);
    if EndsWithAny(e.name, ExtractorModel.CompressedExt()) || !Kept(e.name, downExt) {
      assert added == {};
      assert found + added == found;
    } else {
      assert added == {JoinPath(target, UniqueName(archive.name, e.name))};
    }
  }

  // ---------------------------------------------------------------------
  // What the walk collects, stated without the loop.

  /** Every nested archive the walk opens, from `archive` down, is one it
      can open. */
  predicate Opens(archive: Entry, depth: int, maxDepth: int)
    decreases archive, |archive.entries| + 1
  {
    archive.opens && OpensFrom(archive, 0, depth, maxDepth)
  }

  /** Every nested archive among the entries of `archive` from the `i`-th on
      that the walk descends into can be opened, and so can theirs. */
  predicate OpensFrom(archive: Entry, i: nat, depth: int, maxDepth: int)
    requires i <= |archive.entries|
    decreases archive, |archive.entries| - i
  {
    if i == |archive.entries| then true
    else
      var e := archive.entries[i];
      assert e in archive.entries;
      && (EndsWithAny(e.name, ExtractorModel.CompressedExt()) && depth < maxDepth ==> Opens(e, depth + 1, maxDepth))
      && OpensFrom(archive, i + 1, depth, maxDepth)
  }

  /** The exception of the first nested archive, in the walk's order, that
      does not open, among the entries of `archive` from the `i`-th on and
      below them; `TypeError` when there is none. */
  function FailureFrom(archive: Entry, i: nat, depth: int, maxDepth: int): ErrorKind
    requires i <= |archive.entries|
    decreases archive, |archive.entries| - i
  {
    if i == |archive.entries| then TypeError
    else
      var e := archive.entries[i];
      assert e in archive.entries;
      if EndsWithAny(e.name, ExtractorModel.CompressedExt()) && depth < maxDepth && !Opens(e, depth + 1, maxDepth) then
        if e.opens then FailureFrom(e, 0, depth + 1, maxDepth) else NestedFailure(e)
      else FailureFrom(archive, i + 1, depth, maxDepth)
  }

  /** The paths the walk of `archive` adds: the kept files of the archive
      and, below the maximum depth, those of its nested archives. */
  function AllKept(archive: Entry, target: string, downExt: seq<string>, depth: int, maxDepth: int): set<string>
    decreases archive, |archive.entries| + 1
  {
    KeptFrom(archive, 0, target, downExt, depth, maxDepth)
  }

  /** The paths the entries of `archive` from the `i`-th on add. */
  function KeptFrom(archive: Entry, i: nat, target: string, downExt: seq<string>, depth: int, maxDepth: int): set<string>
    requires i <= |archive.entries|
    decreases archive, |archive.entries| - i
  {
    if i == |archive.entries| then {}
    else
      var e := archive.entries[i];
      assert e in archive.entries;
      var own :=
        if EndsWithAny(e.name, ExtractorModel.CompressedExt()) && depth < maxDepth
        then AllKept(e, target, downExt, depth + 1, maxDepth)
        else KeptAt(archive.name, e, target, downExt);
      own + KeptFrom(archive, i + 1, target, downExt, depth, maxDepth)
  }

  /** Below the depth limit the walk of an archive it can open adds exactly
      `AllKept` when every nested archive it descends into opens, and fails
      with the exception of the first one that does not. */
  lemma {:induction false} CollectExact(archive: Entry, target: string, downExt: seq<string>, depth: int, maxDepth: int,
                                        found: set<string>)
    requires depth <= maxDepth
    ensures Opens(archive, depth, maxDepth) ==>
              Collect(archive, target, downExt, depth, maxDepth, found)
              == Ok(Some(found + AllKept(archive, target, downExt, depth, maxDepth)))
    ensures archive.opens && !Opens(archive, depth, maxDepth) ==>
              Collect(archive, target, downExt, depth, maxDepth, found) == Err(FailureFrom(archive, 0, depth, maxDepth))
    decreases archive, |archive.entries| + 1, 0
  {
    if archive.opens {
      CollectFromExact(archive, 0, target, downExt, depth, maxDepth, found);
    }
  }

  /** `CollectExact` for the loop from the `i`-th entry on. */
  lemma {:induction false} CollectFromExact(archive: Entry, i: nat, target: string, downExt: seq<string>,
                                            depth: int, maxDepth: int, found: set<string>)
    requires i <= |archive.entries| && depth <= maxDepth
    ensures OpensFrom(archive, i, depth, maxDepth) ==>
              CollectFrom(archive, i, target, downExt, depth, maxDepth, found)
              == Ok(found + KeptFrom(archive, i, target, downExt, depth, maxDepth))
    ensures !OpensFrom(archive, i, depth, maxDepth) ==>
              CollectFrom(archive, i, target, downExt, depth, maxDepth, found) == Err(FailureFrom(archive, i, depth, maxDepth))
    decreases archive, |archive.entries| - i, 1
  {
    if i == |archive.entries| {
      assert found + {} == found;
    } else {
      var e := archive.entries[i];
      if EndsWithAny(e.name, ExtractorModel.CompressedExt()) && depth < maxDepth {
        NestedTurnExact(archive, i, target, downExt, depth, maxDepth, found);
      } else {
        FlatTurnExact(archive, i, target, downExt, depth, maxDepth, found);
      }
    }
  }

  /** `CollectFromExact` on a turn that descends into a nested archive. */
  lemma {:induction false} NestedTurnExact(archive: Entry, i: nat, target: string, downExt: seq<string>,
                                           depth: int, maxDepth: int, found: set<string>)
    requires i < |archive.entries| && depth < maxDepth
    requires EndsWithAny(archive.entries[i].name, ExtractorModel.CompressedExt())
    ensures OpensFrom(archive, i, depth, maxDepth) ==>
              CollectFrom(archive, i, target, downExt, depth, maxDepth, found)
              == Ok(found + KeptFrom(archive, i, target, downExt, depth, maxDepth))
    ensures !OpensFrom(archive, i, depth, maxDepth) ==>
              CollectFrom(archive, i, target, downExt, depth, maxDepth, found) == Err(FailureFrom(archive, i, depth, maxDepth))
    decreases archive, |archive.entries| - i, 0
  {
    var e := archive.entries[i];
    var rest := KeptFrom(archive, i + 1, target, downExt, depth, maxDepth);
    assert e in archive.entries;
    var sub := AllKept(e, target, downExt, depth + 1, maxDepth);
    CollectFromNested(archive, i, target, downExt, depth, maxDepth, found);
    CollectExact(e, target, downExt, depth + 1, maxDepth, found);
    if Opens(e, depth + 1, maxDepth) {
      var inner := found + sub;
      CollectFromExact(archive, i + 1, target, downExt, depth, maxDepth, found + inner);
      assert KeptFrom(archive, i, target, downExt, depth, maxDepth) == sub + rest;
      assert found + inner + rest == found + (sub + rest);
    }
  }

  /** `CollectFromExact` on a turn that does not descend. */
  lemma {:induction false} FlatTurnExact(archive: Entry, i: nat, target: string, downExt: seq<string>,
                                         depth: int, maxDepth: int, found: set<string>)
    requires i < |archive.entries| && depth <= maxDepth
    requires depth >= maxDepth || !EndsWithAny(archive.entries[i].name, ExtractorModel.CompressedExt())
    ensures OpensFrom(archive, i, depth, maxDepth) ==>
              CollectFrom(archive, i, target, downExt, depth, maxDepth, found)
              == Ok(found + KeptFrom(archive, i, target, downExt, depth, maxDepth))
    ensures !OpensFrom(archive, i, depth, maxDepth) ==>
              CollectFrom(archive, i, target, downExt, depth, maxDepth, found) == Err(FailureFrom(archive, i, depth, maxDepth))
    decreases archive, |archive.entries| - i, 0
  {
    var e := archive.entries[i];
    var rest := KeptFrom(archive, i + 1, target, downExt, depth, maxDepth);
    var own := KeptAt(archive.name, e, target, downExt);
    var descends := EndsWithAny(e.name, ExtractorModel.CompressedExt()) && depth < maxDepth;
    assert !descends;
    assert OpensFrom(archive, i, depth, maxDepth) == OpensFrom(archive, i + 1, depth, maxDepth);
    assert KeptFrom(archive, i, target, downExt, depth, maxDepth) == own + rest;
    CollectFromFlat(archive, i, target, downExt, depth, maxDepth, found);
    CollectFromExact(archive, i + 1, target, downExt, depth, maxDepth, found + own);
    assert found + own + rest == found + (own + rest);
  }

  /** One turn of the loop on a nested archive the walk descends into. */
  lemma CollectFromNested(archive: Entry, i: nat, target: string, downExt: seq<string>,
                          depth: int, maxDepth: int, found: set<string>)
    requires i < |archive.entries| && depth < maxDepth
    requires EndsWithAny(archive.entries[i].name, ExtractorModel.CompressedExt())
    ensures var c := Collect(archive.entries[i], target, downExt, depth + 1, maxDepth, found);
            CollectFrom(archive, i, target, downExt, depth, maxDepth, found)
            == if c.Err? then Err(c.error)
               else if c.value.None? then Err(TypeError)
               else CollectFrom(archive, i + 1, target, downExt, depth, maxDepth, found + c.value.value)
  {
  }

  /** The recursive extraction, with the loop over the extracted entries. */
  method Compressed2Files(archive: Entry, target: string, downExt: seq<string>, depth: int, maxDepth: int,
                          found: set<string>) returns (r: Result<Option<set<string>>>)
    ensures r == Collect(archive, target, downExt, depth, maxDepth, found)
    decreases archive
  {
    if depth > maxDepth {
      return Ok(Some(found));
    }
    if !archive.opens {
      return Unopened(archive);
    }
    var entries := archive.entries;
    var acc := found;
    var i := 0;
    while i < |entries|
      invariant 0 <= i <= |entries|
      invariant CollectFrom(archive, 0, target, downExt, depth, maxDepth, found)
                == CollectFrom(archive, i, target, downExt, depth, maxDepth, acc)
    {
      var e := entries[i];
      if EndsWithAny(e.name, ExtractorModel.CompressedExt()) {
        if depth < maxDepth {
          assert e in archive.entries;
          var inner := Compressed2Files(e, target, downExt, depth + 1, maxDepth, acc);
          if inner.Err? {
            return Err(inner.error);
          }
          if inner.value.None? {
            return Err(TypeError);
          }
          acc := acc + inner.value.value;
        }
      } else if Kept(e.name, downExt) {
        acc := acc + {JoinPath(target, UniqueName(archive.name, e.name))};
      }
      i := i + 1;
    }
    return Ok(Some(acc));
  }
}
