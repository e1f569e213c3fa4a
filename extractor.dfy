/** The `Extractor` of src/socio4health/extractor.py, without its I/O: the
    constructor's validation and choice of mode, the name given to a direct
    download, the order in which local mode enumerates extensions, and the
    safety checks made before a download folder is deleted. */
module ExtractorModel {
  import opened Wrappers
  import opened Text
  import Tables

  /** The archive extensions the extractor unpacks, in the listed order. */
  function CompressedExt(): seq<string>
  {
    [".zip", ".7z", ".tar", ".gz", ".tgz"]
  }

  /** Python truthiness of an optional string: present and non-empty. */
  predicate Truthy(s: Option<string>)
  {
    s.Some? && s.value != ""
  }

  /** A list argument that defaults to `[]` when None is passed. */
  function OrEmpty(xs: Option<seq<string>>): (r: seq<string>)
    ensures xs.Some? ==> r == xs.value
    ensures xs.None? ==> r == []
  {
    if xs.Some? then xs.value else []
  }

  /** The outcome of the constructor's checks: the mode (0 online, 1 local)
      or the ValueError it raises. */
  function InitMode(path: Option<string>, url: Option<string>, depth: Option<int>, downExt: seq<string>): (r: Result<int>)
    ensures r.Ok? <==> Truthy(path) != Truthy(url) && downExt != [] && (Truthy(url) ==> depth.Some?)
    ensures r.Ok? ==> (r.value == 0 <==> Truthy(url)) && (r.value == 1 <==> Truthy(path))
    ensures r.Err? ==> r.error == ValueError
  {
    if Truthy(path) && Truthy(url) then Err(ValueError)
    else if !Truthy(path) && !Truthy(url) then Err(ValueError)
    else if Truthy(url) then
      if depth.None? then Err(ValueError)
      else if downExt == [] then Err(ValueError)
      else Ok(0)
    else if downExt == [] then Err(ValueError)
    else Ok(1)
  }

  /** Giving both a path and a url, or neither, is refused whatever else is passed. */
  lemma PathUrlExclusive(path: Option<string>, url: Option<string>, depth: Option<int>, downExt: seq<string>)
    requires Truthy(path) == Truthy(url)
    ensures InitMode(path, url, depth, downExt) == Err(ValueError)
  {
  }

  // ---------------------------------------------------------------------
  // Direct downloads

  /** `url.lower().endswith(tuple(down_ext + compressed_ext))`. */
  predicate IsDirectDownload(url: string, downExt: seq<string>)
  {
    EndsWithAny(Lower(url), downExt + CompressedExt())
  }

  /** The file name of a direct download: the url's last `/`-segment, with
      `.zip` appended unless it already ends (case-sensitively) with one of
      the known extensions. */
  function DownloadFileName(url: string, downExt: seq<string>): (name: string)
    ensures '/' !in name
    ensures StartsWith(name, AfterLast(url, '/'))
    ensures EndsWithAny(name, downExt + CompressedExt())
    ensures name == AfterLast(url, '/') <==> EndsWithAny(AfterLast(url, '/'), downExt + CompressedExt())
  {
    var seg := AfterLast(url, '/');
    if EndsWithAny(seg, downExt + CompressedExt()) then seg
    else
      var name := seg + ".zip";
      assert EndsWith(name, (downExt + CompressedExt())[|downExt|]);
      assert name[..|seg|] == seg;
      name
  }

  /** A string without `/` is its own last segment. */
  lemma {:induction false} AfterLastNoSep(s: string)
    requires '/' !in s
    ensures AfterLast(s, '/') == s
  {
    if s != [] {
      assert s[..|s| - 1] + [s[|s| - 1]] == s;
      assert '/' in s[..|s| - 1] ==> '/' in s;
      AfterLastNoSep(s[..|s| - 1]);
    }
  }

  /** Naming a download by its own file name changes nothing. */
  lemma DownloadFileNameIdempotent(url: string, downExt: seq<string>)
    ensures DownloadFileName(DownloadFileName(url, downExt), downExt) == DownloadFileName(url, downExt)
  {
    AfterLastNoSep(DownloadFileName(url, downExt));
  }

  /** Detection lowercases the url but the extension test on the file name
      does not: a url whose last segment ends with an upper-case archive
      extension, and with none of the listed extensions, is detected as a
      direct download and then named with `.zip` appended. */
  lemma UpperCaseArchiveGetsSuffix(url: string, downExt: seq<string>, k: nat)
    requires k < |CompressedExt()|
    requires EndsWith(AfterLast(url, '/'), Upper(CompressedExt()[k]))
    requires !EndsWithAny(AfterLast(url, '/'), downExt)
    ensures IsDirectDownload(url, downExt)
    ensures DownloadFileName(url, downExt) == AfterLast(url, '/') + ".zip"
  {
    UpperArchiveDetected(url, downExt, k);
    UpperArchiveNamed(url, downExt, k);
  }

  lemma UpperArchiveDetected(url: string, downExt: seq<string>, k: nat)
    requires k < |CompressedExt()|
    requires EndsWith(AfterLast(url, '/'), Upper(CompressedExt()[k]))
    ensures IsDirectDownload(url, downExt)
  {
    var exts := downExt + CompressedExt();
    var ext := CompressedExt()[k];
    CompressedExtAt(k);
    EndsWithTrans(url, AfterLast(url, '/'), Upper(ext));
    LowerEndsWith(url, Upper(ext));
    LowerUpper(ext);
    assert exts[|downExt| + k] == ext;
  }

  lemma UpperArchiveNamed(url: string, downExt: seq<string>, k: nat)
    requires k < |CompressedExt()|
    requires EndsWith(AfterLast(url, '/'), Upper(CompressedExt()[k]))
    requires !EndsWithAny(AfterLast(url, '/'), downExt)
    ensures DownloadFileName(url, downExt) == AfterLast(url, '/') + ".zip"
  {
    var seg := AfterLast(url, '/');
    var exts := downExt + CompressedExt();
    UpperSegmentNoArchive(seg, k);
    forall j | 0 <= j < |exts| ensures !EndsWith(seg, exts[j]) {
      if j >= |downExt| {
        assert exts[j] == CompressedExt()[j - |downExt|];
      } else {
        assert exts[j] == downExt[j];
      }
    }
    assert !EndsWithAny(seg, exts);
  }

  /** A name ending with an upper-cased archive extension ends with none of
      the (lower-case) archive extensions. */
  lemma UpperSegmentNoArchive(seg: string, k: nat)
    requires k < |CompressedExt()|
    requires EndsWith(seg, Upper(CompressedExt()[k]))
    ensures forall m :: 0 <= m < |CompressedExt()| ==> !EndsWith(seg, CompressedExt()[m])
  {
    var ext := CompressedExt()[k];
    CompressedExtAt(k);
    forall m | 0 <= m < |CompressedExt()| ensures !EndsWith(seg, CompressedExt()[m]) {
      CompressedExtAt(m);
      UpperEndNotLower(seg, ext, CompressedExt()[m]);
    }
  }

  lemma EndsWithTrans(s: string, t: string, u: string)
    requires EndsWith(s, t) && EndsWith(t, u)
    ensures EndsWith(s, u)
  {
    assert s[|s| - |u|..] == t[|t| - |u|..];
  }

  lemma LowerEndsWith(s: string, u: string)
    requires EndsWith(s, u)
    ensures EndsWith(Lower(s), Lower(u))
  {
    assert Lower(s)[|s| - |u|..] == Lower(u);
  }

  /** Upper-casing a string without upper-case letters and lower-casing it
      again gives it back. */
  lemma LowerUpper(e: string)
    requires forall i :: 0 <= i < |e| ==> !('A' <= e[i] <= 'Z')
    ensures Lower(Upper(e)) == e
  {
  }

  /** A string ending with an upper-cased word that ends in a letter does
      not end with a word that ends in a lower-case letter. */
  lemma UpperEndNotLower(s: string, e: string, c: string)
    requires EndsWith(s, Upper(e)) && e != [] && 'a' <= e[|e| - 1] <= 'z'
    requires c != [] && 'a' <= c[|c| - 1] <= 'z'
    ensures !EndsWith(s, c)
  {
    assert s[|s| - 1] == s[|s| - |e|..][|e| - 1] == Upper(e)[|e| - 1];
  }

  /** The known archive extensions are lower-case and end with a letter. */
  lemma CompressedExtAt(k: nat)
    requires k < |CompressedExt()|
    ensures |CompressedExt()[k]| >= 2
    ensures 'a' <= CompressedExt()[k][|CompressedExt()[k]| - 1] <= 'z'
    ensures forall i :: 0 <= i < |CompressedExt()[k]| ==> !('A' <= CompressedExt()[k][i] <= 'Z')
  {
  }

  /** The download `h/D.ZIP` is saved as `D.ZIP.zip`. */
  lemma UpperCaseArchiveExample()
    ensures IsDirectDownload("h/D.ZIP", [])
    ensures DownloadFileName("h/D.ZIP", []) == "D.ZIP.zip"
  {
    UpperUrlSegment();
    assert Upper(CompressedExt()[0]) == ".ZIP";
    UpperCaseArchiveGetsSuffix("h/D.ZIP", [], 0);
  }

  /** The last segment of the url is `D.ZIP`. */
  lemma UpperUrlSegment()
    ensures AfterLast("h/D.ZIP", '/') == "D.ZIP"
  {
    var url := "h/D.ZIP";
    var r := AfterLast(url, '/');
    assert url[1] == '/';
    assert |r| == 5;
    assert r == url[2..];
  }

  // ---------------------------------------------------------------------
  // Local mode: the order in which extensions are searched

  /** The first occurrences of the elements of `xs` that are not in `excluded`. */
  function FirstOccurrences(xs: seq<string>, excluded: set<string>): (r: seq<string>)
    ensures Tables.Distinct(r)
    ensures SetOf(r) == SetOf(xs) - excluded
    decreases |xs|
  {
    if xs == [] then []
    else if xs[0] in excluded then
      assert SetOf(xs) == {xs[0]} + SetOf(xs[1..]);
      FirstOccurrences(xs[1..], excluded)
    else
      var rest := FirstOccurrences(xs[1..], excluded + {xs[0]});
      assert SetOf(xs) == {xs[0]} + SetOf(xs[1..]);
      assert xs[0] !in SetOf(rest);
      assert SetOf([xs[0]] + rest) == {xs[0]} + SetOf(rest);
      Tables.DistinctConcat([xs[0]], rest);
      [xs[0]] + rest
  }

  /** Two sequences without repetitions, the first inside `inside` and the
      second outside it, concatenate to one where every element of `inside`
      comes before every other element. */
  lemma {:induction false} InsideFirst(a: seq<string>, b: seq<string>, inside: set<string>)
    requires Tables.Distinct(a) && Tables.Distinct(b)
    requires SetOf(a) <= inside && SetOf(b) !! inside
    ensures Tables.Distinct(a + b)
    ensures forall i, j :: 0 <= i < j < |a + b| && (a + b)[j] in inside ==> (a + b)[i] in inside
  {
    assert forall x :: x in b ==> x in SetOf(b);
    assert forall x :: x in a ==> x in SetOf(a);
    Tables.DistinctConcat(a, b);
    forall i, j | 0 <= i < j < |a + b| && (a + b)[j] in inside ensures (a + b)[i] in inside {
      assert (a + b)[i] == a[i] && a[i] in SetOf(a);
    }
  }

  /** `list(compressed ∩ down_ext) + list(set(down_ext) - compressed)`.
      Python enumerates a set of strings in hash order; the model takes the
      archive extensions in their listed order and the others in order of
      first appearance. */
  function SearchOrder(downExt: seq<string>): (r: seq<string>)
    ensures Tables.Distinct(r)
    ensures SetOf(r) == SetOf(downExt)
    ensures forall i, j :: 0 <= i < j < |r| && r[j] in SetOf(CompressedExt()) ==> r[i] in SetOf(CompressedExt())
  {
    var archiveSet := SetOf(CompressedExt());
    var archives := FirstOccurrences(CompressedExt(), archiveSet - SetOf(downExt));
    var others := FirstOccurrences(downExt, archiveSet);
    InsideFirst(archives, others, archiveSet);
    assert SetOf(archives + others) == SetOf(archives) + SetOf(others);
    archives + others
  }

  // ---------------------------------------------------------------------
  // Paths as pathlib sees them

  type PathParts = seq<string>

  /** The components of a `/`-separated path, empty and `.` ones dropped. */
  function Components(s: string): (r: seq<string>)
    ensures forall i :: 0 <= i < |r| ==> '/' !in r[i] && r[i] != "" && r[i] != "."
    decreases |s|
  {
    if s == [] then []
    else
      var last := AfterLast(s, '/');
      var init := if |last| < |s| then s[..|s| - |last| - 1] else [];
      Components(init) + (if last == "" || last == "." then [] else [last])
  }

  /** `Path(s).parts` for a POSIX path: the root `/` and then the components. */
  function Parts(s: string): PathParts
  {
    (if s != [] && s[0] == '/' then ["/"] else []) + Components(s)
  }

  predicate Absolute(p: PathParts)
  {
    p != [] && p[0] == "/"
  }

  /** `t in p.parents`: a proper prefix of `p`, and for an absolute `p` at
      least its root (the empty path `.` is a parent of relative paths only). */
  predicate ParentOf(t: PathParts, p: PathParts)
  {
    |t| < |p| && t == p[..|t|] && (Absolute(p) ==> |t| >= 1)
  }

  /** `any(target == p or target in p.parents for p in protected)`. */
  predicate IsProtected(target: PathParts, protectedPaths: seq<PathParts>)
  {
    exists i :: 0 <= i < |protectedPaths| && (target == protectedPaths[i] || ParentOf(target, protectedPaths[i]))
  }

  /** The root is refused as soon as one protected path is absolute, whether
      or not `/` itself is listed. */
  lemma RootAlwaysProtected(protectedPaths: seq<PathParts>, i: int)
    requires 0 <= i < |protectedPaths| && Absolute(protectedPaths[i])
    ensures IsProtected(["/"], protectedPaths)
  {
    var p := protectedPaths[i];
    if |p| > 1 {
      assert p[..1] == ["/"];
      assert ParentOf(["/"], p);
    } else {
      assert p == ["/"];
    }
  }

  /** Only a protected path or one of its ancestors is refused: a folder
      deeper than every protected path may be deleted. */
  lemma DeeperPathsNotProtected(target: PathParts, protectedPaths: seq<PathParts>)
    requires forall i :: 0 <= i < |protectedPaths| ==> |protectedPaths[i]| < |target|
    ensures !IsProtected(target, protectedPaths)
  {
  }

  /** An ancestor of a protected folder is refused. */
  lemma AncestorProtected(target: PathParts, protectedPaths: seq<PathParts>, i: int, n: int)
    requires 0 <= i < |protectedPaths| && 1 <= n <= |protectedPaths[i]|
    requires target == protectedPaths[i][..n]
    ensures IsProtected(target, protectedPaths)
  {
    if n < |protectedPaths[i]| {
      assert ParentOf(target, protectedPaths[i]);
    } else {
      assert target == protectedPaths[i];
    }
  }

  /** The file system as `delete_download_folder` observes it. */
  datatype FileSystem = FileSystem(existing: set<PathParts>, directories: set<PathParts>, removable: bool)

  class Extractor {
    var compressedExt: seq<string>
    var url: Option<string>
    var depth: Option<int>
    var downExt: seq<string>
    var keyWords: seq<string>
    var path: Option<string>
    var mode: int
    var downloadDir: string

    /** The field assignments before the checks; `defaultDir` is the
        platform data directory used when no download directory is given. */
    constructor Fields(path: Option<string>, url: Option<string>, depth: Option<int>, downExt: Option<seq<string>>,
                       downloadDir: Option<string>, keyWords: Option<seq<string>>, defaultDir: string)
      ensures this.compressedExt == CompressedExt()
      ensures this.url == url && this.depth == depth && this.path == path && this.mode == -1
      ensures this.downExt == OrEmpty(downExt) && this.keyWords == OrEmpty(keyWords)
      ensures this.downloadDir == (if Truthy(downloadDir) then downloadDir.value else defaultDir)
    {
      compressedExt := CompressedExt();
      this.url := url;
      this.depth := depth;
      this.downExt := OrEmpty(downExt);
      this.keyWords := OrEmpty(keyWords);
      this.path := path;
      mode := -1;
      this.downloadDir := if Truthy(downloadDir) then downloadDir.value else defaultDir;
    }

    /** `Extractor(...)`: an extractor in mode 0 (url) or 1 (path), or the
        ValueError the checks raise. */
    static method New(path: Option<string>, url: Option<string>, depth: Option<int>, downExt: Option<seq<string>>,
                      downloadDir: Option<string>, keyWords: Option<seq<string>>, defaultDir: string)
      returns (r: Result<Extractor>)
      ensures r.Err? <==> InitMode(path, url, depth, OrEmpty(downExt)).Err?
      ensures r.Err? ==> r.error == ValueError
      ensures r.Ok? ==> fresh(r.value) && r.value.mode == InitMode(path, url, depth, OrEmpty(downExt)).value
      ensures r.Ok? ==> r.value.url == url && r.value.path == path && r.value.depth == depth
      ensures r.Ok? ==> r.value.downExt == OrEmpty(downExt) && r.value.keyWords == OrEmpty(keyWords)
      ensures r.Ok? ==> r.value.compressedExt == CompressedExt()
      ensures r.Ok? ==> r.value.downloadDir == (if Truthy(downloadDir) then downloadDir.value else defaultDir)
    {
      var e := new Extractor.Fields(path, url, depth, downExt, downloadDir, keyWords, defaultDir);
      if Truthy(path) && Truthy(url) {
        return Err(ValueError);
      } else if !Truthy(path) && !Truthy(url) {
        return Err(ValueError);
      }
      if Truthy(url) {
        e.mode := 0;
        if depth.None? {
          return Err(ValueError);
        }
        if e.downExt == [] {
          return Err(ValueError);
        }
      } else {
        e.mode := 1;
        if e.downExt == [] {
          return Err(ValueError);
        }
      }
      return Ok(e);
    }

    /** `delete_download_folder`: whether the folder was deleted, or the
        error raised. `folderPath` defaults to the download directory;
        `protectedPaths` are the home, root, working and data directories. */
    method DeleteDownloadFolder(folderPath: Option<string>, fs: FileSystem, protectedPaths: seq<PathParts>)
      returns (r: Result<bool>)
      ensures var target := Parts(if Truthy(folderPath) then folderPath.value else downloadDir);
              && (target !in fs.existing <==> r == Ok(false))
              && (r == Ok(true) <==> target in fs.existing && target in fs.directories
                                     && !IsProtected(target, protectedPaths) && fs.removable)
              && (r.Err? && r.error == ValueError <==>
                    target in fs.existing && (target !in fs.directories || IsProtected(target, protectedPaths)))
              && (r.Err? ==> r.error in {ValueError, OSError})
    {
      var target := Parts(if Truthy(folderPath) then folderPath.value else downloadDir);
      if target !in fs.existing {
        return Ok(false);
      }
      if target !in fs.directories {
        return Err(ValueError);
      }
      if IsProtected(target, protectedPaths) {
        return Err(ValueError);
      }
      if !fs.removable {
        return Err(OSError);
      }
      return Ok(true);
    }
  }
}
