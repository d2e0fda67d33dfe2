/** `organizeFiles` of both servers (public/index.php, public/server.js):
    the rows of the latest commit become the listing of one directory, its
    sub-directories (named by the first segment of every deeper path, the
    first row seen giving the datetime) and its files (the rows directly in
    it, directory markers excepted). */
module Organize {
  import opened Text
  import opened RepoTables
  import PhpGate

  datatype Dir = Dir(name: string, path: string, datetime: string)

  datatype Organized = Organized(dirs: seq<Dir>, files: seq<Entry>)

  /** `/(^|\/)\.omidir$/` in JavaScript: the last segment is `.omidir`. */
  predicate MarkerJs(name: string)
  {
    name == ".omidir" || EndsWith(name, "/.omidir")
  }

  /** The same pattern under PCRE (`preg_match`), whose `$` also matches
      just before a final newline. */
  predicate MarkerPcre(name: string)
  {
    MarkerJs(name) || (name != [] && name[|name| - 1] == '\n' && MarkerJs(name[..|name| - 1]))
  }

  predicate Marker(name: string, pcre: bool)
  {
    if pcre then MarkerPcre(name) else MarkerJs(name)
  }

  /** Where a row lies relative to the browsed directory `base`; `scoped`
      is the truth value of `base` (PHP: neither "" nor "0"; JavaScript:
      not ""). */
  datatype Place = Outside | Self | Here | Below(dir: string)

  function PlaceOf(filename: string, base: string, scoped: bool): Place
  {
    if scoped && filename == base then Self
    else if scoped && !StartsWith(filename, base + "/") then Outside
    else
      var rel := if scoped then filename[|base| + 1..] else filename;
      var parts := Split(rel, '/');
      if |parts| > 1 then Below(parts[0]) else Here
  }

  /** The link of a sub-directory: `base/dir`, or `dir` at the root. */
  function DirPath(base: string, name: string, scoped: bool): string
  {
    if scoped then base + "/" + name else name
  }

  /** One directory record per row below a sub-directory, in row order. */
  function Candidates(files: seq<Entry>, base: string, scoped: bool): seq<Dir>
  {
    if files == [] then []
    else
      Candidates(files[..|files| - 1], base, scoped) + CandidateOf(files[|files| - 1], base, scoped)
  }

  /** The directory record a row below a sub-directory contributes. */
  function CandidateOf(e: Entry, base: string, scoped: bool): seq<Dir>
  {
    var p := PlaceOf(e.filename, base, scoped);
    if p.Below? then [Dir(p.dir, DirPath(base, p.dir, scoped), e.datetime)] else []
  }

  /** The rows the listing shows as files: the browsed path itself or a
      row directly inside it, and not a directory marker. */
  predicate IsListed(e: Entry, base: string, scoped: bool, pcre: bool)
  {
    (PlaceOf(e.filename, base, scoped).Self? || PlaceOf(e.filename, base, scoped).Here?)
    && !Marker(e.filename, pcre)
  }

  function Listed(files: seq<Entry>, base: string, scoped: bool, pcre: bool): seq<Entry>
  {
    if files == [] then []
    else
      var last := files[|files| - 1];
      Listed(files[..|files| - 1], base, scoped, pcre) + if IsListed(last, base, scoped, pcre) then [last] else []
  }

  function Names(ds: seq<Dir>): set<string>
  {
    set d | d in ds :: d.name
  }

  /** The records kept when each name is taken at its first appearance,
      and a name in `taken` is never taken. */
  function FirstByName(ds: seq<Dir>, taken: set<string>): seq<Dir>
  {
    if ds == [] then []
    else
      var kept := FirstByName(ds[..|ds| - 1], taken);
      var d := ds[|ds| - 1];
      if d.name in taken || d.name in Names(kept) then kept else kept + [d]
  }

  /** The names a plain JavaScript object already answers truthily through
      `Object.prototype`. */
  const ObjectPrototypeNames: set<string> := {
    "constructor", "toString", "toLocaleString", "valueOf", "hasOwnProperty", "isPrototypeOf",
    "propertyIsEnumerable", "__proto__", "__defineGetter__", "__defineSetter__",
    "__lookupGetter__", "__lookupSetter__"
  }

  /** The candidates of rows up to and including one more row. */
  lemma CandidatesStep(files: seq<Entry>, i: nat, base: string, scoped: bool)
    requires i < |files|
    ensures Candidates(files[..i + 1], base, scoped)
         == Candidates(files[..i], base, scoped) + CandidateOf(files[i], base, scoped)
  {
    assert files[..i + 1][..i] == files[..i];
  }

  lemma ListedStep(files: seq<Entry>, i: nat, base: string, scoped: bool, pcre: bool)
    requires i < |files|
    ensures Listed(files[..i + 1], base, scoped, pcre)
         == Listed(files[..i], base, scoped, pcre) + if IsListed(files[i], base, scoped, pcre) then [files[i]] else []
  {
    assert files[..i + 1][..i] == files[..i];
  }

  lemma FirstByNameStep(ds: seq<Dir>, d: Dir, taken: set<string>)
    ensures FirstByName(ds + [d], taken)
         == var kept := FirstByName(ds, taken);
            if d.name in taken || d.name in Names(kept) then kept else kept + [d]
  {
    assert (ds + [d])[..|ds|] == ds;
  }

  lemma FirstByNameNone(ds: seq<Dir>, taken: set<string>)
    ensures FirstByName(ds + [], taken) == FirstByName(ds, taken)
  {
    assert ds + [] == ds;
  }

  /** The listing the PHP server builds. */
  function OrganizedPhp(files: seq<Entry>, basePath: string): Organized
  {
    var scoped := PhpGate.Truthy(basePath);
    Organized(FirstByName(Candidates(files, basePath, scoped), {}), Listed(files, basePath, scoped, true))
  }

  /** The listing the Node server builds: its existence test
      `!result.dirs[dirName]` also finds the members every object inherits. */
  function OrganizedJs(files: seq<Entry>, basePath: string): Organized
  {
    var scoped := basePath != "";
    Organized(FirstByName(Candidates(files, basePath, scoped), ObjectPrototypeNames),
              Listed(files, basePath, scoped, false))
  }

  /** The Node listing with an own-key test: no name is taken in advance. */
  function OrganizedJsOwnKeys(files: seq<Entry>, basePath: string): Organized
  {
    var scoped := basePath != "";
    Organized(FirstByName(Candidates(files, basePath, scoped), {}), Listed(files, basePath, scoped, false))
  }

  /** public/index.php `organizeFiles`: the foreach over the rows, filling
      `$result['dirs']` (keyed by name, in insertion order) and
      `$result['files']`. */
  method OrganizeFilesPhp(files: seq<Entry>, basePath: string) returns (r: Organized)
    ensures r == OrganizedPhp(files, basePath)
  {
    var scoped := PhpGate.Truthy(basePath);
    var dirs: seq<Dir> := [];
    var found: seq<Entry> := [];
    for i := 0 to |files|
      invariant dirs == FirstByName(Candidates(files[..i], basePath, scoped), {})
      invariant found == Listed(files[..i], basePath, scoped, true)
    {
      var file := files[i];
      var filename := file.filename;
      var isDirMarker := MarkerPcre(filename);
      CandidatesStep(files, i, basePath, scoped);
      ListedStep(files, i, basePath, scoped, true);
      if scoped && !StartsWith(filename, basePath + "/") && filename != basePath {
        FirstByNameNone(Candidates(files[..i], basePath, scoped), {});
      } else if scoped && filename == basePath {
        FirstByNameNone(Candidates(files[..i], basePath, scoped), {});
        if !isDirMarker {
          found := found + [file];
        }
      } else {
        var relativePath := if scoped then filename[|basePath| + 1..] else filename;
        var parts := Split(relativePath, '/');
        if |parts| > 1 {
          var dirName := parts[0];
          FirstByNameStep(Candidates(files[..i], basePath, scoped), Dir(dirName, DirPath(basePath, dirName, scoped), file.datetime), {});
          if dirName !in Names(dirs) {
            dirs := dirs + [Dir(dirName, if scoped then basePath + "/" + dirName else dirName, file.datetime)];
          }
        } else {
          FirstByNameNone(Candidates(files[..i], basePath, scoped), {});
          if !isDirMarker {
            found := found + [file];
          }
        }
      }
    }
    assert files[..|files|] == files;
    r := Organized(dirs, found);
  }

  /** public/server.js `organizeFiles`: the same loop over `result.dirs`, a
      plain object, and `result.files`. */
  method OrganizeFilesJs(files: seq<Entry>, basePath: string) returns (r: Organized)
    ensures r == OrganizedJs(files, basePath)
  {
    var scoped := basePath != "";
    var dirs: seq<Dir> := [];
    var found: seq<Entry> := [];
    for i := 0 to |files|
      invariant dirs == FirstByName(Candidates(files[..i], basePath, scoped), ObjectPrototypeNames)
      invariant found == Listed(files[..i], basePath, scoped, false)
    {
      var file := files[i];
      var filename := file.filename;
      var isDirMarker := MarkerJs(filename);
      CandidatesStep(files, i, basePath, scoped);
      ListedStep(files, i, basePath, scoped, false);
      if scoped && !StartsWith(filename, basePath + "/") && filename != basePath {
        FirstByNameNone(Candidates(files[..i], basePath, scoped), ObjectPrototypeNames);
      } else if scoped && filename == basePath {
        FirstByNameNone(Candidates(files[..i], basePath, scoped), ObjectPrototypeNames);
        if !isDirMarker {
          found := found + [file];
        }
      } else {
        var relativePath := if scoped then filename[|basePath| + 1..] else filename;
        var parts := Split(relativePath, '/');
        if |parts| > 1 {
          var dirName := parts[0];
          FirstByNameStep(Candidates(files[..i], basePath, scoped), Dir(dirName, DirPath(basePath, dirName, scoped), file.datetime),
                          ObjectPrototypeNames);
          if !(dirName in Names(dirs) || dirName in ObjectPrototypeNames) {
            dirs := dirs + [Dir(dirName, if scoped then basePath + "/" + dirName else dirName, file.datetime)];
          }
        } else {
          FirstByNameNone(Candidates(files[..i], basePath, scoped), ObjectPrototypeNames);
          if !isDirMarker {
            found := found + [file];
          }
        }
      }
    }
    assert files[..|files|] == files;
    r := Organized(dirs, found);
  }

  /** The Node loop with `Object.hasOwn(result.dirs, dirName)` as the test. */
  method OrganizeFilesJsOwnKeys(files: seq<Entry>, basePath: string) returns (r: Organized)
    ensures r == OrganizedJsOwnKeys(files, basePath)
  {
    var scoped := basePath != "";
    var dirs: seq<Dir> := [];
    var found: seq<Entry> := [];
    for i := 0 to |files|
      invariant dirs == FirstByName(Candidates(files[..i], basePath, scoped), {})
      invariant found == Listed(files[..i], basePath, scoped, false)
    {
      var file := files[i];
      var filename := file.filename;
      var isDirMarker := MarkerJs(filename);
      CandidatesStep(files, i, basePath, scoped);
      ListedStep(files, i, basePath, scoped, false);
      if scoped && !StartsWith(filename, basePath + "/") && filename != basePath {
        FirstByNameNone(Candidates(files[..i], basePath, scoped), {});
      } else if scoped && filename == basePath {
        FirstByNameNone(Candidates(files[..i], basePath, scoped), {});
        if !isDirMarker {
          found := found + [file];
        }
      } else {
        var relativePath := if scoped then filename[|basePath| + 1..] else filename;
        var parts := Split(relativePath, '/');
        if |parts| > 1 {
          var dirName := parts[0];
          FirstByNameStep(Candidates(files[..i], basePath, scoped), Dir(dirName, DirPath(basePath, dirName, scoped), file.datetime), {});
          if dirName !in Names(dirs) {
            dirs := dirs + [Dir(dirName, if scoped then basePath + "/" + dirName else dirName, file.datetime)];
          }
        } else {
          FirstByNameNone(Candidates(files[..i], basePath, scoped), {});
          if !isDirMarker {
            found := found + [file];
          }
        }
      }
    }
    assert files[..|files|] == files;
    r := Organized(dirs, found);
  }

  /** The kept records have pairwise distinct names, none of them taken,
      and each is one of the candidates. */
  lemma {:induction false} FirstByNameDistinct(ds: seq<Dir>, taken: set<string>)
    ensures var r := FirstByName(ds, taken);
      (forall i, j :: 0 <= i < j < |r| ==> r[i].name != r[j].name)
      && (forall d :: d in r ==> d in ds && d.name !in taken)
  {
    if ds != [] {
      var init := ds[..|ds| - 1];
      FirstByNameDistinct(init, taken);
      var kept := FirstByName(init, taken);
      var d := ds[|ds| - 1];
      forall i | 0 <= i < |kept|
        ensures kept[i].name in Names(kept)
      {
        assert kept[i] in kept;
      }
    }
  }

  /** Every candidate's name, unless taken, is among the kept names. */
  lemma {:induction false} FirstByNameComplete(ds: seq<Dir>, taken: set<string>)
    ensures forall i :: 0 <= i < |ds| && ds[i].name !in taken ==> ds[i].name in Names(FirstByName(ds, taken))
  {
    if ds != [] {
      var init := ds[..|ds| - 1];
      FirstByNameComplete(init, taken);
      var kept := FirstByName(init, taken);
      var d := ds[|ds| - 1];
      assert d in kept + [d];
      assert Names(kept) <= Names(kept + [d]);
    }
  }

  /** Each kept record is the first candidate with its name. */
  lemma {:induction false} FirstByNameFirst(ds: seq<Dir>, taken: set<string>)
    ensures forall d :: d in FirstByName(ds, taken) ==>
      exists j :: 0 <= j < |ds| && ds[j] == d && forall k :: 0 <= k < j ==> ds[k].name != d.name
  {
    if ds != [] {
      var init := ds[..|ds| - 1];
      FirstByNameFirst(init, taken);
      FirstByNameComplete(init, taken);
      var kept := FirstByName(init, taken);
      var last := ds[|ds| - 1];
      forall d | d in FirstByName(ds, taken)
        ensures exists j :: 0 <= j < |ds| && ds[j] == d && forall k :: 0 <= k < j ==> ds[k].name != d.name
      {
        if d in kept {
          var j :| 0 <= j < |init| && init[j] == d && forall k :: 0 <= k < j ==> init[k].name != d.name;
          assert ds[j] == d;
        } else {
          assert d == last && d.name !in Names(kept) && d.name !in taken;
          assert forall k :: 0 <= k < |init| ==> init[k].name != d.name;
          assert ds[|ds| - 1] == d;
        }
      }
    }
  }

  /** Each candidate comes from one row below a sub-directory, and every
      such row gives one. */
  lemma {:induction false} CandidatesMembers(files: seq<Entry>, base: string, scoped: bool)
    ensures forall d :: d in Candidates(files, base, scoped) ==>
      exists i :: 0 <= i < |files| && CandidateOf(files[i], base, scoped) == [d]
    ensures forall i :: 0 <= i < |files| && PlaceOf(files[i].filename, base, scoped).Below? ==>
      CandidateOf(files[i], base, scoped)[0] in Candidates(files, base, scoped)
  {
    if files != [] {
      var init := files[..|files| - 1];
      CandidatesMembers(init, base, scoped);
      assert forall i :: 0 <= i < |init| ==> files[i] == init[i];
    }
  }

  /** A row lies below sub-directory `n` exactly when `n` is one segment
      with no `/` and the row's name continues the directory's link with
      a `/`. */
  lemma BelowMeans(filename: string, base: string, scoped: bool, n: string)
    ensures PlaceOf(filename, base, scoped) == Below(n)
       <==> '/' !in n && StartsWith(filename, DirPath(base, n, scoped) + "/")
  {
    var pre := if scoped then base + "/" else "";
    if StartsWith(filename, pre) && !(scoped && filename == base) {
      var rel := filename[|pre|..];
      assert filename == pre + rel;
      assert DirPath(base, n, scoped) + "/" == pre + n + "/";
      RelativeBelow(rel, n);
      PrefixThenRest(pre, rel, n + "/");
    } else if scoped && filename == base {
      assert !StartsWith(filename, DirPath(base, n, scoped) + "/");
    } else {
      assert DirPath(base, n, scoped) + "/" == pre + n + "/";
      assert !StartsWith(filename, pre + n + "/");
    }
  }

  lemma PrefixThenRest(pre: string, rel: string, q: string)
    ensures StartsWith(pre + rel, pre + q) <==> StartsWith(rel, q)
  {
    if StartsWith(rel, q) {
      assert (pre + rel)[..|pre + q|] == pre + rel[..|q|];
    }
    if StartsWith(pre + rel, pre + q) {
      assert rel[..|q|] == (pre + rel)[..|pre + q|][|pre|..];
    }
  }

  /** Splitting a relative path on `/` gives at least two pieces, the first
      being `n`, exactly when the path starts with `n/` and `n` has no `/`. */
  lemma RelativeBelow(rel: string, n: string)
    ensures (|Split(rel, '/')| > 1 && Split(rel, '/')[0] == n) <==> ('/' !in n && StartsWith(rel, n + "/"))
  {
    var parts := Split(rel, '/');
    SplitPieces(rel, '/');
    if |parts| > 1 && parts[0] == n {
      assert Join(parts, "/") == parts[0] + "/" + Join(parts[1..], "/");
      assert rel == n + "/" + Join(parts[1..], "/");
      assert rel[..|n + "/"|] == n + "/";
    }
    if '/' !in n && StartsWith(rel, n + "/") {
      var rest := rel[|n| + 1..];
      assert rel == n + ['/'] + rest;
      SplitAppend(n, rest, '/');
    }
  }

  /** The sub-directories of a listing: pairwise distinct names, none
      taken in advance; each one has a row below it, a link `base/name`,
      and is the record of the first such row; every sub-directory with a
      row below it is listed unless its name is taken. */
  lemma DirsSpec(files: seq<Entry>, base: string, scoped: bool, taken: set<string>)
    ensures var dirs := FirstByName(Candidates(files, base, scoped), taken);
      (forall i, j :: 0 <= i < j < |dirs| ==> dirs[i].name != dirs[j].name)
      && (forall d :: d in dirs ==>
            d.name !in taken && d.path == DirPath(base, d.name, scoped)
            && exists i :: 0 <= i < |files| && PlaceOf(files[i].filename, base, scoped) == Below(d.name)
                           && d.datetime == files[i].datetime)
      && (forall i :: 0 <= i < |files| && PlaceOf(files[i].filename, base, scoped).Below?
            && PlaceOf(files[i].filename, base, scoped).dir !in taken
            ==> PlaceOf(files[i].filename, base, scoped).dir in Names(dirs))
  {
    var cs := Candidates(files, base, scoped);
    FirstByNameDistinct(cs, taken);
    FirstByNameComplete(cs, taken);
    CandidatesMembers(files, base, scoped);
    forall i | 0 <= i < |files| && PlaceOf(files[i].filename, base, scoped).Below?
      ensures exists k :: 0 <= k < |cs| && cs[k].name == PlaceOf(files[i].filename, base, scoped).dir
    {
      var c := CandidateOf(files[i], base, scoped)[0];
      var k :| 0 <= k < |cs| && cs[k] == c;
    }
  }

  /** The files of a listing are exactly the rows at or directly inside
      the browsed path that are not directory markers, in row order. */
  lemma {:induction false} ListedMembers(files: seq<Entry>, base: string, scoped: bool, pcre: bool)
    ensures forall e :: e in Listed(files, base, scoped, pcre) <==> e in files && IsListed(e, base, scoped, pcre)
  {
    if files != [] {
      var init := files[..|files| - 1];
      ListedMembers(init, base, scoped, pcre);
      assert files == init + [files[|files| - 1]];
    }
  }

  /** A row below a sub-directory gives that sub-directory a record unless
      its name is taken, and is itself never listed as a file. */
  lemma BelowRowListed(files: seq<Entry>, base: string, scoped: bool, pcre: bool, taken: set<string>,
                       i: nat, name: string)
    requires i < |files| && PlaceOf(files[i].filename, base, scoped) == Below(name)
    ensures name in Names(FirstByName(Candidates(files, base, scoped), taken)) <==> name !in taken
    ensures forall x :: x in Listed(files, base, scoped, pcre) ==> x.filename != files[i].filename
  {
    DirsSpec(files, base, scoped, taken);
    ListedMembers(files, base, scoped, pcre);
  }

  /** Marker rows never appear among the files, under either pattern. */
  lemma NoMarkerListed(files: seq<Entry>, base: string, scoped: bool, pcre: bool)
    ensures forall e :: e in Listed(files, base, scoped, pcre) ==> !MarkerJs(e.filename)
  {
    ListedMembers(files, base, scoped, pcre);
  }

  /** The Node server never lists a sub-directory named after a member of
      `Object.prototype`: its rows vanish from the listing. */
  lemma ConstructorDirLost(n: string, rest: string, h: string, dt: string)
    requires n in ObjectPrototypeNames && '/' !in n
    ensures var files := [Entry(n + "/" + rest, h, dt)];
      OrganizedJs(files, "").dirs == [] && OrganizedJs(files, "").files == []
      && OrganizedPhp(files, "").dirs == [Dir(n, n, dt)]
  {
    var f := n + "/" + rest;
    var files := [Entry(f, h, dt)];
    var d := Dir(n, n, dt);
    assert f[..|n + "/"|] == n + "/";
    BelowMeans(f, "", false, n);
    assert files[..0] == [];
    assert !IsListed(files[0], "", false, false);
    assert Listed(files, "", false, false) == [];
    assert Candidates(files, "", false) == [d];
    FirstByNameStep([], d, ObjectPrototypeNames);
    FirstByNameStep([], d, {});
    assert [] + [d] == [d];
    assert Names([]) == {};
  }

  /** With the own-key test every sub-directory is listed: the corrected
      Node listing agrees with the PHP one at every browsed path PHP and
      Node both treat as scoped, apart from the marker pattern. */
  lemma OwnKeysComplete(files: seq<Entry>, basePath: string)
    ensures forall i :: 0 <= i < |files| && PlaceOf(files[i].filename, basePath, basePath != "").Below? ==>
      PlaceOf(files[i].filename, basePath, basePath != "").dir in Names(OrganizedJsOwnKeys(files, basePath).dirs)
    ensures PhpGate.Truthy(basePath) ==> OrganizedJsOwnKeys(files, basePath).dirs == OrganizedPhp(files, basePath).dirs
  {
    DirsSpec(files, basePath, basePath != "", {});
  }
}
