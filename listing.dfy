/** What the servers read back for one page: the latest commit's rows under
    the browsed path (`getLatestFiles`), the test that the path names a
    single file, the text/binary test on a blob, and the arithmetic of the
    commit-history pages (public/index.php, public/server.js). */
module Listing {
  import opened Text
  import opened Bytes
  import opened Wrappers
  import opened RepoTables
  import opened Organize
  import PhpGate

  /** SQLite's default `LIKE` folds the ASCII letters only. */
  function AsciiLower(c: char): char
  {
    if 'A' <= c <= 'Z' then (c as int + 32) as char else c
  }

  /** SQLite's `s LIKE pattern` with no ESCAPE clause and
      `case_sensitive_like` off: `%` matches any run of characters, `_`
      any one character, and every other character itself up to ASCII
      case. */
  predicate Like(s: string, pattern: string)
    decreases |s| + |pattern|
  {
    if pattern == [] then s == []
    else if pattern[0] == '%' then Like(s, pattern[1..]) || (s != [] && Like(s[1..], pattern))
    else s != [] && (pattern[0] == '_' || AsciiLower(s[0]) == AsciiLower(pattern[0]))
         && Like(s[1..], pattern[1..])
  }

  /** The row condition `filename LIKE 'path/%' OR filename = 'path'`. */
  predicate UnderPath(filename: string, path: string)
  {
    Like(filename, path + "/%") || filename == path
  }

  /** A pattern that ends in `%` matches every text that starts with the
      rest of the pattern written out literally. */
  lemma {:induction false} LikeOwnPrefix(x: string, rest: string)
    ensures Like(x + rest, x + "%")
    decreases |x| + |rest|
  {
    if x == [] {
      if rest != [] {
        LikeOwnPrefix(x, rest[1..]);
        assert (x + rest)[1..] == x + rest[1..];
      }
    } else if x[0] == '%' {
      LikeOwnPrefix(x[1..], rest);
      assert (x + "%")[1..] == x[1..] + "%";
      assert (x + rest)[1..] == x[1..] + rest;
      assert Like((x + rest)[1..], (x + "%")[1..]);
      LikeOwnPrefixStep(x, rest);
    } else {
      LikeOwnPrefix(x[1..], rest);
      assert (x + "%")[1..] == x[1..] + "%";
      assert (x + rest)[1..] == x[1..] + rest;
    }
  }

  /** With `%` first, matching the text after its first character against
      the rest of the pattern, while `%` takes that character, matches the text. */
  lemma LikeOwnPrefixStep(x: string, rest: string)
    requires x != [] && x[0] == '%'
    requires Like((x + rest)[1..], (x + "%")[1..])
    ensures Like(x + rest, x + "%")
  {
    var s, p := x + rest, x + "%";
    assert p[0] == '%' && s != [];
    assert Like(s[1..], p[1..]);
    assert Like(s[1..], p) by {
      assert Like(s[1..], p[1..]);
    }
  }

  /** A row that starts, character for character, with `path/` is at or
      below the path. */
  lemma StartsUnder(filename: string, path: string)
    requires StartsWith(filename, path + "/")
    ensures UnderPath(filename, path)
  {
    var x := path + "/";
    assert filename == x + filename[|x|..];
    LikeOwnPrefix(x, filename[|x|..]);
    assert x + "%" == path + "/%";
  }

  /** The filter ignores ASCII case: `Docs/a.txt` is listed under `docs`. */
  lemma LikeFoldsCase()
    ensures UnderPath("Docs/a.txt", "docs")
    ensures !StartsWith("Docs/a.txt", "docs/")
  {
    var s, p := "Docs/a.txt", "docs" + "/%";
    assert s[0] == 'D' && p[0] == 'd' && AsciiLower('D') == 'd';
    assert s[..5] != "docs/";
    StartsUnder(s[1..], "ocs");
    assert s[1..] == "ocs/a.txt" && p[1..] == "ocs" + "/%";
  }

  function Under(rows: seq<Entry>, path: string): seq<Entry>
  {
    if rows == [] then []
    else
      var last := rows[|rows| - 1];
      Under(rows[..|rows| - 1], path) + if UnderPath(last.filename, path) then [last] else []
  }

  /** public/index.php `getLatestFiles`: the filter applies when `$path`
      is true in PHP's sense. */
  function LatestFilesPhp(t: Tables, path: string): seq<Entry>
  {
    if PhpGate.Truthy(path) then Under(HeadRows(t), path) else HeadRows(t)
  }

  /** public/server.js `getLatestFiles`: the filter applies when
      `pathPrefix` is not empty. */
  function LatestFilesJs(t: Tables, path: string): seq<Entry>
  {
    if path != "" then Under(HeadRows(t), path) else HeadRows(t)
  }

  lemma {:induction false} UnderMembers(rows: seq<Entry>, path: string)
    ensures forall e :: e in Under(rows, path) <==> e in rows && UnderPath(e.filename, path)
  {
    if rows != [] {
      UnderMembers(rows[..|rows| - 1], path);
      assert rows == rows[..|rows| - 1] + [rows[|rows| - 1]];
    }
  }

  /** Both servers list rows of the latest commit only, all of them at the
      root, and under a path just those at or below it; nothing at all
      before the first commit. */
  lemma LatestFilesSpec(t: Tables, path: string)
    ensures forall e :: e in LatestFilesPhp(t, path) <==> e in HeadRows(t) && (PhpGate.Truthy(path) ==> UnderPath(e.filename, path))
    ensures forall e :: e in LatestFilesJs(t, path) <==> e in HeadRows(t) && (path != "" ==> UnderPath(e.filename, path))
    ensures t.commits == [] ==> LatestFilesPhp(t, path) == [] && LatestFilesJs(t, path) == []
  {
    UnderMembers(HeadRows(t), path);
    if t.commits == [] {
      assert HeadRows(t) == [];
    }
  }

  /** The first row named `name`. */
  function FirstNamed(rows: seq<Entry>, name: string): (r: Option<Entry>)
    ensures r.Some? ==> r.value in rows && r.value.filename == name
  {
    if rows == [] then None
    else if rows[0].filename == name then Some(rows[0])
    else FirstNamed(rows[1..], name)
  }

  /** None exactly when no row has the name; otherwise the row at the
      first index with it. */
  lemma {:induction false} FirstNamedSpec(rows: seq<Entry>, name: string)
    ensures FirstNamed(rows, name).None? <==> forall i :: 0 <= i < |rows| ==> rows[i].filename != name
    ensures FirstNamed(rows, name).Some? ==>
      exists i :: 0 <= i < |rows| && rows[i] == FirstNamed(rows, name).value
                  && forall k :: 0 <= k < i ==> rows[k].filename != name
  {
    if rows != [] && rows[0].filename != name {
      FirstNamedSpec(rows[1..], name);
      var r := FirstNamed(rows[1..], name);
      if r.Some? {
        var i :| 0 <= i < |rows[1..]| && rows[1..][i] == r.value && forall k :: 0 <= k < i ==> rows[1..][k].filename != name;
        assert rows[i + 1] == r.value;
        assert forall k :: 1 <= k < i + 1 ==> rows[k] == rows[1..][k - 1];
      } else {
        assert forall i :: 1 <= i < |rows| ==> rows[i] == rows[1..][i - 1];
      }
    }
  }

  /** Searching the filtered listing for a path under the filter finds the
      same row as searching the whole latest commit. */
  lemma {:induction false} FirstNamedUnder(rows: seq<Entry>, path: string, name: string)
    requires UnderPath(name, path)
    ensures FirstNamed(Under(rows, path), name) == FirstNamed(rows, name)
  {
    if rows != [] {
      var init, last := rows[..|rows| - 1], rows[|rows| - 1];
      FirstNamedUnder(init, path, name);
      FirstNamedAppend(init, [last], name);
      FirstNamedAppend(Under(init, path), if UnderPath(last.filename, path) then [last] else [], name);
      assert rows == init + [last];
    }
  }

  lemma {:induction false} FirstNamedAppend(a: seq<Entry>, b: seq<Entry>, name: string)
    ensures FirstNamed(a + b, name) == if FirstNamed(a, name).Some? then FirstNamed(a, name) else FirstNamed(b, name)
  {
    if a != [] {
      FirstNamedAppend(a[1..], b, name);
      assert (a + b)[0] == a[0] && (a + b)[1..] == a[1..] + b;
    } else {
      assert a + b == b;
    }
  }

  /** The `latestFiles.find(...)` of the Node delete and rename actions:
      the first row with the path, unless the path is a directory marker. */
  function FindTargetJs(files: seq<Entry>, targetPath: string): (r: Option<Entry>)
    ensures r.Some? ==> r.value in files && r.value.filename == targetPath && !MarkerJs(targetPath)
    ensures r.None? <==> MarkerJs(targetPath) || forall i :: 0 <= i < |files| ==> files[i].filename != targetPath
  {
    FirstNamedSpec(files, targetPath);
    if MarkerJs(targetPath) then None else FirstNamed(files, targetPath)
  }

  /** Because the filter ignores case, a row `A/x` beside a file `a` keeps
      both servers from showing `a` as a file. */
  lemma CaseVariantHidesFile(t: Tables, e: Entry, f: Entry)
    requires HeadRows(t) == [e, f] && e.filename == "a" && f.filename == "A/x"
    ensures !IsFilePhp(LatestFilesPhp(t, "a"), "a") && !IsFileJs(LatestFilesJs(t, "a"), "a")
  {
    assert [e, f][..1] == [e] && [e][..0] == [];
    assert f.filename[0] == 'A' && AsciiLower('A') == 'a';
    StartsUnder(f.filename[1..], "");
    assert f.filename[1..] == "/x" && ("a" + "/%")[1..] == "" + "/%";
    assert Like(f.filename, "a" + "/%");
    assert UnderPath(e.filename, "a") && UnderPath(f.filename, "a");
    assert Under([e], "a") == [e];
    assert Under([e, f], "a") == [e, f];
  }

  /** The single-file test of public/index.php. */
  predicate IsFilePhp(files: seq<Entry>, repoPath: string)
  {
    |files| == 1 && files[0].filename == repoPath
  }

  /** The single-file test of public/server.js, which also refuses a
      directory marker. */
  predicate IsFileJs(files: seq<Entry>, repoPath: string)
  {
    |files| == 1 && files[0].filename == repoPath && !MarkerJs(files[0].filename)
  }

  /** A browsed path counts as a file only when it is not a marker, the
      latest commit has a row with exactly that name, and no other row
      lies at or below it. */
  lemma IsFileJsSpec(t: Tables, path: string)
    requires path != ""
    ensures IsFileJs(LatestFilesJs(t, path), path) ==>
      !MarkerJs(path)
      && exists e :: e in HeadRows(t) && e.filename == path
                     && forall x :: x in HeadRows(t) && UnderPath(x.filename, path) ==> x == e
  {
    UnderMembers(HeadRows(t), path);
    var fs := LatestFilesJs(t, path);
    if IsFileJs(fs, path) {
      assert fs[0] in fs;
    }
  }

  /** Browsing a directory marker by its own path shows it as a file in
      PHP but not in Node. */
  lemma MarkerBrowsedAsFile(t: Tables, e: Entry)
    requires HeadRows(t) == [e] && MarkerJs(e.filename) && PhpGate.Truthy(e.filename)
    ensures IsFilePhp(LatestFilesPhp(t, e.filename), e.filename)
    ensures !IsFileJs(LatestFilesJs(t, e.filename), e.filename)
  {
    assert [e][..0] == [];
    assert Under([e], e.filename) == [e];
  }

  /** public/index.php `isTextFile`: "" and "0" are empty to PHP and count
      as text; otherwise text means no NUL byte. */
  function IsTextFile(content: seq<byte>): (r: bool)
    ensures r <==> 0 !in content
  {
    if content == [] || content == ['0' as byte] then true
    else 0 !in content
  }

  /** Commits listed per history page. */
  const PerPage: nat := 10

  /** `max(1, intval($_GET['page']))`, or 1 without the parameter. */
  function PageNumber(requested: Option<int>): (p: nat)
    ensures p >= 1
    ensures requested.Some? && requested.value >= 1 ==> p == requested.value
  {
    match requested
    case None => 1
    case Some(v) => if v > 1 then v else 1
  }

  /** `ceil($total / $per_page)`. */
  function TotalPages(total: nat): (n: nat)
    ensures n * PerPage >= total
    ensures n == 0 || (n - 1) * PerPage < total
  {
    (total + PerPage - 1) / PerPage
  }

  /** The commit ids on one page: `ORDER BY id DESC LIMIT 10 OFFSET
      (page-1)*10` over ids 1..total (commits are never deleted). */
  function PageIds(total: nat, page: nat): (ids: seq<nat>)
    requires page >= 1
    ensures |ids| <= PerPage
    ensures forall i :: 0 <= i < |ids| ==> 1 <= ids[i] <= total
    ensures forall i, j :: 0 <= i < j < |ids| ==> ids[i] > ids[j]
  {
    var offset := (page - 1) * PerPage;
    var n: nat := if offset >= total then 0 else if total - offset < PerPage then total - offset else PerPage;
    seq(n, i requires 0 <= i < n => total - offset - i)
  }

  /** Every commit appears on exactly one page: page (total - id) / 10 + 1. */
  lemma PageOf(total: nat, page: nat, id: nat)
    requires page >= 1 && 1 <= id <= total
    ensures id in PageIds(total, page) <==> page == (total - id) / PerPage + 1
  {
    var ids := PageIds(total, page);
    var offset := (page - 1) * PerPage;
    if page == (total - id) / PerPage + 1 {
      var i := total - id - offset;
      assert 0 <= i < PerPage;
      assert ids[i] == id;
    }
    if id in ids {
      var i :| 0 <= i < |ids| && ids[i] == id;
      assert total - id == offset + i;
      DivWithin(total - id, page - 1, i);
    }
  }

  lemma DivWithin(x: nat, q: nat, r: nat)
    requires r < PerPage && x == q * PerPage + r
    ensures x / PerPage == q
  {
  }

  /** A page has commits exactly when its number is at most the page
      count. */
  lemma PageNonEmpty(total: nat, page: nat)
    requires page >= 1
    ensures PageIds(total, page) != [] <==> page <= TotalPages(total)
  {
  }

  /** One line of the history: id, commit, and the number of rows it
      holds (`COUNT(f.id)` over the left join). */
  datatype LogLine = LogLine(id: nat, commit: CommitRow, fileCount: nat)

  /** The history page that shows commit `id`. */
  function PageFor(total: nat, id: nat): int
  {
    (total - id) / PerPage + 1
  }

  /** Page `page` shows exactly the commits `PageFor` assigns to it. */
  lemma PageIdsMembers(total: nat, page: nat)
    requires page >= 1
    ensures forall id :: 1 <= id <= total ==> (id in PageIds(total, page) <==> page == PageFor(total, id))
  {
    forall id | 1 <= id <= total
      ensures id in PageIds(total, page) <==> page == PageFor(total, id)
    {
      PageOf(total, page, id);
    }
  }

  /** A history page: at most ten lines, newest commit first, exactly the
      commits that belong on this page, each line with its commit and the
      number of rows stored under it. */
  function LogPage(t: Tables, page: nat): (lines: seq<LogLine>)
    requires page >= 1
    ensures |lines| <= PerPage
    ensures forall i, j :: 0 <= i < j < |lines| ==> lines[i].id > lines[j].id
    ensures forall id :: 1 <= id <= |t.commits| ==>
      ((exists i :: 0 <= i < |lines| && lines[i].id == id) <==> page == PageFor(|t.commits|, id))
    ensures forall i :: 0 <= i < |lines| ==>
      1 <= lines[i].id <= |t.commits| && lines[i].commit == t.commits[lines[i].id - 1]
      && lines[i].fileCount == |RowsOf(t.files, lines[i].id)|
  {
    var ids := PageIds(|t.commits|, page);
    PageIdsMembers(|t.commits|, page);
    var lines := seq(|ids|, i requires 0 <= i < |ids| => LogLine(ids[i], t.commits[ids[i] - 1], |RowsOf(t.files, ids[i])|));
    assert forall i :: 0 <= i < |lines| ==> lines[i].id == ids[i];
    lines
  }
}
