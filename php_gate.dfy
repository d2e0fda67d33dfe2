/** The name gates of the PHP server (public/index.php): repository-name
    sanitizing, repository-name validation on creation, and the cleaning of
    single-name form fields. */
module PhpGate {
  import opened Text
  import opened RepoNames
  import opened Wrappers

  /** The characters PHP `trim` strips by default: space, tab, newline,
      carriage return, NUL and vertical tab. */
  const PhpTrimChars: set<char> := {' ', '\t', '\n', '\r', '\0', '\U{B}'}

  /** The truth value PHP gives a string: only "" and "0" are false. */
  predicate Truthy(s: string)
  {
    s != "" && s != "0"
  }

  /** `sanitizeRepoName`. The single-quoted `'\0'` in the source is the two
      characters backslash and zero, not NUL. */
  function SanitizeRepoName(name: string): (r: string)
    ensures AllAllowed(r)
    ensures '/' !in r && '\\' !in r && '\0' !in r
  {
    var r := KeepOnly(BaseName(StripTraversal(name)), AllowedNameChar);
    AllowedExcludesSeparators(r);
    r
  }

  /** The first step of `sanitizeRepoName`: remove `../`, `..\`, and the
      text backslash-zero, each over the result of the previous. */
  function StripTraversal(name: string): string
  {
    ReplaceAll(ReplaceAll(ReplaceAll(name, "../", ""), "..\\", ""), "\\0", "")
  }

  /** Sanitizing is idempotent: a sanitized name passes the gate unchanged. */
  lemma SanitizeIdempotent(name: string)
    ensures SanitizeRepoName(SanitizeRepoName(name)) == SanitizeRepoName(name)
  {
    var r := SanitizeRepoName(name);
    ReplaceAllAbsent(r, "../", "", '/');
    ReplaceAllAbsent(r, "..\\", "", '\\');
    ReplaceAllAbsent(r, "\\0", "", '\\');
    assert StripTrailing(r, '/') == r;
    assert BaseName(r) == r;
    KeepOnlyKeepsKept(r, AllowedNameChar);
  }

  /** The strip step removes the two-character text backslash-zero. */
  lemma BackslashZeroRemoved(s: string)
    requires s == "a\\0b"
    ensures SanitizeRepoName(s) == "ab"
  {
    BackslashZeroStripped(s);
    NameKept(s, "ab");
  }

  lemma BackslashZeroStripped(s: string)
    requires s == "a\\0b"
    ensures StripTraversal(s) == "ab"
  {
    ReplaceAllAbsent(s, "../", "", '/');
    ReplaceAllAbsent(s, "..\\", "", '.');
    assert ReplaceAll("b", "\\0", "") == "b";
    assert ("\\0b")[..2] == "\\0" && ("\\0b")[2..] == "b";
    assert ReplaceAll("\\0b", "\\0", "") == "b";
    assert s[..2] != "\\0" && s[1..] == "\\0b";
  }

  /** A name whose stripped form is a plain allowed name is kept as it is. */
  lemma NameKept(s: string, t: string)
    requires StripTraversal(s) == t && '/' !in t
    requires AllAllowed(t)
    ensures SanitizeRepoName(s) == t
  {
    assert StripTrailing(t, '/') == t;
    assert BaseName(t) == t;
    KeepOnlyKeepsKept(t, AllowedNameChar);
  }

  /** A traversal name such as `../../etc/passwd` is not refused but
      reduced to its last component. */
  lemma TraversalReduced(dir: string, file: string)
    requires AllAllowed(dir) && AllAllowed(file) && file != []
    requires '.' !in dir && '.' !in file
    ensures SanitizeRepoName("../" + ("../" + (dir + "/" + file))) == file
  {
    AllowedExcludesSeparators(dir);
    AllowedExcludesSeparators(file);
    TraversalStripped(dir + "/" + file);
    LastComponent(dir, file);
    KeepOnlyKeepsKept(file, AllowedNameChar);
  }

  /** Both leading `../` go; a rest with no dot and no backslash is kept. */
  lemma TraversalStripped(t: string)
    requires '.' !in t && '\\' !in t
    ensures StripTraversal("../" + ("../" + t)) == t
  {
    DotDotSlashRemoved(t);
    ReplaceAllAbsent(t, "..\\", "", '\\');
    ReplaceAllAbsent(t, "\\0", "", '\\');
  }

  lemma DotDotSlashRemoved(t: string)
    requires '.' !in t
    ensures ReplaceAll("../" + ("../" + t), "../", "") == t
  {
    ReplaceLeading("../" + t, "../", "");
    ReplaceLeading(t, "../", "");
    ReplaceAllAbsent(t, "../", "", '.');
  }

  /** PCRE's `$` also matches just before a final newline. */
  predicate MatchesRepoPattern(n: string)
  {
    RepoPatternCore(n) || (|n| > 0 && n[|n| - 1] == '\n' && RepoPatternCore(n[..|n| - 1]))
  }

  /** The name checks of `createEmptyRepository`; `existing` is the set of
      repository file names already present in the repositories directory. */
  function CreateRepositoryName(input: string, existing: set<string>): (r: Result<string>)
    ensures r.Ok? ==> r.value !in existing && RepoPatternCore(r.value)
  {
    var s := SanitizeRepoName(input);
    var r := NameChecks(s, existing);
    NameChecksAccepts(s, existing);
    r
  }

  /** The checks made on the sanitized name `s`. */
  function NameChecks(s: string, existing: set<string>): Result<string>
  {
    if s == "" then Err(NameRequired)
    else
      var n := WithOmiExtension(s);
      if !MatchesRepoPattern(n) then Err(NameInvalid)
      else if n in existing then Err(NameTaken)
      else Ok(n)
  }

  /** Over a non-empty allowed name, the PCRE pattern refuses exactly the
      bare extension `.omi`: a sanitized name holds no newline, so the
      end-of-line reading of `$` adds nothing. */
  lemma PhpPatternOnAllowed(s: string)
    requires s != [] && AllAllowed(s)
    ensures MatchesRepoPattern(WithOmiExtension(s)) <==> s != ".omi"
    ensures MatchesRepoPattern(WithOmiExtension(s)) ==> RepoPatternCore(WithOmiExtension(s))
  {
    var n := WithOmiExtension(s);
    WithOmiExtensionAllowed(s);
    AllowedExcludesSeparators(n);
    assert n[|n| - 1] != '\n';
    PatternOnAllowed(s);
  }

  lemma NameChecksAccepts(s: string, existing: set<string>)
    requires AllAllowed(s)
    ensures NameChecks(s, existing).Ok? ==>
      NameChecks(s, existing).value !in existing && RepoPatternCore(NameChecks(s, existing).value)
  {
    if s != [] {
      PhpPatternOnAllowed(s);
    }
  }

  /** Each outcome of the name checks, both ways round: the name is required
      exactly when nothing survives sanitizing, invalid exactly when only the
      bare extension survives, and taken exactly when the completed name is
      already present. */
  lemma CreateRepositoryNameSpec(input: string, existing: set<string>)
    ensures var s := SanitizeRepoName(input); var r := CreateRepositoryName(input, existing);
      && (r == Err(NameRequired) <==> s == "")
      && (r == Err(NameInvalid)
          <==> s == ".omi")
      && (r == Err(NameTaken) <==> s != "" && s != ".omi" && WithOmiExtension(s) in existing)
      && (r.Ok? <==> s != "" && s != ".omi" && WithOmiExtension(s) !in existing)
      && (r.Ok? ==> r.value == WithOmiExtension(s))
  {
    NameChecksSpec(SanitizeRepoName(input), existing);
  }

  lemma NameChecksSpec(s: string, existing: set<string>)
    requires AllAllowed(s)
    ensures var r := NameChecks(s, existing);
      && (r == Err(NameRequired) <==> s == "")
      && (r == Err(NameInvalid)
          <==> s == ".omi")
      && (r == Err(NameTaken) <==> s != "" && s != ".omi" && WithOmiExtension(s) in existing)
      && (r.Ok? <==> s != "" && s != ".omi" && WithOmiExtension(s) !in existing)
      && (r.Ok? ==> r.value == WithOmiExtension(s))
  {
    if s != [] {
      PhpPatternOnAllowed(s);
    }
  }

  /** `str_replace(['../', '..\\', '/', '\\'], '_', ...)`: each search string
      is replaced in turn, over the result of the previous one. */
  function ReplaceSeparators(s: string): (r: string)
    ensures '/' !in r && '\\' !in r
  {
    var a := ReplaceAll(ReplaceAll(s, "../", "_"), "..\\", "_");
    var b := ReplaceAll(a, "/", "_");
    ReplaceCharRemoves(a, '/', "_");
    ReplaceCharRemoves(b, '\\', "_");
    ReplaceAllChars(b, "\\", "_");
    ReplaceAll(b, "\\", "_")
  }

  /** A single-name form field (target, new_name, dir_name, file_name):
      trimmed, then cleaned of separators. */
  function FormName(field: string): (r: string)
    ensures '/' !in r && '\\' !in r
  {
    ReplaceSeparators(Trim(field, PhpTrimChars))
  }

  /** The name of an uploaded file: basename, then cleaned of separators. */
  function UploadName(clientName: string): (r: string)
    ensures '/' !in r && '\\' !in r
  {
    ReplaceSeparators(BaseName(clientName))
  }

  /** A path inside the repository: the cleaned name under the browsed
      directory, or the name alone at the root (PHP tests `$repoPath` for
      truth, so a directory named "0" is taken as the root). */
  function ChildPath(repoPath: string, name: string): string
  {
    if Truthy(repoPath) then repoPath + "/" + name else name
  }

  /** A cleaned form name adds exactly one path segment under the browsed
      directory. */
  lemma {:induction false} FormNameAddsOneSegment(repoPath: string, field: string)
    requires Truthy(repoPath)
    ensures var p := ChildPath(repoPath, FormName(field));
      StartsWith(p, repoPath + "/") && '/' !in p[|repoPath| + 1..]
  {
    var name := FormName(field);
    var p := repoPath + "/" + name;
    assert p[..|repoPath| + 1] == repoPath + "/";
    assert p[|repoPath| + 1..] == name;
  }
}
