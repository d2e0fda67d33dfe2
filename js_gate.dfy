/** The name gates of the Node server (public/server.js): repository-name
    sanitizing and normalizing, path-segment cleaning, the request-path
    parser, the name checks on creation, and the SQL string escape its
    commit scripts depend on. */
module JsGate {
  import opened Text
  import opened RepoNames
  import opened Wrappers

  /** The characters `String.prototype.trim` strips: the ECMAScript
      WhiteSpace and LineTerminator code points. */
  const JsTrimChars: set<char> := {
    '\t', '\n', '\U{B}', '\U{C}', '\r', ' ', '\U{A0}', '\U{1680}',
    '\U{2000}', '\U{2001}', '\U{2002}', '\U{2003}', '\U{2004}', '\U{2005}',
    '\U{2006}', '\U{2007}', '\U{2008}', '\U{2009}', '\U{200A}',
    '\U{2028}', '\U{2029}', '\U{202F}', '\U{205F}', '\U{3000}', '\U{FEFF}'
  }

  /** The first step of `sanitizeRepoName`: the regular expressions remove
      `../`, `..\` and the NUL character, each over the previous result. */
  function StripTraversal(name: string): string
  {
    ReplaceAll(ReplaceAll(ReplaceAll(name, "../", ""), "..\\", ""), "\0", "")
  }

  /** `sanitizeRepoName`: strip, take `path.basename`, keep the allow-list. */
  function SanitizeRepoName(name: string): (r: string)
    ensures AllAllowed(r)
    ensures '/' !in r && '\\' !in r && '\0' !in r
  {
    var r := KeepOnly(BaseName(StripTraversal(name)), AllowedNameChar);
    AllowedExcludesSeparators(r);
    r
  }

  /** Sanitizing twice is sanitizing once. */
  lemma SanitizeIdempotent(name: string)
    ensures SanitizeRepoName(SanitizeRepoName(name)) == SanitizeRepoName(name)
  {
    var r := SanitizeRepoName(name);
    ReplaceAllAbsent(r, "../", "", '/');
    ReplaceAllAbsent(r, "..\\", "", '\\');
    ReplaceAllAbsent(r, "\0", "", '\0');
    assert StripTrailing(r, '/') == r;
    assert BaseName(r) == r;
    KeepOnlyKeepsKept(r, AllowedNameChar);
  }

  /** Unlike the PHP gate, the JavaScript strip step leaves the text
      backslash-zero alone, and the allow-list then drops only the
      backslash. */
  lemma BackslashZeroKeepsDigit(s: string)
    requires s == "a\\0b"
    ensures SanitizeRepoName(s) == "a0b"
  {
    ReplaceAllAbsent(s, "../", "", '/');
    ReplaceAllAbsent(s, "..\\", "", '.');
    ReplaceAllAbsent(s, "\0", "", '\0');
    assert StripTrailing(s, '/') == s;
    assert BaseName(s) == s;
    KeepDropsBackslash(s);
  }

  lemma KeepDropsBackslash(s: string)
    requires s == "a\\0b"
    ensures KeepOnly(s, AllowedNameChar) == "a0b"
  {
    assert s[1..] == "\\0b" && s[1..][1..] == "0b";
    KeepOnlyKeepsKept("0b", AllowedNameChar);
  }

  /** `normalizeRepoName`: the sanitized name with `.omi` appended, or the
      empty string when nothing survives sanitizing. */
  function NormalizeRepoName(name: string): (r: string)
    ensures r == "" <==> SanitizeRepoName(name) == ""
    ensures r != "" ==> AllAllowed(r) && EndsWith(r, ".omi") && StartsWith(r, SanitizeRepoName(name))
  {
    var s := SanitizeRepoName(name);
    if s == "" then ""
    else
      WithOmiExtensionAllowed(s);
      WithOmiExtension(s)
  }

  /** The name checks of `createEmptyRepository`; `existing` is the set of
      repository file names already present. The JavaScript `$` anchors at
      the very end of the name. */
  function CreateRepositoryName(input: string, existing: set<string>): (r: Result<string>)
    ensures r.Ok? ==> r.value !in existing && RepoPatternCore(r.value)
  {
    var n := NormalizeRepoName(input);
    if n == "" then Err(NameRequired)
    else if !RepoPatternCore(n) then Err(NameInvalid)
    else if n in existing then Err(NameTaken)
    else Ok(n)
  }

  /** Each outcome of the name checks, both ways round. */
  lemma CreateRepositoryNameSpec(input: string, existing: set<string>)
    ensures var s := SanitizeRepoName(input); var r := CreateRepositoryName(input, existing);
      && (r == Err(NameRequired) <==> s == "")
      && (r == Err(NameInvalid)
          <==> s == ".omi")
      && (r == Err(NameTaken) <==> s != "" && s != ".omi" && WithOmiExtension(s) in existing)
      && (r.Ok? <==> s != "" && s != ".omi" && WithOmiExtension(s) !in existing)
      && (r.Ok? ==> r.value == WithOmiExtension(s))
  {
    var s := SanitizeRepoName(input);
    if s != "" {
      PatternOnAllowed(s);
    }
  }

  /** The `/[\\/]/g` replacement: each slash or backslash becomes `_`. */
  function SlashesToUnderscore(s: string): (r: string)
    ensures |r| == |s|
    ensures forall i :: 0 <= i < |s| ==> r[i] == (if s[i] == '/' || s[i] == '\\' then '_' else s[i])
    ensures '/' !in r && '\\' !in r
  {
    if s == [] then [] else [if s[0] == '/' || s[0] == '\\' then '_' else s[0]] + SlashesToUnderscore(s[1..])
  }

  /** `sanitizePathSegment`. */
  function SanitizePathSegment(name: string): (r: string)
    ensures '/' !in r && '\\' !in r && '\0' !in r
    ensures r == [] || (r[0] !in JsTrimChars && r[|r| - 1] !in JsTrimChars)
  {
    var a := SlashesToUnderscore(ReplaceAll(ReplaceAll(name, "../", ""), "..\\", ""));
    var b := ReplaceAll(a, "\0", "");
    ReplaceAllChars(a, "\0", "");
    ReplaceCharRemoves(a, '\0', "");
    TrimEnds(b, JsTrimChars);
    Trim(b, JsTrimChars)
  }

  /** `parts.map(sanitizePathSegment)`. */
  function SanitizeAll(parts: seq<string>): (r: seq<string>)
    ensures |r| == |parts|
    ensures forall i :: 0 <= i < |r| ==> r[i] == SanitizePathSegment(parts[i])
  {
    if parts == [] then [] else [SanitizePathSegment(parts[0])] + SanitizeAll(parts[1..])
  }

  /** What `parseRequestPath` returns. */
  datatype Route = ListRepos | RouteError(message: string) | Browse(repo: string, path: string)

  /** `parseRequestPath`. `available` is the set of repository file names
      that exist in the repositories directory and pass the path-safety
      check. */
  function ParseRequestPath(pathname: string, available: set<string>): Route
  {
    var parts := NonEmpty(Split(pathname, '/'));
    if parts == [] then ListRepos
    else
      var repoName := SanitizeRepoName(parts[0]);
      if repoName == "" then RouteError("Repository not found")
      else
        var repo := WithOmiExtension(repoName);
        if repo !in available then RouteError("Repository not found")
        else Browse(repo, Join(NonEmpty(SanitizeAll(parts[1..])), "/"))
  }

  /** The request path names no repository exactly when it is made of slashes. */
  lemma {:induction false} NoPartsIffSlashes(s: string)
    ensures NonEmpty(Split(s, '/')) == [] <==> forall i :: 0 <= i < |s| ==> s[i] == '/'
  {
    if s != [] {
      NoPartsIffSlashes(s[1..]);
      var rest := Split(s[1..], '/');
      if s[0] == '/' {
        assert Split(s, '/') == [[]] + rest;
        assert NonEmpty(Split(s, '/')) == NonEmpty(rest) by {
          assert Split(s, '/')[1..] == rest;
        }
      } else {
        var first := [s[0]] + rest[0];
        assert Split(s, '/')[0] == first && first != [];
        assert first in NonEmpty(Split(s, '/'));
      }
    }
  }

  /** A browse route names an available repository by an allow-list name
      ending in `.omi`, and its path is the cleaned, non-empty segments of
      the rest of the request joined by `/`: splitting it again gives back
      exactly those segments, so it has no empty segment and no segment
      holds a backslash or a NUL. */
  lemma ParseRequestPathSpec(pathname: string, available: set<string>)
    ensures ParseRequestPath(pathname, available) == ListRepos
      <==> forall i :: 0 <= i < |pathname| ==> pathname[i] == '/'
    ensures var r := ParseRequestPath(pathname, available);
      r.RouteError? ==> r.message == "Repository not found"
    ensures var r := ParseRequestPath(pathname, available);
      r.Browse? ==>
        && r.repo in available && AllAllowed(r.repo) && EndsWith(r.repo, ".omi")
        && (r.path != "" ==>
              var segs := Split(r.path, '/');
              && segs == NonEmpty(SanitizeAll(NonEmpty(Split(pathname, '/'))[1..]))
              && forall i :: 0 <= i < |segs| ==> segs[i] != "" && '\\' !in segs[i] && '\0' !in segs[i])
  {
    NoPartsIffSlashes(pathname);
    var parts := NonEmpty(Split(pathname, '/'));
    if parts != [] {
      var repoName := SanitizeRepoName(parts[0]);
      if repoName != "" {
        WithOmiExtensionAllowed(repoName);
        BrowsePathSplits(parts[1..]);
      }
    }
  }

  /** The browse path splits back into the cleaned, non-empty segments. */
  lemma BrowsePathSplits(rest: seq<string>)
    ensures var segs := NonEmpty(SanitizeAll(rest));
      Join(segs, "/") != "" ==>
        && Split(Join(segs, "/"), '/') == segs
        && forall i :: 0 <= i < |segs| ==> segs[i] != "" && '\\' !in segs[i] && '\0' !in segs[i]
  {
    var segs := NonEmpty(SanitizeAll(rest));
    if segs != [] {
      forall i | 0 <= i < |segs| ensures '/' !in segs[i] && '\\' !in segs[i] && '\0' !in segs[i] {
        assert segs[i] in SanitizeAll(rest);
      }
      SplitJoin(segs, '/');
    }
  }

  /** `escapeSqliteString`: every single quote is doubled. */
  function EscapeSqliteString(value: string): string
  {
    ReplaceAll(value, "'", "''")
  }

  /** Undoing the doubling gives back the value. */
  lemma {:induction false} UnescapeRoundTrip(value: string)
    ensures ReplaceAll(EscapeSqliteString(value), "''", "'") == value
  {
    if value != [] {
      var c, rest := value[0], value[1..];
      assert value == [c] + rest;
      ReplaceCharStep(c, rest, '\'', "''");
      UnescapeRoundTrip(rest);
      var e := EscapeSqliteString(rest);
      if c == '\'' {
        var t := "''" + e;
        assert t[..2] == "''" && t[2..] == e;
      } else {
        var t := [c] + e;
        if |t| >= 2 {
          assert t[..2] != "''";
          assert t[1..] == e;
        } else {
          assert e == [] && rest == [];
        }
      }
    }
  }

  /** How SQLite reads the body of a string literal after its opening
      quote: a doubled quote stands for one quote, a lone quote ends the
      literal. The value read and the rest of the text, or None when the
      literal is never closed. */
  datatype Lexed = Lexed(value: string, rest: string)

  function ReadQuoted(t: string): Option<Lexed>
  {
    if t == [] then None
    else if t[0] == '\'' then
      if |t| >= 2 && t[1] == '\'' then
        match ReadQuoted(t[2..])
        case None => None
        case Some(l) => Some(Lexed("'" + l.value, l.rest))
      else Some(Lexed([], t[1..]))
    else
      match ReadQuoted(t[1..])
      case None => None
      case Some(l) => Some(Lexed([t[0]] + l.value, l.rest))
  }

  /** An escaped value placed between quotes reads back as the value, and
      the literal ends exactly at the closing quote: the value cannot end
      the literal early, so it cannot inject SQL. */
  lemma {:induction false} EscapedLiteralReadsBack(value: string, tail: string)
    requires tail == [] || tail[0] != '\''
    ensures ReadQuoted(EscapeSqliteString(value) + "'" + tail) == Some(Lexed(value, tail))
  {
    if value == [] {
      var t := "'" + tail;
      assert t[1..] == tail;
    } else {
      var c, rest := value[0], value[1..];
      assert value == [c] + rest;
      EscapedLiteralReadsBack(rest, tail);
      EscapedFirst(c, rest, tail);
    }
  }

  /** One more character in front of the value: a quote is doubled and
      read back as one, any other character is copied and read as itself. */
  lemma EscapedFirst(c: char, rest: string, tail: string)
    requires ReadQuoted(EscapeSqliteString(rest) + "'" + tail) == Some(Lexed(rest, tail))
    ensures ReadQuoted(EscapeSqliteString([c] + rest) + "'" + tail) == Some(Lexed([c] + rest, tail))
  {
    ReplaceCharStep(c, rest, '\'', "''");
    if c == '\'' {
      EscapedQuote(EscapeSqliteString(rest), rest, tail);
    } else {
      EscapedPlain(c, EscapeSqliteString(rest), rest, tail);
    }
  }

  lemma EscapedQuote(e: string, rest: string, tail: string)
    requires ReadQuoted(e + "'" + tail) == Some(Lexed(rest, tail))
    ensures ReadQuoted("''" + e + "'" + tail) == Some(Lexed("'" + rest, tail))
  {
    ReadDoubledQuote(e + "'" + tail, Lexed(rest, tail));
    assert "''" + (e + "'" + tail) == "''" + e + "'" + tail;
  }

  lemma EscapedPlain(c: char, e: string, rest: string, tail: string)
    requires c != '\'' && ReadQuoted(e + "'" + tail) == Some(Lexed(rest, tail))
    ensures ReadQuoted([c] + e + "'" + tail) == Some(Lexed([c] + rest, tail))
  {
    ReadPlainChar(c, e + "'" + tail, Lexed(rest, tail));
    assert [c] + (e + "'" + tail) == [c] + e + "'" + tail;
  }

  /** A doubled quote inside a literal reads as one quote. */
  lemma ReadDoubledQuote(u: string, l: Lexed)
    requires ReadQuoted(u) == Some(l)
    ensures ReadQuoted("''" + u) == Some(Lexed("'" + l.value, l.rest))
  {
    assert ("''" + u)[2..] == u;
  }

  /** Any other character inside a literal reads as itself. */
  lemma ReadPlainChar(c: char, u: string, l: Lexed)
    requires c != '\'' && ReadQuoted(u) == Some(l)
    ensures ReadQuoted([c] + u) == Some(Lexed([c] + l.value, l.rest))
  {
    assert ([c] + u)[1..] == u;
  }
}
