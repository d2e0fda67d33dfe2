/** What both servers agree a repository file name is: the allow-list class
    `[a-zA-Z0-9._-]`, and the `.omi` extension. */
module RepoNames {
  import opened Text

  /** The answers both servers give to a refused repository name. */
  const NameRequired: string := "Repository name is required"
  const NameInvalid: string := "Invalid repository name. Use letters, numbers, dot, dash, or underscore."
  const NameTaken: string := "Repository already exists"

  /** The allow-list class `[a-zA-Z0-9._-]`. */
  predicate AllowedNameChar(c: char)
  {
    'a' <= c <= 'z' || 'A' <= c <= 'Z' || '0' <= c <= '9' || c == '.' || c == '_' || c == '-'
  }

  predicate AllAllowed(s: string)
  {
    forall i :: 0 <= i < |s| ==> AllowedNameChar(s[i])
  }

  lemma AllowedExcludesSeparators(r: string)
    requires AllAllowed(r)
    ensures '/' !in r && '\\' !in r && '\0' !in r && '\n' !in r
  {
  }

  /** `^[a-zA-Z0-9._-]+\.omi$` read with `$` at the very end of the name. */
  predicate RepoPatternCore(n: string)
  {
    |n| >= 5 && EndsWith(n, ".omi") && forall i :: 0 <= i < |n| - 4 ==> AllowedNameChar(n[i])
  }

  /** The name with `.omi` appended unless it already ends with it. */
  function WithOmiExtension(s: string): (n: string)
    ensures EndsWith(n, ".omi") && StartsWith(n, s)
    ensures EndsWith(s, ".omi") ==> n == s
  {
    if EndsWith(s, ".omi") then s
    else
      var n := s + ".omi";
      assert n[|n| - 4..] == ".omi" && n[..|s|] == s;
      n
  }

  /** Adding the extension keeps the name within the allow-list. */
  lemma WithOmiExtensionAllowed(s: string)
    requires AllAllowed(s)
    ensures AllAllowed(WithOmiExtension(s))
  {
    var n := WithOmiExtension(s);
    forall i | 0 <= i < |n| ensures AllowedNameChar(n[i]) {
      if i >= |s| {
        assert n[i] == ".omi"[i - |s|];
      }
    }
  }

  /** Over a non-empty allowed name, the pattern refuses exactly the bare
      extension `.omi`. */
  lemma PatternOnAllowed(s: string)
    requires s != [] && AllAllowed(s)
    ensures RepoPatternCore(WithOmiExtension(s)) <==> s != ".omi"
  {
    WithOmiExtensionAllowed(s);
    if EndsWith(s, ".omi") {
      if |s| < 5 {
        assert s == s[|s| - 4..];
      }
    } else {
      assert s != ".omi" by {
        if s == ".omi" {
          assert EndsWith(s, ".omi");
        }
      }
    }
  }
}
