/** String operations the front ends build their gates from: literal
    replace-all (PHP `str_replace`, JavaScript `replace` with a global
    literal pattern), basename, allow-list filtering, trimming, splitting and
    joining. All strings are sequences of characters. */
module Text {

  predicate StartsWith(s: string, p: string)
  {
    |p| <= |s| && s[..|p|] == p
  }

  predicate EndsWith(s: string, p: string)
  {
    |p| <= |s| && s[|s| - |p|..] == p
  }

  lemma StartsWithConcat(a: string, b: string)
    ensures StartsWith(a + b, a)
  {
    assert (a + b)[..|a|] == a;
  }

  /** The position of a member of a sequence. */
  lemma IndexOf<T>(s: seq<T>, x: T) returns (i: nat)
    requires x in s
    ensures i < |s| && s[i] == x
  {
    i :| 0 <= i < |s| && s[i] == x;
  }

  /** A path joined with `/` lies below its first part and ends in the
      separator and its last part. */
  lemma JoinShape(d: string, leaf: string)
    ensures StartsWith(d + "/" + leaf, d + "/") && EndsWith(d + "/" + leaf, "/" + leaf)
  {
    StartsWithConcat(d + "/", leaf);
    assert (d + "/" + leaf)[|d|..] == "/" + leaf;
  }

  /** C `strstr(s, sub) != NULL`. */
  predicate Contains(s: string, sub: string)
    decreases |s|
  {
    StartsWith(s, sub) || (|s| > 0 && Contains(s[1..], sub))
  }

  /** Left-to-right, non-overlapping replacement of every occurrence of
      `pat`, resuming after each replaced occurrence. */
  function ReplaceAll(s: string, pat: string, rep: string): string
    requires |pat| > 0
    decreases |s|
  {
    if |s| < |pat| then s
    else if s[..|pat|] == pat then rep + ReplaceAll(s[|pat|..], pat, rep)
    else [s[0]] + ReplaceAll(s[1..], pat, rep)
  }

  /** Every character of a replace-all result comes from the subject or from
      the replacement. */
  lemma {:induction false} ReplaceAllChars(s: string, pat: string, rep: string)
    requires |pat| > 0
    ensures forall c :: c in ReplaceAll(s, pat, rep) ==> c in s || c in rep
    decreases |s|
  {
    if |s| < |pat| {
    } else if s[..|pat|] == pat {
      ReplaceAllChars(s[|pat|..], pat, rep);
      assert forall c :: c in s[|pat|..] ==> c in s;
    } else {
      ReplaceAllChars(s[1..], pat, rep);
      assert forall c :: c in s[1..] ==> c in s;
    }
  }

  /** Replacing a one-character pattern by text without that character leaves
      no occurrence of it. */
  lemma {:induction false} ReplaceCharRemoves(s: string, c: char, rep: string)
    requires c !in rep
    ensures c !in ReplaceAll(s, [c], rep)
    decreases |s|
  {
    if |s| >= 1 {
      ReplaceCharRemoves(s[1..], c, rep);
      assert s[..1] == [s[0]];
    }
  }

  /** Replacing a one-character pattern processes the string one character
      at a time. */
  lemma ReplaceCharStep(c: char, rest: string, q: char, rep: string)
    ensures ReplaceAll([c] + rest, [q], rep)
         == (if c == q then rep else [c]) + ReplaceAll(rest, [q], rep)
  {
    var s := [c] + rest;
    assert s[..1] == [c] && s[1..] == rest;
  }

  /** A subject that starts with the pattern has it replaced first. */
  lemma ReplaceLeading(x: string, pat: string, rep: string)
    requires |pat| > 0
    ensures ReplaceAll(pat + x, pat, rep) == rep + ReplaceAll(x, pat, rep)
  {
    assert (pat + x)[..|pat|] == pat && (pat + x)[|pat|..] == x;
  }

  /** A pattern that holds a character the subject lacks never matches. */
  lemma {:induction false} ReplaceAllAbsent(s: string, pat: string, rep: string, c: char)
    requires |pat| > 0 && c in pat && c !in s
    ensures ReplaceAll(s, pat, rep) == s
    decreases |s|
  {
    if |s| >= |pat| {
      assert s[..|pat|] != pat;
      ReplaceAllAbsent(s[1..], pat, rep, c);
      assert [s[0]] + s[1..] == s;
    }
  }

  /** What remains after dropping trailing copies of `c`. */
  function StripTrailing(s: string, c: char): (r: string)
    ensures StartsWith(s, r)
    ensures r == [] || r[|r| - 1] != c
  {
    if |s| > 0 && s[|s| - 1] == c then StripTrailing(s[..|s| - 1], c) else s
  }

  /** The part of `s` after its last `c`, or all of `s` when it has none. */
  function AfterLast(s: string, c: char): (r: string)
    ensures EndsWith(s, r)
    ensures c !in r
    ensures c !in s ==> r == s
    ensures |r| < |s| ==> s[|s| - |r| - 1] == c
  {
    if s == [] then []
    else if s[|s| - 1] == c then []
    else AfterLast(s[..|s| - 1], c) + [s[|s| - 1]]
  }

  /** PHP `basename` and Node `path.basename` for '/'-separated paths: drop
      trailing slashes, then keep what follows the last slash. */
  function BaseName(s: string): (r: string)
    ensures '/' !in r
  {
    AfterLast(StripTrailing(s, '/'), '/')
  }

  /** The base name of a path whose last component is `b`. */
  lemma LastComponent(a: string, b: string)
    requires b != [] && '/' !in b
    ensures BaseName(a + "/" + b) == b
  {
    var t := a + "/" + b;
    assert StripTrailing(t, '/') == t;
    AfterLastSeparator(a, '/', b);
  }

  lemma {:induction false} AfterLastSeparator(a: string, c: char, b: string)
    requires c !in b
    ensures AfterLast(a + [c] + b, c) == b
  {
    if b != [] {
      var s := a + [c] + b;
      assert s[..|s| - 1] == a + [c] + b[..|b| - 1];
      AfterLastSeparator(a, c, b[..|b| - 1]);
      assert b[..|b| - 1] + [b[|b| - 1]] == b;
    } else {
      assert (a + [c] + b)[|a|] == c;
    }
  }

  /** The characters of `s` that satisfy `keep`, in order. */
  function KeepOnly(s: string, keep: char -> bool): (r: string)
    ensures forall i :: 0 <= i < |r| ==> keep(r[i])
    ensures |r| <= |s|
  {
    if s == [] then [] else (if keep(s[0]) then [s[0]] else []) + KeepOnly(s[1..], keep)
  }

  lemma {:induction false} KeepOnlyKeepsKept(s: string, keep: char -> bool)
    requires forall i :: 0 <= i < |s| ==> keep(s[i])
    ensures KeepOnly(s, keep) == s
  {
    if s != [] {
      KeepOnlyKeepsKept(s[1..], keep);
    }
  }

  function TrimStart(s: string, ws: set<char>): (r: string)
    ensures EndsWith(s, r)
    ensures r == [] || r[0] !in ws
  {
    if |s| > 0 && s[0] in ws then
      var r := TrimStart(s[1..], ws);
      assert s[1..][|s[1..]| - |r|..] == s[|s| - |r|..];
      r
    else s
  }

  function TrimEnd(s: string, ws: set<char>): (r: string)
    ensures StartsWith(s, r)
    ensures r == [] || r[|r| - 1] !in ws
  {
    if |s| > 0 && s[|s| - 1] in ws then TrimEnd(s[..|s| - 1], ws) else s
  }

  /** Strips the characters of `ws` from both ends. */
  function Trim(s: string, ws: set<char>): string
  {
    TrimEnd(TrimStart(s, ws), ws)
  }

  lemma TrimEnds(s: string, ws: set<char>)
    ensures var r := Trim(s, ws); r == [] || (r[0] !in ws && r[|r| - 1] !in ws)
    ensures forall c :: c in Trim(s, ws) ==> c in s
  {
    var a := TrimStart(s, ws);
    var r := TrimEnd(a, ws);
    assert r == a[..|r|];
    assert forall c :: c in a ==> c in s by {
      assert a == s[|s| - |a|..];
    }
  }

  /** `s.split(c)` / PHP `explode`: the pieces between the separators. */
  function Split(s: string, c: char): (parts: seq<string>)
    ensures |parts| >= 1
  {
    if s == [] then [[]]
    else
      var rest := Split(s[1..], c);
      if s[0] == c then [[]] + rest else [[s[0]] + rest[0]] + rest[1..]
  }

  /** `parts.join(sep)` / PHP `implode`. */
  function Join(parts: seq<string>, sep: string): string
  {
    if parts == [] then []
    else if |parts| == 1 then parts[0]
    else parts[0] + sep + Join(parts[1..], sep)
  }

  lemma {:induction false} SplitPieces(s: string, c: char)
    ensures forall i :: 0 <= i < |Split(s, c)| ==> c !in Split(s, c)[i]
    ensures Join(Split(s, c), [c]) == s
  {
    if s != [] {
      var rest := Split(s[1..], c);
      SplitPieces(s[1..], c);
      if s[0] == c {
        assert Join([[]] + rest, [c]) == [] + [c] + Join(rest, [c]);
      } else {
        var parts := [[s[0]] + rest[0]] + rest[1..];
        if |rest| == 1 {
          assert Join(parts, [c]) == [s[0]] + rest[0];
        } else {
          assert Join(rest, [c]) == rest[0] + [c] + Join(rest[1..], [c]);
          assert parts[1..] == rest[1..];
          assert Join(parts, [c]) == [s[0]] + rest[0] + [c] + Join(rest[1..], [c]);
        }
      }
    }
  }

  /** The pieces of `parts` that are not empty (JavaScript `filter(Boolean)`). */
  function NonEmpty(parts: seq<string>): (r: seq<string>)
    ensures forall i :: 0 <= i < |r| ==> r[i] != []
    ensures forall x :: x in r <==> x in parts && x != []
  {
    if parts == [] then []
    else (if parts[0] != [] then [parts[0]] else []) + NonEmpty(parts[1..])
  }

  /** Joining non-empty separator-free pieces gives a string whose pieces
      are exactly those pieces again: no empty segment appears. */
  lemma {:induction false} SplitJoin(parts: seq<string>, c: char)
    requires parts != []
    requires forall i :: 0 <= i < |parts| ==> c !in parts[i]
    ensures Split(Join(parts, [c]), c) == parts
  {
    if |parts| == 1 {
      SplitNoSeparator(parts[0], c);
    } else {
      SplitJoin(parts[1..], c);
      assert Join(parts, [c]) == parts[0] + [c] + Join(parts[1..], [c]);
      SplitAppend(parts[0], Join(parts[1..], [c]), c);
      assert parts == [parts[0]] + parts[1..];
    }
  }

  lemma {:induction false} SplitNoSeparator(s: string, c: char)
    requires c !in s
    ensures Split(s, c) == [s]
  {
    if s != [] {
      SplitNoSeparator(s[1..], c);
      assert [s[0]] + s[1..] == s;
    }
  }

  lemma {:induction false} SplitAppend(a: string, b: string, c: char)
    requires c !in a
    ensures Split(a + [c] + b, c) == [a] + Split(b, c)
  {
    if a == [] {
      assert ([c] + b)[1..] == b;
    } else {
      SplitAppend(a[1..], b, c);
      var s := a + [c] + b;
      assert s[0] == a[0] && s[1..] == a[1..] + [c] + b;
      var rest := Split(s[1..], c);
      assert rest[0] == a[1..] && rest[1..] == Split(b, c);
      assert [a[0]] + a[1..] == a;
    }
  }

  /** Decimal digits of a natural number, as `ToString()` writes it. */
  function Decimal(n: nat): (s: string)
    ensures |s| >= 1
    ensures forall i :: 0 <= i < |s| ==> '0' <= s[i] <= '9'
  {
    (if n < 10 then [] else Decimal(n / 10)) + [('0' as int + n % 10) as char]
  }
}
