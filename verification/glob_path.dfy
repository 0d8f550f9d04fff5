/**
 * StringExtensions.GlobPath: a path-aware wildcard test built on Glob. Path
 * and pattern are normalised, split on their last '/', and the directory
 * part and the file part are checked by different rules.
 */
module GlobPaths {

  import opened Wrappers
  import opened Text
  import opened Glob
  import StringParts

  // ---------------------------------------------------------------------------
  // Normalisation

  /** Every '\' becomes '/', then one leading '/' is dropped. */
  function Sanitize(s: string): (r: string)
    requires |s| > 0
    ensures '\\' !in r
    ensures |r| == |s| || |r| == |s| - 1
  {
    var t := ReplaceChar(s, '\\', '/');
    if t[0] == '/' then t[1..] else t
  }

  /** A leading '/' or '\' in front of a name that has none changes nothing after sanitising. */
  lemma SanitizeLeadingSeparator(sep: char, s: string)
    requires sep == '/' || sep == '\\'
    requires |s| > 0 && s[0] != '/' && s[0] != '\\'
    ensures Sanitize([sep] + s) == Sanitize(s)
  {
    var t := ReplaceChar([sep] + s, '\\', '/');
    assert t[1..] == ReplaceChar(s, '\\', '/');
  }

  /** Only one leading '/' is dropped, so sanitising twice can drop a second one: "//a" gives "/a", then "a". */
  lemma SanitizeTwice()
    ensures Sanitize("//a") == "/a"
    ensures Sanitize(Sanitize("//a")) == "a"
  {
    assert ReplaceChar("//a", '\\', '/') == "//a";
    assert ReplaceChar("/a", '\\', '/') == "/a";
  }

  // ---------------------------------------------------------------------------
  // The directory regex

  /**
   * The directory regex between its anchors: `*` stands for [^/]*, `?` for
   * `.` (any character but a line feed) and every other character for
   * itself, compared case-sensitively.
   */
  predicate DirSeg(v: string, p: string)
    decreases |p|, |v|
  {
    if p == [] then v == []
    else if p[0] == '*' then DirSeg(v, p[1..]) || (v != [] && v[0] != '/' && DirSeg(v[1..], p))
    else v != [] && (if p[0] == '?' then v[0] != '\n' else v[0] == p[0]) && DirSeg(v[1..], p[1..])
  }

  /** Regex.IsMatch of "^" + segment + "$": the `$` anchor also matches before a final line feed. */
  predicate DirRegexMatch(v: string, p: string)
  {
    DirSeg(v, p) || (|v| > 0 && v[|v| - 1] == '\n' && DirSeg(v[..|v| - 1], p))
  }

  /** Without wildcards the directory regex accepts exactly the pattern itself (and it followed by a line feed). */
  lemma {:induction false} DirSegLiteral(v: string, p: string)
    requires '*' !in p && '?' !in p
    ensures DirSeg(v, p) <==> v == p
    decreases |p|
  {
    if p != [] {
      assert p[0] in p;
      assert '*' !in p[1..] && '?' !in p[1..];
      if v != [] {
        DirSegLiteral(v[1..], p[1..]);
        assert v == [v[0]] + v[1..] && p == [p[0]] + p[1..];
      }
    }
  }

  /** A `*` never crosses a directory boundary: a pattern with no '/' and no `?` matches no text with a '/'. */
  lemma {:induction false} DirSegStaysInSegment(v: string, p: string)
    requires '/' !in p && '?' !in p && DirSeg(v, p)
    ensures '/' !in v
    decreases |p|, |v|
  {
    if p != [] {
      assert p[0] in p;
      assert '/' !in p[1..] && '?' !in p[1..];
      if p[0] == '*' {
        if DirSeg(v, p[1..]) {
          DirSegStaysInSegment(v, p[1..]);
        } else {
          DirSegStaysInSegment(v[1..], p);
          assert v == [v[0]] + v[1..];
        }
      } else {
        DirSegStaysInSegment(v[1..], p[1..]);
        assert v == [v[0]] + v[1..];
      }
    }
  }

  // ---------------------------------------------------------------------------
  // The decision tree

  /** The rule for the directory part of a pattern that has a directory part. */
  function DirMatches(path: string, dirPart: string, dirPattern: string): bool
  {
    if IndexOfFrom(dirPattern, "**", 0) >= 0 then
      StartsWith(path, TrimEndChars(StringParts.LeftPartString(Some(dirPattern), "**").value, {'*', '/'}))
    else if IndexOf(dirPattern, '*') >= 0 || IndexOf(dirPattern, '?') >= 0 then
      DirRegexMatch(dirPart, dirPattern)
    else
      dirPart == dirPattern
  }

  /**
   * GlobPath after sanitising both sides to `path` and `pat`; a path without
   * '/' is globbed against `single`.
   */
  function Decide(path: string, pat: string, single: string): (r: Result<bool>)
    ensures r.Error? ==> r.failure == IndexOutOfRange
    ensures NoWildcards(pat) ==> r == Ok(path == pat)
  {
    IndexOfAbsent(pat, '*');
    IndexOfAbsent(pat, '?');
    if IndexOf(pat, '*') == -1 && IndexOf(pat, '?') == -1 then Ok(path == pat)
    else
      var patternParts := StringParts.SplitOnLast(Some(pat), '/');
      var parts := StringParts.SplitOnLast(Some(path), '/');
      if |parts| == 1 then GlobSpec(parts[0], single)
      else
        var dirPart := parts[0];
        var filePart := parts[1];
        if |patternParts| == 1 then GlobSpec(filePart, patternParts[0])
        else if !DirMatches(path, dirPart, patternParts[0]) then Ok(false)
        else GlobSpec(filePart, patternParts[1])
  }

  /** True when either argument is null or empty. */
  predicate Missing(s: Option<string>)
  {
    s.None? || |s.value| == 0
  }

  /**
   * StringExtensions.GlobPath as written: a path without '/' is globbed
   * against the pattern as given, not the sanitised one.
   */
  function GlobPath(filePath: Option<string>, pattern: Option<string>): (r: Result<bool>)
    ensures Missing(filePath) || Missing(pattern) ==> r == Ok(false)
    ensures r.Error? ==> r.failure == IndexOutOfRange
  {
    if Missing(filePath) || Missing(pattern) then Ok(false)
    else Decide(Sanitize(filePath.value), Sanitize(pattern.value), pattern.value)
  }

  /** GlobPath with the sanitised pattern in every branch. */
  function GlobPathIntended(filePath: Option<string>, pattern: Option<string>): (r: Result<bool>)
    ensures Missing(filePath) || Missing(pattern) ==> r == Ok(false)
    ensures r.Error? ==> r.failure == IndexOutOfRange
  {
    if Missing(filePath) || Missing(pattern) then Ok(false)
    else
      var pat := Sanitize(pattern.value);
      Decide(Sanitize(filePath.value), pat, pat)
  }

  // ---------------------------------------------------------------------------
  // What GlobPath decides

  lemma IndexOfAbsent(s: string, c: char)
    ensures IndexOf(s, c) == -1 <==> c !in s
  {
    IndexOfFirst(s, c);
  }

  /** A null or empty path or pattern never matches. */
  lemma GlobPathMissing(filePath: Option<string>, pattern: Option<string>)
    requires filePath.None? || pattern.None? || filePath == Some("") || pattern == Some("")
    ensures GlobPath(filePath, pattern) == Ok(false)
    ensures GlobPathIntended(filePath, pattern) == Ok(false)
  {
  }

  /** A pattern without `*` and `?` is compared by ordinal equality after sanitising. */
  lemma GlobPathLiteral(filePath: string, pattern: string)
    requires |filePath| > 0 && |pattern| > 0
    requires NoWildcards(Sanitize(pattern))
    ensures GlobPath(Some(filePath), Some(pattern)) == Ok(Sanitize(filePath) == Sanitize(pattern))
  {
    IndexOfAbsent(Sanitize(pattern), '*');
    IndexOfAbsent(Sanitize(pattern), '?');
  }

  /** A path with no directory is globbed, case-insensitively, against the raw pattern. */
  lemma GlobPathSingleSegment(filePath: string, pattern: string)
    requires |filePath| > 0 && |pattern| > 0
    requires !NoWildcards(Sanitize(pattern)) && '/' !in Sanitize(filePath)
    ensures GlobPath(Some(filePath), Some(pattern)) == GlobSpec(Sanitize(filePath), pattern)
  {
    IndexOfAbsent(Sanitize(pattern), '*');
    IndexOfAbsent(Sanitize(pattern), '?');
    LastIndexOfAbsent(Sanitize(filePath), '/');
  }

  lemma LastIndexOfAbsent(s: string, c: char)
    ensures LastIndexOf(s, c) == -1 <==> c !in s
  {
    LastIndexOfLast(s, c);
  }

  /**
   * A pattern with no directory, for a path with one, is globbed against the
   * path's file name only: the directories are not looked at.
   */
  lemma GlobPathFileNameOnly(filePath: string, pattern: string)
    requires |filePath| > 0 && |pattern| > 0
    requires !NoWildcards(Sanitize(pattern)) && '/' in Sanitize(filePath) && '/' !in Sanitize(pattern)
    ensures var path := Sanitize(filePath);
      GlobPath(Some(filePath), Some(pattern)) == GlobSpec(path[LastIndexOf(path, '/') + 1..], Sanitize(pattern))
  {
    IndexOfAbsent(Sanitize(pattern), '*');
    IndexOfAbsent(Sanitize(pattern), '?');
    LastIndexOfAbsent(Sanitize(filePath), '/');
    LastIndexOfAbsent(Sanitize(pattern), '/');
  }

  /**
   * Whenever GlobPath accepts a path with a directory, the file name after
   * the path's last '/' matches, in the sense of Wild, the file pattern
   * after the sanitised pattern's last '/' (or the whole pattern if it has none).
   */
  lemma GlobPathFileNameMatches(filePath: string, pattern: string)
    requires |filePath| > 0 && |pattern| > 0
    requires !NoWildcards(Sanitize(pattern)) && '/' in Sanitize(filePath)
    requires GlobPath(Some(filePath), Some(pattern)) == Ok(true)
    ensures var path := Sanitize(filePath);
      var pat := Sanitize(pattern);
      Wild(path[LastIndexOf(path, '/') + 1..], pat[LastIndexOf(pat, '/') + 1..])
  {
    var path := Sanitize(filePath);
    var pat := Sanitize(pattern);
    LastIndexOfAbsent(path, '/');
    LastIndexOfAbsent(pat, '/');
    var file := path[LastIndexOf(path, '/') + 1..];
    var filePattern := pat[LastIndexOf(pat, '/') + 1..];
    if '/' in pat {
      GlobPathDirectoryAndFile(filePath, pattern);
    } else {
      GlobPathFileNameOnly(filePath, pattern);
      assert filePattern == pat;
    }
    assert GlobSpec(file, filePattern) == Ok(true);
    GlobSound(file, filePattern);
  }

  /** A name with no '\' and no leading '/' is its own sanitised form. */
  lemma SanitizePlain(s: string)
    requires |s| > 0 && '\\' !in s && s[0] != '/'
    ensures Sanitize(s) == s
  {
    assert ReplaceChar(s, '\\', '/') == s;
  }

  /**
   * A path and a wildcard pattern that both have a directory: the directory
   * rule decides first, and only then is the file name globbed against the
   * file pattern.
   */
  lemma GlobPathDirectoryAndFile(filePath: string, pattern: string)
    requires |filePath| > 0 && |pattern| > 0
    requires !NoWildcards(Sanitize(pattern)) && '/' in Sanitize(filePath) && '/' in Sanitize(pattern)
    ensures var path := Sanitize(filePath);
      var pat := Sanitize(pattern);
      var lp := LastIndexOf(path, '/');
      var lq := LastIndexOf(pat, '/');
      0 <= lp && 0 <= lq &&
      GlobPath(Some(filePath), Some(pattern)) ==
        if DirMatches(path, path[..lp], pat[..lq]) then GlobSpec(path[lp + 1..], pat[lq + 1..]) else Ok(false)
  {
    IndexOfAbsent(Sanitize(pattern), '*');
    IndexOfAbsent(Sanitize(pattern), '?');
    LastIndexOfAbsent(Sanitize(filePath), '/');
    LastIndexOfAbsent(Sanitize(pattern), '/');
  }

  /**
   * The same decision in terms of what the patterns mean: when the file
   * pattern has no `?` directly before a literal, GlobPath accepts exactly when
   * the directory rule holds and the file name is `Wild` of the file pattern.
   */
  lemma GlobPathDirectoryAndFileWild(filePath: string, pattern: string)
    requires |filePath| > 0 && |pattern| > 0
    requires !NoWildcards(Sanitize(pattern)) && '/' in Sanitize(filePath) && '/' in Sanitize(pattern)
    requires QuestionsGuarded(Sanitize(pattern)[LastIndexOf(Sanitize(pattern), '/') + 1..])
    ensures var path := Sanitize(filePath);
      var pat := Sanitize(pattern);
      var lp := LastIndexOf(path, '/');
      var lq := LastIndexOf(pat, '/');
      0 <= lp && 0 <= lq &&
      GlobPath(Some(filePath), Some(pattern)) ==
        Ok(DirMatches(path, path[..lp], pat[..lq]) && Wild(path[lp + 1..], pat[lq + 1..]))
  {
    var path := Sanitize(filePath);
    var pat := Sanitize(pattern);
    var lp := LastIndexOf(path, '/');
    var lq := LastIndexOf(pat, '/');
    GlobPathDirectoryAndFile(filePath, pattern);
    var file, filePattern := path[lp + 1..], pat[lq + 1..];
    GlobTotal(file, filePattern);
    var dir := DirMatches(path, path[..lp], pat[..lq]);
    assert GlobPath(Some(filePath), Some(pattern)) == if dir then GlobSpec(file, filePattern) else Ok(false);
    assert GlobSpec(file, filePattern) == Ok(Wild(file, filePattern));
  }

  /** A text with no two adjacent `*` has no "**". */
  lemma NoDoubleStar(s: string)
    requires forall i :: 0 <= i < |s| - 1 ==> s[i] != '*' || s[i + 1] != '*'
    ensures IndexOfFrom(s, "**", 0) == -1
  {
    forall q | 0 <= q && q + 2 <= |s|
      ensures !OccursAt(s, "**", q)
    {
      assert s[q..q + 2][0] == s[q] && s[q..q + 2][1] == s[q + 1];
    }
  }

  /** "*.cs" accepts "b.cs" and "A.CS" (file names are compared case-insensitively). */
  lemma GlobStarDotCs(v: string)
    requires v == "b.cs" || v == "A.CS"
    ensures GlobSpec(v, "*.cs") == Ok(true)
  {
    var w := v[1..];
    GlobLiteral(w, ".cs");
    GlobTotal(w, ".cs");
    assert Wild(w, ".cs");
    WildStar(v, ".cs", 0);
    assert ['*'] + ".cs" == "*.cs" && v[0..] == v;
    GlobTotal(v, "*.cs");
  }

  lemma DirSegSrcA()
    ensures DirSeg("src/a", "src/*")
    ensures !DirSeg("src/a/x", "src/*")
  {
    assert DirSeg("", "");
    assert DirSeg("a"[1..], "*") by { assert "a"[1..] == "" && "*"[1..] == ""; }
    assert DirSeg("a", "*");
    assert !DirSeg("a/x", "*") by {
      assert "a/x"[1] == '/';
      if DirSeg("a/x", "*") {
        DirSegStaysInSegment("a/x", "*");
      }
    }
    assert "/a"[1..] == "a" && "/*"[1..] == "*" && "/a/x"[1..] == "a/x";
    assert DirSeg("/a", "/*") && !DirSeg("/a/x", "/*");
    assert "c/a"[1..] == "/a" && "c/*"[1..] == "/*" && "c/a/x"[1..] == "/a/x";
    assert DirSeg("c/a", "c/*") && !DirSeg("c/a/x", "c/*");
    assert "rc/a"[1..] == "c/a" && "rc/*"[1..] == "c/*" && "rc/a/x"[1..] == "c/a/x";
    assert DirSeg("rc/a", "rc/*") && !DirSeg("rc/a/x", "rc/*");
    assert "src/a"[1..] == "rc/a" && "src/*"[1..] == "rc/*" && "src/a/x"[1..] == "rc/a/x";
  }

  /** Where the first example pattern splits. */
  lemma OneLevelPattern()
    ensures Sanitize("src/*/*.cs") == "src/*/*.cs" && !NoWildcards("src/*/*.cs")
    ensures LastIndexOf("src/*/*.cs", '/') == 5 && "src/*/*.cs"[..5] == "src/*" && "src/*/*.cs"[6..] == "*.cs"
  {
    var pat := "src/*/*.cs";
    SanitizePlain(pat);
    assert pat[4] == '*' && pat[5] == '/';
    LastIndexOfUnique(pat, '/', 5);
  }

  /** What the directory rule of the first example pattern accepts. */
  lemma OneLevelDirectory()
    ensures DirMatches("src/a/b.cs", "src/a", "src/*") && !DirMatches("src/a/x/b.cs", "src/a/x", "src/*")
  {
    NoDoubleStar("src/*");
    IndexOfAbsent("src/*", '*');
    assert "src/*"[4] == '*';
    DirSegSrcA();
  }

  /** Where the second example pattern splits, and that its directory is compared literally. */
  lemma CasePattern()
    ensures Sanitize("src/*.cs") == "src/*.cs" && !NoWildcards("src/*.cs")
    ensures LastIndexOf("src/*.cs", '/') == 3 && "src/*.cs"[..3] == "src" && "src/*.cs"[4..] == "*.cs"
    ensures forall path, dir :: DirMatches(path, dir, "src") == (dir == "src")
  {
    var pat := "src/*.cs";
    SanitizePlain(pat);
    assert pat[3] == '/' && pat[4] == '*';
    LastIndexOfUnique(pat, '/', 3);
    NoDoubleStar("src");
    IndexOfAbsent("src", '*');
    IndexOfAbsent("src", '?');
  }

  /** Slashes of the example paths. */
  lemma ExamplePaths()
    ensures Sanitize("src/a/b.cs") == "src/a/b.cs" && LastIndexOf("src/a/b.cs", '/') == 5
    ensures "src/a/b.cs"[..5] == "src/a" && "src/a/b.cs"[6..] == "b.cs"
    ensures Sanitize("src/a/x/b.cs") == "src/a/x/b.cs" && LastIndexOf("src/a/x/b.cs", '/') == 7
    ensures "src/a/x/b.cs"[..7] == "src/a/x"
    ensures Sanitize("SRC/a.cs") == "SRC/a.cs" && LastIndexOf("SRC/a.cs", '/') == 3 && "SRC/a.cs"[..3] == "SRC"
    ensures Sanitize("src/A.CS") == "src/A.CS" && LastIndexOf("src/A.CS", '/') == 3
    ensures "src/A.CS"[..3] == "src" && "src/A.CS"[4..] == "A.CS"
  {
    SanitizePlain("src/a/b.cs");
    assert "src/a/b.cs"[5] == '/';
    LastIndexOfUnique("src/a/b.cs", '/', 5);
    SanitizePlain("src/a/x/b.cs");
    assert "src/a/x/b.cs"[7] == '/';
    LastIndexOfUnique("src/a/x/b.cs", '/', 7);
    SanitizePlain("SRC/a.cs");
    assert "SRC/a.cs"[3] == '/';
    LastIndexOfUnique("SRC/a.cs", '/', 3);
    SanitizePlain("src/A.CS");
    assert "src/A.CS"[3] == '/';
    LastIndexOfUnique("src/A.CS", '/', 3);
  }

  /**
   * A directory pattern with a wildcard but no `**` and no `?` only accepts
   * paths whose directory has the same number of levels: here, one wildcard
   * segment under "src" never accepts a file two levels below "src".
   */
  lemma GlobPathOneLevelExample()
    ensures GlobPath(Some("src/a/b.cs"), Some("src/*/*.cs")) == Ok(true)
    ensures GlobPath(Some("src/a/x/b.cs"), Some("src/*/*.cs")) == Ok(false)
  {
    OneLevelPattern();
    OneLevelDirectory();
    ExamplePaths();
    GlobStarDotCs("b.cs");
    GlobPathDirectoryAndFile("src/a/b.cs", "src/*/*.cs");
    GlobPathDirectoryAndFile("src/a/x/b.cs", "src/*/*.cs");
  }

  /** The directory part is compared case-sensitively, the file part case-insensitively. */
  lemma GlobPathCaseExample()
    ensures GlobPath(Some("SRC/a.cs"), Some("src/*.cs")) == Ok(false)
    ensures GlobPath(Some("src/A.CS"), Some("src/*.cs")) == Ok(true)
  {
    CasePattern();
    ExamplePaths();
    GlobStarDotCs("A.CS");
    GlobPathDirectoryAndFile("SRC/a.cs", "src/*.cs");
    GlobPathDirectoryAndFile("src/A.CS", "src/*.cs");
  }

  /**
   * A directory pattern with "**" only asks that the whole path start with
   * the text before its first "**", less trailing `*` and '/'.
   */
  lemma DoubleStarRule(path: string, dir: string, dirPattern: string, k: nat)
    requires k + 2 <= |dirPattern| && dirPattern[k] == '*' && dirPattern[k + 1] == '*'
    requires forall q :: 0 <= q < k ==> dirPattern[q] != '*' || dirPattern[q + 1] != '*'
    ensures DirMatches(path, dir, dirPattern) == StartsWith(path, TrimEndChars(dirPattern[..k], {'*', '/'}))
  {
    FirstDoubleStar(dirPattern, k);
  }

  /** Both searches for "**" report its first occurrence `k`. */
  lemma FirstDoubleStar(dirPattern: string, k: nat)
    requires k + 2 <= |dirPattern| && dirPattern[k] == '*' && dirPattern[k + 1] == '*'
    requires forall q :: 0 <= q < k ==> dirPattern[q] != '*' || dirPattern[q + 1] != '*'
    ensures IndexOfFrom(dirPattern, "**", 0) >= 0
    ensures IndexOfIgnoreCase(dirPattern, "**") == k
  {
    assert OccursAt(dirPattern, "**", k) by {
      assert dirPattern[k..k + 2] == "**";
    }
    IndexOfFromFirst(dirPattern, "**", 0);
    FirstDoubleStarIgnoringCase(dirPattern, k);
  }

  lemma FirstDoubleStarIgnoringCase(dirPattern: string, k: nat)
    requires k + 2 <= |dirPattern| && dirPattern[k] == '*' && dirPattern[k + 1] == '*'
    requires forall q :: 0 <= q < k ==> dirPattern[q] != '*' || dirPattern[q + 1] != '*'
    ensures IndexOfIgnoreCase(dirPattern, "**") == k
  {
    assert OccursAtIgnoreCase(dirPattern, "**", k);
    IndexOfIgnoreCaseFromFirst(dirPattern, "**", 0);
    var r := IndexOfIgnoreCase(dirPattern, "**");
    assert 0 <= r <= k && OccursAtIgnoreCase(dirPattern, "**", r);
    assert ToUpper(dirPattern[r]) == ToUpper('*') && ToUpper(dirPattern[r + 1]) == ToUpper('*') by {
      assert "**"[0] == '*' && "**"[1] == '*';
    }
    ToUpperIdempotent(dirPattern[r]);
    ToUpperIdempotent(dirPattern[r + 1]);
    assert dirPattern[r] == '*' && dirPattern[r + 1] == '*';
  }

  /**
   * The directory pattern "src" followed by "**" is a plain text prefix, not
   * a directory boundary: it accepts files at any depth below "src", and
   * also under "srcx".
   */
  lemma GlobPathDoubleStarExample()
    ensures GlobPath(Some("src/a/x/b.cs"), Some("src/**/*.cs")) == Ok(true)
    ensures GlobPath(Some("srcx/b.cs"), Some("src/**/*.cs")) == Ok(true)
  {
    DoubleStarPattern();
    DoubleStarPaths();
    GlobStarDotCs("b.cs");
    GlobPathDirectoryAndFile("src/a/x/b.cs", "src/**/*.cs");
    GlobPathDirectoryAndFile("srcx/b.cs", "src/**/*.cs");
  }

  /** Where the "**" example pattern splits, and the prefix its directory rule asks for. */
  lemma DoubleStarPattern()
    ensures Sanitize("src/**/*.cs") == "src/**/*.cs" && !NoWildcards("src/**/*.cs")
    ensures LastIndexOf("src/**/*.cs", '/') == 6 && "src/**/*.cs"[..6] == "src/**" && "src/**/*.cs"[7..] == "*.cs"
    ensures forall path, dir :: DirMatches(path, dir, "src/**") == StartsWith(path, "src")
  {
    var pat := "src/**/*.cs";
    SanitizePlain(pat);
    assert pat[4] == '*' && pat[6] == '/';
    LastIndexOfUnique(pat, '/', 6);
    var dp := "src/**";
    assert dp[..4] == "src/";
    assert TrimEndChars("src/", {'*', '/'}) == "src" by {
      assert "src/"[..3] == "src" && "src"[2] !in {'*', '/'};
    }
    forall path, dir ensures DirMatches(path, dir, dp) == StartsWith(path, "src") {
      DoubleStarRule(path, dir, dp, 4);
    }
  }

  lemma DoubleStarPaths()
    ensures Sanitize("src/a/x/b.cs") == "src/a/x/b.cs" && LastIndexOf("src/a/x/b.cs", '/') == 7
    ensures "src/a/x/b.cs"[8..] == "b.cs" && StartsWith("src/a/x/b.cs", "src")
    ensures Sanitize("srcx/b.cs") == "srcx/b.cs" && LastIndexOf("srcx/b.cs", '/') == 4
    ensures "srcx/b.cs"[5..] == "b.cs" && StartsWith("srcx/b.cs", "src")
  {
    SanitizePlain("src/a/x/b.cs");
    assert "src/a/x/b.cs"[7] == '/';
    LastIndexOfUnique("src/a/x/b.cs", '/', 7);
    assert "src/a/x/b.cs"[..3] == "src";
    SanitizePlain("srcx/b.cs");
    assert "srcx/b.cs"[4] == '/';
    LastIndexOfUnique("srcx/b.cs", '/', 4);
    assert "srcx/b.cs"[..3] == "src";
  }

  // ---------------------------------------------------------------------------
  // The raw pattern in the single-segment branch

  /**
   * As written, a leading '/' on the pattern is ignored for paths with a
   * directory but not for a bare file name, which the pattern with the
   * leading '/' then no longer accepts.
   */
  lemma GlobPathLeadingSlashMismatch()
    ensures GlobPath(Some("a.txt"), Some("*.txt")) == Ok(true)
    ensures GlobPath(Some("a.txt"), Some("/*.txt")) == Ok(false)
    ensures GlobPathIntended(Some("a.txt"), Some("/*.txt")) == Ok(true)
  {
    BareNameFacts();
    GlobStarDotTxt();
    assert Scan("a.txt", "/*.txt", 0) == Ok(false);
  }

  /** The bare example name has no directory; the example pattern has a wildcard and is its own sanitised form. */
  lemma BareNameFacts()
    ensures Sanitize("a.txt") == "a.txt" && LastIndexOf("a.txt", '/') == -1
    ensures Sanitize("*.txt") == "*.txt" && Sanitize("/*.txt") == "*.txt" && IndexOf("*.txt", '*') != -1
  {
    SanitizePlain("a.txt");
    LastIndexOfAbsent("a.txt", '/');
    SanitizePlain("*.txt");
    SanitizeLeadingSeparator('/', "*.txt");
    assert ['/'] + "*.txt" == "/*.txt";
    IndexOfAbsent("*.txt", '*');
    assert "*.txt"[0] == '*';
  }

  lemma GlobStarDotTxt()
    ensures GlobSpec("a.txt", "*.txt") == Ok(true)
  {
    GlobTotal("a.txt", "*.txt");
    assert Wild("a.txt", "*.txt") by {
      assert "*.txt"[1..] == ".txt" && "a.txt"[1..] == ".txt";
      assert Wild(".txt", ".txt") by {
        assert ".txt"[1..] == "txt" && "txt"[1..] == "xt" && "xt"[1..] == "t" && "t"[1..] == "";
      }
    }
  }

  /** With the sanitised pattern throughout, a leading '/' or '\' on the pattern never matters. */
  lemma GlobPathIntendedLeadingSeparator(filePath: Option<string>, sep: char, pattern: string)
    requires sep == '/' || sep == '\\'
    requires |pattern| > 0 && pattern[0] != '/' && pattern[0] != '\\'
    ensures GlobPathIntended(filePath, Some([sep] + pattern)) == GlobPathIntended(filePath, Some(pattern))
  {
    SanitizeLeadingSeparator(sep, pattern);
  }

  /** Where a path has a directory, the two versions agree. */
  lemma GlobPathIntendedAgrees(filePath: string, pattern: string)
    requires |filePath| > 0 && |pattern| > 0 && '/' in Sanitize(filePath)
    ensures GlobPathIntended(Some(filePath), Some(pattern)) == GlobPath(Some(filePath), Some(pattern))
  {
    LastIndexOfAbsent(Sanitize(filePath), '/');
  }
}
