/**
 * PathUtils: the URL path joiner behind CombineWith. Segments are appended
 * one by one to a StringBuilder; each non-empty one gets a leading `/`
 * unless it already starts with a separator, and its own `\` become `/`.
 */
module PathUtils {

  import opened Wrappers
  import opened Text

  /** The part of System.Text.StringBuilder the joiner uses: its text, changed in place. */
  class StringBuilder {
    var content: string

    constructor ()
      ensures content == ""
    {
      content := "";
    }

    /** Append(s): `s` goes at the end. */
    method Append(s: string)
      modifies this
      ensures content == old(content) + s
    {
      content := content + s;
    }

    /**
     * Replace(oldChar, newChar, startIndex, count): `oldChar` becomes
     * `newChar` inside the given range only. A range past the end throws in
     * .NET, so callers keep inside the text.
     */
    method Replace(oldChar: char, newChar: char, startIndex: nat, count: nat)
      requires startIndex + count <= |content|
      modifies this
      ensures content == old(content)[..startIndex]
                         + ReplaceChar(old(content)[startIndex..startIndex + count], oldChar, newChar)
                         + old(content)[startIndex + count..]
    {
      ghost var before := content;
      var i := startIndex;
      while i < startIndex + count
        invariant startIndex <= i <= startIndex + count
        invariant |content| == |before|
        invariant forall k :: 0 <= k < |content| ==>
          content[k] == if startIndex <= k < i && before[k] == oldChar then newChar else before[k]
      {
        if content[i] == oldChar {
          content := content[i := newChar];
        }
        i := i + 1;
      }
      var mid := ReplaceChar(before[startIndex..startIndex + count], oldChar, newChar);
      assert content == before[..startIndex] + mid + before[startIndex + count..] by {
        forall k | 0 <= k < |content|
          ensures content[k] == (before[..startIndex] + mid + before[startIndex + count..])[k]
        {
          if startIndex <= k < startIndex + count {
            assert before[startIndex..startIndex + count][k - startIndex] == before[k];
          }
        }
      }
    }
  }

  /** A null or empty segment, which the joiner skips. */
  predicate Missing(path: Option<string>)
  {
    path.None? || |path.value| == 0
  }

  /** What one iteration of AppendPaths adds to the builder. */
  function PathSegment(path: Option<string>): string
  {
    if Missing(path) then ""
    else Lead(path.value) + ReplaceChar(path.value, '\\', '/')
  }

  /** The separator AppendPaths adds before a segment: none when it starts with `/` or `\`. */
  function Lead(p: string): string
    requires |p| > 0
  {
    if p[0] != '/' && p[0] != '\\' then "/" else ""
  }

  /** What AppendPaths adds for all of `paths`, in order. */
  function Joined(paths: seq<Option<string>>): string
  {
    if |paths| == 0 then "" else Joined(paths[..|paths| - 1]) + PathSegment(paths[|paths| - 1])
  }

  lemma JoinedStep(paths: seq<Option<string>>, i: nat)
    requires i < |paths|
    ensures Joined(paths[..i + 1]) == Joined(paths[..i]) + PathSegment(paths[i])
  {
    assert paths[..i + 1][..i] == paths[..i];
  }

  /** The text just appended is the range starting at the old length. */
  lemma AppendedRange(prefix: string, p: string)
    ensures var c := prefix + p;
      c[..|prefix|] == prefix && c[|prefix|..|prefix| + |p|] == p && c[|prefix| + |p|..] == []
  {
  }

  /** One iteration of the `foreach` in AppendPaths. */
  method AppendSegment(sb: StringBuilder, path: Option<string>)
    modifies sb
    ensures sb.content == old(sb.content) + PathSegment(path)
  {
    if path.None? || |path.value| == 0 {
      return;
    }
    var p := path.value;
    AppendLead(sb, p);
    AppendNormalized(sb, p);
  }

  /** The `/` put in front of a segment that does not start with a separator. */
  method AppendLead(sb: StringBuilder, p: string)
    requires |p| > 0
    modifies sb
    ensures sb.content == old(sb.content) + Lead(p)
  {
    if p[0] != '/' && p[0] != '\\' {
      sb.Append("/");
    } else {
      assert sb.content + "" == sb.content;
    }
  }

  /** Append the segment, then turn `\` into `/` inside the text just appended. */
  method AppendNormalized(sb: StringBuilder, p: string)
    modifies sb
    ensures sb.content == old(sb.content) + ReplaceChar(p, '\\', '/')
  {
    var length := |sb.content|;
    ghost var prefix := sb.content;
    sb.Append(p);
    AppendedRange(prefix, p);
    sb.Replace('\\', '/', length, |p|);
    assert sb.content == prefix + ReplaceChar(p, '\\', '/') + [];
  }

  /** The `i`-th pass of the loop: the builder then holds the first `i + 1` segments. */
  method AppendNext(sb: StringBuilder, paths: seq<Option<string>>, i: nat, ghost start: string)
    requires i < |paths| && sb.content == start + Joined(paths[..i])
    modifies sb
    ensures sb.content == start + Joined(paths[..i + 1])
  {
    AppendSegment(sb, paths[i]);
    JoinedStep(paths, i);
  }

  /**
   * AppendPaths(sb, paths): the builder keeps what it held and gains the
   * segments, in order; only the text just appended is rewritten.
   */
  method AppendPaths(sb: StringBuilder, paths: seq<Option<string>>)
    modifies sb
    ensures sb.content == old(sb.content) + Joined(paths)
  {
    ghost var start := sb.content;
    for i := 0 to |paths|
      invariant sb.content == start + Joined(paths[..i])
    {
      AppendNext(sb, paths, i, start);
    }
    assert paths[..|paths|] == paths;
  }

  /** CombinePaths(paths), as a value. */
  function CombinePathsSpec(paths: seq<Option<string>>): string
  {
    if |paths| == 0 then "/" else Joined(paths)
  }

  /** CombinePaths(params paths): "/" for no segments, otherwise the joined segments. */
  method CombinePaths(paths: seq<Option<string>>) returns (r: string)
    ensures r == CombinePathsSpec(paths)
  {
    if |paths| == 0 {
      return "/";
    }
    var sb := new StringBuilder();
    AppendPaths(sb, paths);
    assert "" + Joined(paths) == Joined(paths);
    return sb.content;
  }

  /** The base URL as CombineWith keeps it: `\` turned into `/` and trailing `/` trimmed. */
  function BasePart(baseUrl: string): string
  {
    TrimEndChars(ReplaceChar(baseUrl, '\\', '/'), {'/'})
  }

  /** CombineWith(baseUrl, params paths), as a value. */
  function CombineWithSpec(baseUrl: Option<string>, paths: seq<Option<string>>): string
  {
    if Missing(baseUrl) then CombinePathsSpec(paths) else BasePart(baseUrl.value) + CombinePathsSpec(paths)
  }

  /** CombineWith(baseUrl, params paths). */
  method CombineWith(baseUrl: Option<string>, paths: seq<Option<string>>) returns (r: string)
    ensures r == CombineWithSpec(baseUrl, paths)
  {
    if baseUrl.None? || |baseUrl.value| == 0 {
      r := CombinePaths(paths);
      return;
    }
    var combined := CombinePaths(paths);
    r := TrimEndChars(ReplaceChar(baseUrl.value, '\\', '/'), {'/'}) + combined;
  }

  // ---------------------------------------------------------------------------
  // Properties of the joiner

  /**
   * A skipped segment adds nothing; any other adds exactly one leading `/`,
   * its own or a new one, followed by the segment with `\` turned into `/`.
   */
  lemma PathSegmentMeaning(path: Option<string>)
    ensures Missing(path) <==> PathSegment(path) == ""
    ensures !Missing(path) ==>
      var p := path.value;
      var r := PathSegment(path);
      && r[0] == '/' && '\\' !in r
      && (|r| == |p| <==> p[0] == '/' || p[0] == '\\')
      && |r| - |p| in {0, 1}
      && forall k :: 0 <= k < |p| ==> r[|r| - |p| + k] == if p[k] == '\\' then '/' else p[k]
  {
    if !Missing(path) {
      var p := path.value;
      var r := PathSegment(path);
      var q := ReplaceChar(p, '\\', '/');
      assert |q| > 0 && q[0] == if p[0] == '\\' then '/' else p[0];
      if p[0] != '/' && p[0] != '\\' {
        assert r == "/" + q;
      } else {
        assert r == "" + q;
      }
    }
  }

  /** Joining is a homomorphism: the segments of `p + q` are those of `p`, then those of `q`. */
  lemma {:induction false} JoinedConcat(p: seq<Option<string>>, q: seq<Option<string>>)
    ensures Joined(p + q) == Joined(p) + Joined(q)
    decreases |q|
  {
    if |q| == 0 {
      assert p + q == p;
    } else {
      var q' := q[..|q| - 1];
      var last := PathSegment(q[|q| - 1]);
      assert Joined(p + q) == Joined(p + q') + last by {
        assert (p + q)[..|p + q| - 1] == p + q' && (p + q)[|p + q| - 1] == q[|q| - 1];
      }
      JoinedConcat(p, q');
    }
  }

  /** The joined segments never hold a `\`. */
  lemma {:induction false} JoinedNoBackslash(paths: seq<Option<string>>)
    ensures '\\' !in Joined(paths)
  {
    if |paths| > 0 {
      JoinedNoBackslash(paths[..|paths| - 1]);
      PathSegmentMeaning(paths[|paths| - 1]);
    }
  }

  /** The joined segments are empty exactly when every segment is null or empty. */
  lemma {:induction false} JoinedEmpty(paths: seq<Option<string>>)
    ensures Joined(paths) == "" <==> forall i :: 0 <= i < |paths| ==> Missing(paths[i])
  {
    if |paths| > 0 {
      var init := paths[..|paths| - 1];
      JoinedEmpty(init);
      PathSegmentMeaning(paths[|paths| - 1]);
      assert forall i :: 0 <= i < |init| ==> init[i] == paths[i];
    }
  }

  /** Non-empty joined segments begin with `/`. */
  lemma {:induction false} JoinedStartsWithSlash(paths: seq<Option<string>>)
    ensures Joined(paths) == "" || Joined(paths)[0] == '/'
  {
    if |paths| > 0 {
      JoinedStartsWithSlash(paths[..|paths| - 1]);
      PathSegmentMeaning(paths[|paths| - 1]);
    }
  }

  /**
   * CombinePaths gives "/" for no segments, "" when every segment is null or
   * empty, and otherwise text that starts with `/` and holds no `\`.
   */
  lemma CombinePathsShape(paths: seq<Option<string>>)
    ensures |paths| == 0 ==> CombinePathsSpec(paths) == "/"
    ensures |paths| > 0 ==> (CombinePathsSpec(paths) == "" <==> forall i :: 0 <= i < |paths| ==> Missing(paths[i]))
    ensures CombinePathsSpec(paths) == "" || CombinePathsSpec(paths)[0] == '/'
    ensures '\\' !in CombinePathsSpec(paths)
  {
    JoinedEmpty(paths);
    JoinedStartsWithSlash(paths);
    JoinedNoBackslash(paths);
  }

  /** The segments of the example, one at a time. */
  lemma SlashDoublingSegments()
    ensures PathSegment(Some("a/")) == "/a/"
    ensures PathSegment(Some("b")) == "/b"
    ensures "/a/" + "/b" == "/a//b"
  {
    assert ReplaceChar("a/", '\\', '/') == "a/";
    assert ReplaceChar("b", '\\', '/') == "b";
  }

  /** Slashes are not collapsed: ["a/", "b"] gives "/a//b". */
  lemma CombinePathsExample()
    ensures CombinePathsSpec([Some("a/"), Some("b")]) == "/a//b"
  {
    SlashDoublingSegments();
    JoinedConcat([Some("a/")], [Some("b")]);
    assert [Some("a/")] + [Some("b")] == [Some("a/"), Some("b")];
    assert [Some("a/")][..0] == [];
  }

  /**
   * With a base, CombineWith keeps the base with `\` turned into `/` and its
   * trailing `/` removed, and the joined segments follow, starting with the
   * one `/` between them; no `\` is left anywhere.
   */
  lemma CombineWithShape(baseUrl: Option<string>, paths: seq<Option<string>>)
    ensures Missing(baseUrl) ==> CombineWithSpec(baseUrl, paths) == CombinePathsSpec(paths)
    ensures !Missing(baseUrl) ==>
      var b := BasePart(baseUrl.value);
      var r := CombineWithSpec(baseUrl, paths);
      && b == ReplaceChar(baseUrl.value, '\\', '/')[..|b|]
      && (forall i :: |b| <= i < |baseUrl.value| ==> baseUrl.value[i] in {'/', '\\'})
      && (|b| > 0 ==> r[|b| - 1] != '/')
      && (|r| > |b| ==> r[|b|] == '/')
      && r[..|b|] == b
    ensures '\\' !in CombineWithSpec(baseUrl, paths)
  {
    CombinePathsShape(paths);
    if !Missing(baseUrl) {
      var s := ReplaceChar(baseUrl.value, '\\', '/');
      TrimEndCharsMeaning(s, {'/'});
      var b := BasePart(baseUrl.value);
      var r := CombineWithSpec(baseUrl, paths);
      assert r == b + CombinePathsSpec(paths);
      assert '\\' !in b by {
        forall i | 0 <= i < |b| ensures b[i] != '\\' {
          assert b[i] == s[i];
        }
      }
      forall i | |b| <= i < |baseUrl.value| ensures baseUrl.value[i] in {'/', '\\'} {
        assert s[i] == '/';
      }
    }
  }
}
