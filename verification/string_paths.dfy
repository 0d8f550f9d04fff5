/**
 * The path helpers of StringExtensions: WithTrailingSlash, AppendPath,
 * AppendPaths, WithoutExtension, GetExtension and ToParentPath. A null
 * string is `None`; a NullReferenceException is `Error(NullReference)`.
 */
module StringPaths {

  import opened Wrappers
  import opened Text
  import PclExport
  import UrlEncoding
  import StringParts

  // ---------------------------------------------------------------------------
  // WithTrailingSlash

  /** WithTrailingSlash: the path with `/` appended unless it already ends in one; null + "/" is "/". */
  function WithTrailingSlash(path: Option<string>): (r: string)
    ensures |r| > 0 && r[|r| - 1] == '/'
  {
    if path.None? then "/"
    else if path.value == [] || path.value[|path.value| - 1] != '/' then path.value + "/"
    else path.value
  }

  /**
   * The path comes back unchanged exactly when it already ends in `/`, and
   * otherwise with one `/` appended (null reads as "").
   */
  lemma WithTrailingSlashMeaning(path: Option<string>)
    ensures var p := if path.None? then [] else path.value;
      var r := WithTrailingSlash(path);
      && (r == p <==> |p| > 0 && p[|p| - 1] == '/')
      && (r != p ==> r == p + "/")
  {
    if path.None? {
      assert [] + "/" == "/";
    }
  }

  /** A second WithTrailingSlash changes nothing. */
  lemma WithTrailingSlashIdempotent(path: Option<string>)
    ensures WithTrailingSlash(Some(WithTrailingSlash(path))) == WithTrailingSlash(path)
  {
  }

  // ---------------------------------------------------------------------------
  // AppendPaths

  /**
   * What AppendPaths appends for one component: the component URL-encoded
   * when `escape` (a null component encodes to ""), or with its leading `/`
   * trimmed otherwise, where a null component throws (`None`).
   */
  function Segment(urlCom: Option<string>, escape: bool): (r: Option<string>)
    ensures r.None? <==> !escape && urlCom.None?
  {
    if escape then Some(UrlEncoding.UrlEncodeSpec(urlCom, false))
    else if urlCom.None? then None
    else Some(TrimStartChars(urlCom.value, {'/'}))
  }

  /** The segment of every component, in order. */
  function Segments(comps: seq<Option<string>>, escape: bool): (segs: seq<Option<string>>)
    ensures |segs| == |comps|
    ensures forall k :: 0 <= k < |comps| ==> segs[k] == Segment(comps[k], escape)
  {
    if comps == [] then []
    else
      var rest := Segments(comps[1..], escape);
      assert forall k :: 1 <= k < |comps| ==> comps[k] == comps[1..][k - 1];
      [Segment(comps[0], escape)] + rest
  }

  /**
   * The builder after appending `segs[i..]` to `sb`, each segment after a `/`
   * unless the builder ends in one; a missing segment throws.
   */
  function AppendSegments(sb: string, segs: seq<Option<string>>, i: nat): Result<string>
    requires i <= |segs|
    decreases |segs| - i
  {
    if i == |segs| then Ok(sb)
    else if segs[i].None? then Error(NullReference)
    else AppendSegments(WithTrailingSlash(Some(sb)) + segs[i].value, segs, i + 1)
  }

  lemma AppendSegmentsStep(sb: string, segs: seq<Option<string>>, i: nat)
    requires i < |segs|
    ensures segs[i].None? ==> AppendSegments(sb, segs, i) == Error(NullReference)
    ensures segs[i].Some? ==>
      AppendSegments(sb, segs, i) == AppendSegments(WithTrailingSlash(Some(sb)) + segs[i].value, segs, i + 1)
  {
  }

  /** AppendPaths(baseUriString, uriComponents, escape), as a value. */
  function AppendPathsSpec(baseUriString: Option<string>, uriComponents: Option<seq<Option<string>>>, escape: bool): Result<string>
  {
    var sb := WithTrailingSlash(baseUriString);
    if uriComponents.None? then Ok(sb) else AppendSegments(sb, Segments(uriComponents.value, escape), 0)
  }

  /**
   * AppendPaths(baseUriString, uriComponents, escape): a string builder seeded
   * with the base, which gets a trailing `/`, then each component after a `/`.
   */
  method AppendPaths(baseUriString: Option<string>, uriComponents: Option<seq<Option<string>>>, escape: bool)
    returns (r: Result<string>)
    ensures r == AppendPathsSpec(baseUriString, uriComponents, escape)
  {
    var sb := if baseUriString.None? then "" else baseUriString.value;
    if |sb| == 0 || sb[|sb| - 1] != '/' {
      sb := sb + "/";
    }
    assert sb == WithTrailingSlash(baseUriString) by {
      if baseUriString.None? {
        assert "" + "/" == "/";
      }
    }
    if uriComponents.None? || |uriComponents.value| == 0 {
      return Ok(sb);
    }
    r := AppendComponents(sb, uriComponents.value, escape);
  }

  /** The `foreach` loop of AppendPaths: each component appended to the builder `sb`. */
  method AppendComponents(sb: string, comps: seq<Option<string>>, escape: bool) returns (r: Result<string>)
    requires |sb| > 0
    ensures r == AppendSegments(sb, Segments(comps, escape), 0)
  {
    ghost var segs := Segments(comps, escape);
    var buf := sb;
    var i := 0;
    while i < |comps|
      invariant 0 <= i <= |comps| && |buf| > 0
      invariant AppendSegments(buf, segs, i) == AppendSegments(sb, segs, 0)
    {
      var urlCom := comps[i];
      ghost var before := buf;
      assert segs[i] == Segment(urlCom, escape);
      if buf[|buf| - 1] != '/' {
        buf := buf + "/";
      }
      assert buf == WithTrailingSlash(Some(before));
      if escape {
        var encoded := UrlEncoding.UrlEncode(urlCom, false);
        buf := buf + encoded;
      } else {
        if urlCom.None? {
          AppendSegmentsStep(before, segs, i);
          return Error(NullReference);
        }
        buf := buf + TrimStartChars(urlCom.value, {'/'});
      }
      AppendSegmentsStep(before, segs, i);
      assert buf == WithTrailingSlash(Some(before)) + segs[i].value;
      i := i + 1;
    }
    return Ok(buf);
  }

  /** AppendPaths(baseUriString, params uriComponents): escaping on. */
  method AppendPathsEscaped(baseUriString: Option<string>, uriComponents: Option<seq<Option<string>>>)
    returns (r: Result<string>)
    ensures r == AppendPathsSpec(baseUriString, uriComponents, true)
  {
    r := AppendPaths(baseUriString, uriComponents, true);
  }

  /** AppendPath(baseUriString, uriComponent): one component, escaping off. */
  method AppendPath(baseUriString: Option<string>, uriComponent: Option<string>) returns (r: Result<string>)
    ensures uriComponent.None? ==> r == Error(NullReference)
    ensures uriComponent.Some? ==>
      r == Ok(WithTrailingSlash(baseUriString) + TrimStartChars(uriComponent.value, {'/'}))
  {
    r := AppendPaths(baseUriString, Some([uriComponent]), false);
    var segs := Segments([uriComponent], false);
    assert segs == [Segment(uriComponent, false)];
    if uriComponent.Some? {
      var sb := WithTrailingSlash(baseUriString);
      var next := WithTrailingSlash(Some(sb)) + TrimStartChars(uriComponent.value, {'/'});
      assert AppendSegments(next, segs, 1) == Ok(next);
    }
  }

  /** No two `/` stand next to each other at or after position `k`. */
  ghost predicate NoDoubleSlashFrom(s: string, k: nat)
  {
    forall j :: k <= j && j + 1 < |s| ==> !(s[j] == '/' && s[j + 1] == '/')
  }

  /** Every segment from `i` on is present and holds no `/`. */
  predicate SlashFreeFrom(segs: seq<Option<string>>, i: nat)
  {
    forall k :: i <= k < |segs| ==> segs[k].Some? && '/' !in segs[k].value
  }

  lemma {:induction false} AppendSegmentsJoins(sb: string, segs: seq<Option<string>>, i: nat)
    requires i <= |segs| && |sb| > 0 && SlashFreeFrom(segs, i)
    ensures AppendSegments(sb, segs, i).Ok?
    ensures StartsWith(AppendSegments(sb, segs, i).value, sb)
    ensures NoDoubleSlashFrom(AppendSegments(sb, segs, i).value, |sb| - 1)
    decreases |segs| - i
  {
    if i < |segs| {
      var sep := WithTrailingSlash(Some(sb));
      var seg := segs[i].value;
      var next := sep + seg;
      AppendSegmentsJoins(next, segs, i + 1);
      var r := AppendSegments(next, segs, i + 1).value;
      assert r[..|sb|] == sb by {
        assert r[..|next|] == next;
        assert next[..|sb|] == sb;
      }
      forall j | |sb| - 1 <= j && j + 1 < |r| ensures !(r[j] == '/' && r[j + 1] == '/') {
        if j + 1 < |next| {
          assert r[j] == next[j] && r[j + 1] == next[j + 1];
          if j + 1 >= |sep| {
            assert next[j + 1] == seg[j + 1 - |sep|];
          } else {
            WithTrailingSlashMeaning(Some(sb));
            assert j + 1 == |sb| && sep == sb + "/";
          }
        }
      }
    }
  }

  /**
   * With escaping, AppendPaths never throws, keeps the base with its trailing
   * `/` as a prefix, and joins the components with single `/` separators:
   * after the base no two `/` are adjacent, since the encoding never emits one.
   */
  lemma AppendPathsEscapedJoins(baseUriString: Option<string>, uriComponents: Option<seq<Option<string>>>)
    ensures var r := AppendPathsSpec(baseUriString, uriComponents, true);
      var sb := WithTrailingSlash(baseUriString);
      && r.Ok?
      && StartsWith(r.value, sb)
      && NoDoubleSlashFrom(r.value, |sb| - 1)
  {
    var sb := WithTrailingSlash(baseUriString);
    if uriComponents.Some? {
      var comps := uriComponents.value;
      var segs := Segments(comps, true);
      forall k | 0 <= k < |segs| ensures segs[k].Some? && '/' !in segs[k].value {
        if comps[k].Some? {
          UrlEncoding.UrlEncodeAlphabet(comps[k].value, false);
        }
      }
      AppendSegmentsJoins(sb, segs, 0);
    }
  }

  lemma {:induction false} AppendSegmentsThrows(sb: string, segs: seq<Option<string>>, i: nat)
    requires i <= |segs|
    ensures AppendSegments(sb, segs, i).Ok? <==> forall j :: i <= j < |segs| ==> segs[j].Some?
    ensures AppendSegments(sb, segs, i).Error? ==> AppendSegments(sb, segs, i).failure == NullReference
    decreases |segs| - i
  {
    if i < |segs| && segs[i].Some? {
      AppendSegmentsThrows(WithTrailingSlash(Some(sb)) + segs[i].value, segs, i + 1);
    }
  }

  /** Without escaping, AppendPaths throws exactly when a component is null. */
  lemma AppendPathsUnescapedThrows(baseUriString: Option<string>, comps: seq<Option<string>>)
    ensures var r := AppendPathsSpec(baseUriString, Some(comps), false);
      && (r.Ok? <==> forall j :: 0 <= j < |comps| ==> comps[j].Some?)
      && (r.Error? ==> r.failure == NullReference)
  {
    AppendSegmentsThrows(WithTrailingSlash(baseUriString), Segments(comps, false), 0);
  }

  /** An empty component adds only its separator, which the next one reuses. */
  lemma AppendPathsExample()
    ensures AppendPathsSpec(None, Some([Some("a"), Some(""), Some("b")]), false) == Ok("/a/b")
  {
    var comps := [Some("a"), Some(""), Some("b")];
    var segs := Segments(comps, false);
    assert segs == [Some("a"), Some(""), Some("b")] by {
      assert TrimStartChars("a", {'/'}) == "a";
      assert TrimStartChars("", {'/'}) == "";
      assert TrimStartChars("b", {'/'}) == "b";
    }
    assert AppendSegments("/a/b", segs, 3) == Ok("/a/b");
    assert AppendSegments("/a/", segs, 2) == Ok("/a/b") by {
      assert WithTrailingSlash(Some("/a/")) == "/a/";
      assert "/a/" + "b" == "/a/b";
    }
    assert AppendSegments("/a", segs, 1) == Ok("/a/b") by {
      assert WithTrailingSlash(Some("/a")) + "" == "/a/";
    }
    assert AppendSegments("/", segs, 0) == Ok("/a/b") by {
      assert WithTrailingSlash(Some("/")) + "a" == "/a";
    }
  }

  // ---------------------------------------------------------------------------
  // Extensions

  /** PclExport.DirSeps, as a set. */
  const DirSepSet: set<char> := {PclExport.DirSep, PclExport.AltDirSep}

  /** WithoutExtension: null or "" gives null; the text before the last `.` when no separator follows it. */
  function WithoutExtension(filePath: Option<string>): (r: Option<string>)
    ensures r.None? <==> filePath.None? || filePath.value == []
  {
    if filePath.None? || filePath.value == [] then None
    else
      var s := filePath.value;
      var extPos := LastIndexOf(s, '.');
      if extPos == -1 then Some(s)
      else
        var dirPos := LastIndexOfAny(s, DirSepSet);
        Some(if extPos > dirPos then s[..extPos] else s)
  }

  /** GetExtension: null or "" gives null; the text from the last `.` on, or "". */
  function GetExtension(filePath: Option<string>): (r: Option<string>)
    ensures r.None? <==> filePath.None? || filePath.value == []
  {
    if filePath.None? || filePath.value == [] then None
    else
      var s := filePath.value;
      var extPos := LastIndexOf(s, '.');
      Some(if extPos == -1 then [] else s[extPos..])
  }

  /** GetExtension is "" exactly when there is no `.`, and otherwise a `.` followed by no other `.`. */
  lemma GetExtensionShape(s: string)
    requires s != []
    ensures var ext := GetExtension(Some(s)).value;
      && (ext == [] <==> '.' !in s)
      && (ext != [] ==> ext[0] == '.' && '.' !in ext[1..])
  {
    var ext := GetExtension(Some(s)).value;
    var extPos := LastIndexOf(s, '.');
    LastIndexOfLast(s, '.');
    if extPos != -1 {
      assert '.' !in ext[1..] by {
        forall k | 0 <= k < |ext[1..]| ensures ext[1..][k] != '.' {
          assert ext[1..][k] == s[extPos + 1 + k];
        }
      }
    }
  }

  /**
   * When the extension holds no separator, WithoutExtension is the rest of
   * the path; when it does (the last `.` is in a directory name),
   * WithoutExtension keeps the whole path while GetExtension still reports
   * the suffix.
   */
  lemma ExtensionSplits(s: string)
    requires s != []
    ensures var ext := GetExtension(Some(s)).value;
      && ((forall k :: 0 <= k < |ext| ==> ext[k] !in DirSepSet) ==> WithoutExtension(Some(s)).value + ext == s)
      && ((exists k :: 0 <= k < |ext| && ext[k] in DirSepSet) ==> WithoutExtension(Some(s)) == Some(s))
  {
    var ext := GetExtension(Some(s)).value;
    var extPos := LastIndexOf(s, '.');
    if extPos != -1 {
      var dirPos := LastIndexOfAny(s, DirSepSet);
      if forall k :: 0 <= k < |ext| ==> ext[k] !in DirSepSet {
        forall k | extPos <= k < |s| ensures s[k] !in DirSepSet {
          assert s[k] == ext[k - extPos];
        }
        assert s[..extPos] + ext == s;
      } else {
        var k :| 0 <= k < |ext| && ext[k] in DirSepSet;
        assert s[extPos + k] == ext[k];
      }
    } else {
      assert s + [] == s;
    }
  }

  /** A dotted directory: GetExtension reaches across the separator, WithoutExtension leaves the path alone. */
  lemma ExtensionInDirectoryExample()
    ensures GetExtension(Some("a.b/c")) == Some(".b/c")
    ensures WithoutExtension(Some("a.b/c")) == Some("a.b/c")
    ensures GetExtension(Some("d/a.txt")) == Some(".txt")
    ensures WithoutExtension(Some("d/a.txt")) == Some("d/a")
  {
    var s, t := "a.b/c", "d/a.txt";
    LastIndexOfUnique(s, '.', 1);
    LastIndexOfUnique(t, '.', 3);
    assert s[3] in DirSepSet && s[4] !in DirSepSet;
    assert t[1] in DirSepSet && t[2] !in DirSepSet && t[3] !in DirSepSet;
    assert s[1..] == ".b/c" && t[..3] == "d/a";
  }

  // ---------------------------------------------------------------------------
  // ToParentPath

  /** ToParentPath: the text before the last `/`, or "/" when there is none. */
  function ToParentPath(path: string): (r: string)
    ensures '/' !in path ==> r == "/"
    ensures '/' in path ==>
      && |r| < |path| && r == path[..|r|] && path[|r|] == '/'
      && '/' !in path[|r| + 1..]
  {
    LastIndexOfLast(path, '/');
    var pos := LastIndexOf(path, '/');
    if pos == -1 then "/" else path[..pos]
  }

  /**
   * Without a `/` the parent is "/"; otherwise it is LastLeftPart('/'), and it,
   * a `/` and the last segment, free of `/`, rebuild the path.
   */
  lemma ToParentPathParts(path: string)
    ensures '/' !in path ==> ToParentPath(path) == "/"
    ensures '/' in path ==>
      var last := StringParts.LastRightPart(Some(path), '/');
      && ToParentPath(path) == StringParts.LastLeftPart(Some(path), '/')
      && ToParentPath(path) + "/" + last == path
      && '/' !in last
  {
    StringParts.SplitOnLastParts(path, '/');
    StringParts.LastLeftRightPartSplitOnLast(Some(path), '/');
  }
}
