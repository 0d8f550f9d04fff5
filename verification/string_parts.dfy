/**
 * The splitting helpers of StringExtensions: LeftPart, RightPart,
 * LastLeftPart, LastRightPart, SplitOnFirst and SplitOnLast. A `char` needle
 * is compared ordinally; a `string` needle with
 * StringComparison.OrdinalIgnoreCase. A null receiver is `None`.
 */
module StringParts {

  import opened Wrappers
  import opened Text

  // ---------------------------------------------------------------------------
  // Character needles

  /** LeftPart(char): the text before the first `needle`, or all of it. */
  function LeftPart(strVal: Option<string>, needle: char): (r: Option<string>)
    ensures r.None? <==> strVal.None?
  {
    if strVal.None? then None
    else
      var s := strVal.value;
      var pos := IndexOf(s, needle);
      Some(if pos == -1 then s else s[..pos])
  }

  /** RightPart(char): the text after the first `needle`, or all of it. */
  function RightPart(strVal: Option<string>, needle: char): (r: Option<string>)
    ensures r.None? <==> strVal.None?
  {
    if strVal.None? then None
    else
      var s := strVal.value;
      var pos := IndexOf(s, needle);
      Some(if pos == -1 then s else s[pos + 1..])
  }

  /** LastLeftPart(char): the text before the last `value`, or all of it; null gives "". */
  function LastLeftPart(s: Option<string>, value: char): (r: string)
    ensures s.None? ==> r == []
  {
    if s.None? then []
    else
      var index := LastIndexOf(s.value, value);
      if index == -1 then s.value else s.value[..index]
  }

  /** LastRightPart(char): the text after the last `value`, or all of it; null gives "". */
  function LastRightPart(s: Option<string>, value: char): (r: string)
    ensures s.None? ==> r == []
  {
    if s.None? then []
    else
      var index := LastIndexOf(s.value, value);
      if index == -1 then s.value else s.value[index + 1..]
  }

  /** SplitOnFirst(char): the text around the first `needle`; null gives no parts. */
  function SplitOnFirst(strVal: Option<string>, needle: char): (parts: seq<string>)
    ensures strVal.None? <==> parts == []
    ensures |parts| <= 2
  {
    if strVal.None? then []
    else
      var s := strVal.value;
      var pos := IndexOf(s, needle);
      if pos == -1 then [s] else [s[..pos], s[pos + 1..]]
  }

  /** SplitOnLast(char): the text around the last `needle`; null gives no parts. */
  function SplitOnLast(strVal: Option<string>, needle: char): (parts: seq<string>)
    ensures strVal.None? <==> parts == []
    ensures |parts| <= 2
  {
    if strVal.None? then []
    else
      var s := strVal.value;
      var pos := LastIndexOf(s, needle);
      if pos == -1 then [s] else [s[..pos], s[pos + 1..]]
  }

  /**
   * SplitOnFirst cuts at the first `needle`: two parts that rebuild the text
   * around it, the first free of `needle`; a single part, the whole text,
   * exactly when there is none.
   */
  lemma SplitOnFirstParts(s: string, needle: char)
    ensures var parts := SplitOnFirst(Some(s), needle);
      && (|parts| == 1 <==> needle !in s)
      && (|parts| == 1 ==> parts[0] == s)
      && (|parts| == 2 ==> parts[0] + [needle] + parts[1] == s && needle !in parts[0])
  {
    var pos := IndexOf(s, needle);
    IndexOfFirst(s, needle);
    if pos != -1 {
      assert s == s[..pos] + [needle] + s[pos + 1..];
      assert needle !in s[..pos] by {
        forall j | 0 <= j < pos ensures s[..pos][j] != needle {
          assert s[..pos][j] == s[j];
        }
      }
    }
  }

  /**
   * SplitOnLast cuts at the last `needle`: two parts that rebuild the text
   * around it, the second free of `needle`; a single part, the whole text,
   * exactly when there is none.
   */
  lemma SplitOnLastParts(s: string, needle: char)
    ensures var parts := SplitOnLast(Some(s), needle);
      && (|parts| == 1 <==> needle !in s)
      && (|parts| == 1 ==> parts[0] == s)
      && (|parts| == 2 ==> parts[0] + [needle] + parts[1] == s && needle !in parts[1])
  {
    var pos := LastIndexOf(s, needle);
    LastIndexOfLast(s, needle);
    if pos != -1 {
      var after := s[pos + 1..];
      assert s == s[..pos] + [needle] + after;
      assert needle !in after by {
        forall j | 0 <= j < |after| ensures after[j] != needle {
          assert after[j] == s[pos + 1 + j];
        }
      }
    }
  }

  /** LeftPart and RightPart are the first and last parts of SplitOnFirst. */
  lemma LeftRightPartSplitOnFirst(strVal: Option<string>, needle: char)
    ensures var parts := SplitOnFirst(strVal, needle);
      strVal.Some? ==>
        && LeftPart(strVal, needle) == Some(parts[0])
        && RightPart(strVal, needle) == Some(parts[|parts| - 1])
  {
  }

  /** LastLeftPart and LastRightPart are the first and last parts of SplitOnLast. */
  lemma LastLeftRightPartSplitOnLast(strVal: Option<string>, needle: char)
    ensures var parts := SplitOnLast(strVal, needle);
      strVal.Some? ==>
        && LastLeftPart(strVal, needle) == parts[0]
        && LastRightPart(strVal, needle) == parts[|parts| - 1]
  {
  }

  // ---------------------------------------------------------------------------
  // String needles, compared ignoring case

  /** LeftPart(string): the text before the first match of `needle`, or all of it. */
  function LeftPartString(strVal: Option<string>, needle: string): (r: Option<string>)
    ensures r.None? <==> strVal.None?
  {
    if strVal.None? then None
    else
      var s := strVal.value;
      var pos := IndexOfIgnoreCase(s, needle);
      Some(if pos == -1 then s else s[..pos])
  }

  /** RightPart(string): the text after the first match of `needle`, or all of it. */
  function RightPartString(strVal: Option<string>, needle: string): (r: Option<string>)
    ensures r.None? <==> strVal.None?
  {
    if strVal.None? then None
    else
      var s := strVal.value;
      var pos := IndexOfIgnoreCase(s, needle);
      Some(if pos == -1 then s else s[pos + |needle|..])
  }

  /**
   * LastLeftPart(string): the text before the last match of `value`; null
   * gives "". An empty `value` matches at the last character, which it cuts off.
   */
  function LastLeftPartString(s: Option<string>, value: string): (r: string)
    ensures s.None? ==> r == []
    ensures s.Some? && value == [] ==> r == s.value[..if |s.value| > 0 then |s.value| - 1 else 0]
  {
    if s.None? then []
    else
      var index := LastIndexOfIgnoreCase(s.value, value);
      if index == -1 then s.value else s.value[..index]
  }

  /**
   * LastRightPart(string): the text after the last match of `value`; null
   * gives "". An empty `value` matches at the last character, which it keeps.
   */
  function LastRightPartString(s: Option<string>, value: string): (r: string)
    ensures s.None? ==> r == []
    ensures s.Some? && value == [] ==> r == s.value[if |s.value| > 0 then |s.value| - 1 else 0..]
  {
    if s.None? then []
    else
      var index := LastIndexOfIgnoreCase(s.value, value);
      if index == -1 then s.value else s.value[index + |value|..]
  }

  /** SplitOnFirst(string): the text around the first match of `needle`. */
  function SplitOnFirstString(strVal: Option<string>, needle: string): (parts: seq<string>)
    ensures strVal.None? <==> parts == []
    ensures |parts| <= 2
  {
    if strVal.None? then []
    else
      var s := strVal.value;
      var pos := IndexOfIgnoreCase(s, needle);
      if pos == -1 then [s] else [s[..pos], s[pos + |needle|..]]
  }

  /** SplitOnLast(string): the text around the last match of `needle`. */
  function SplitOnLastString(strVal: Option<string>, needle: string): (parts: seq<string>)
    ensures strVal.None? <==> parts == []
    ensures |parts| <= 2
  {
    if strVal.None? then []
    else
      var s := strVal.value;
      var pos := LastIndexOfIgnoreCase(s, needle);
      if pos == -1 then [s] else [s[..pos], s[pos + |needle|..]]
  }

  /**
   * SplitOnFirst(string) cuts at the first case-blind match of `needle`: the
   * two parts rebuild the text around the matched text, nothing before the cut
   * matches; a single part, the whole text, exactly when nothing matches.
   */
  lemma SplitOnFirstStringParts(s: string, needle: string)
    ensures var parts := SplitOnFirstString(Some(s), needle);
      && (|parts| == 1 <==> forall p :: !OccursAtIgnoreCase(s, needle, p))
      && (|parts| == 1 ==> parts[0] == s)
      && (|parts| == 2 ==>
            var k := |parts[0]|;
            && OccursAtIgnoreCase(s, needle, k)
            && parts[0] + s[k..k + |needle|] + parts[1] == s
            && forall p :: 0 <= p < k ==> !OccursAtIgnoreCase(s, needle, p))
  {
    var pos := IndexOfIgnoreCase(s, needle);
    IndexOfIgnoreCaseFromFirst(s, needle, 0);
    if pos != -1 {
      assert s == s[..pos] + s[pos..pos + |needle|] + s[pos + |needle|..];
    }
  }

  /**
   * SplitOnLast(string) cuts at the last case-blind match of `needle`: the two
   * parts rebuild the text around the matched text, no match of a non-empty
   * needle starts after the cut, and an empty needle cuts before the last
   * character; a single part, the whole text, exactly when nothing matches.
   */
  lemma SplitOnLastStringParts(s: string, needle: string)
    ensures var parts := SplitOnLastString(Some(s), needle);
      && (|parts| == 1 <==> forall p :: !OccursAtIgnoreCase(s, needle, p))
      && (|parts| == 1 ==> parts[0] == s)
      && (|parts| == 2 ==>
            var k := |parts[0]|;
            && OccursAtIgnoreCase(s, needle, k)
            && parts[0] + s[k..k + |needle|] + parts[1] == s
            && (needle != [] ==> forall q :: k < q ==> !OccursAtIgnoreCase(s, needle, q))
            && (needle == [] ==> k == if |s| > 0 then |s| - 1 else 0))
  {
    var pos := LastIndexOfIgnoreCase(s, needle);
    LastIndexOfIgnoreCaseLast(s, needle);
    if pos != -1 {
      assert s == s[..pos] + s[pos..pos + |needle|] + s[pos + |needle|..];
    }
  }

  /** The string-needle parts are the first and last parts of the matching split. */
  lemma PartStringsSplit(strVal: Option<string>, needle: string)
    ensures var first := SplitOnFirstString(strVal, needle);
      var last := SplitOnLastString(strVal, needle);
      strVal.Some? ==>
        && LeftPartString(strVal, needle) == Some(first[0])
        && RightPartString(strVal, needle) == Some(first[|first| - 1])
        && LastLeftPartString(strVal, needle) == last[0]
        && LastRightPartString(strVal, needle) == last[|last| - 1]
  {
  }

  /** An empty needle splits off the last character: "abc" gives "ab" and "c". */
  lemma SplitOnLastEmptyNeedleExample()
    ensures SplitOnLastString(Some("abc"), "") == ["ab", "c"]
    ensures LastLeftPartString(Some("abc"), "") == "ab"
    ensures LastRightPartString(Some("abc"), "") == "c"
  {
    var s := "abc";
    assert s[..2] == "ab" && s[2..] == "c";
  }

  /** Matching ignores case: "xAby" splits on "ab" into "x" and "y". */
  lemma SplitOnFirstStringExample()
    ensures SplitOnFirstString(Some("xAby"), "ab") == ["x", "y"]
  {
    var s := "xAby";
    assert ToUpper(s[0]) != ToUpper("ab"[0]);
    assert OccursAtIgnoreCase(s, "ab", 1);
    assert IndexOfIgnoreCase(s, "ab") == 1;
    assert s[..1] == "x" && s[3..] == "y";
  }
}
