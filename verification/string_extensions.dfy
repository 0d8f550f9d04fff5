/**
 * The substring and search helpers of StringExtensions: SafeSubstring,
 * Quoted / StripQuotes, TrimPrefixes, IndexOfAny and ExtractContents.
 */
module StringExtensions {

  import opened Wrappers
  import opened Text

  function Min(a: int, b: int): int { if a <= b then a else b }

  function Max(a: int, b: int): int { if a <= b then b else a }

  // ---------------------------------------------------------------------------
  // SafeSubstring

  /**
   * SafeSubstring(value, startIndex, length) as written: a null or empty value
   * gives "", a negative start counts from 0, and the test
   * `value.Length >= startIndex + length` is evaluated in 32-bit arithmetic,
   * so a large `length` wraps around and reaches Substring out of range.
   */
  function SafeSubstring(value: Option<string>, startIndex: int32, length: int32): (r: Result<string>)
    ensures r.Error? ==> r.failure == ArgumentOutOfRange
  {
    if value.None? || value.value == [] then Ok([])
    else
      var v := value.value;
      var start := if startIndex < 0 then 0 else startIndex as int;
      if |v| >= Wrap32(start + length as int) as int then Substring(v, start, length as int)
      else if |v| > start then Ok(v[start..])
      else Ok([])
  }

  /** SafeSubstring as evidently intended: the same test without wrap-around. */
  function SafeSubstringIntended(value: Option<string>, startIndex: int32, length: int32): (r: Result<string>)
    ensures r.Error? ==> r.failure == ArgumentOutOfRange
  {
    if value.None? || value.value == [] then Ok([])
    else
      var v := value.value;
      var start := if startIndex < 0 then 0 else startIndex as int;
      if |v| >= start + length as int then Substring(v, start, length as int)
      else if |v| > start then Ok(v[start..])
      else Ok([])
  }

  /**
   * The intended SafeSubstring never throws for a non-negative length: it
   * returns the part of `[startIndex, startIndex + length)` that lies inside
   * the value (a negative start counting from 0).
   */
  lemma SafeSubstringIntendedClamps(value: Option<string>, startIndex: int32, length: int32)
    requires length >= 0
    ensures var v := if value.None? then [] else value.value;
      var lo := Min(Max(startIndex as int, 0), |v|);
      var hi := Min(Max(startIndex as int, 0) + length as int, |v|);
      SafeSubstringIntended(value, startIndex, length) == Ok(v[lo..hi])
  {
    if value.Some? && value.value != [] {
      var v := value.value;
      var start := Max(startIndex as int, 0);
      if |v| >= start + length as int {
        assert OccursAt(v, v[start..start + length as int], start);
      } else if |v| > start {
        assert v[start..] == v[start..|v|];
      } else {
        assert v[|v|..|v|] == [];
      }
    }
  }

  /** Where `startIndex + length` fits in 32 bits, the code as written is the intended one. */
  lemma SafeSubstringNoOverflow(value: Option<string>, startIndex: int32, length: int32)
    requires -0x8000_0000 <= Max(startIndex as int, 0) + length as int < 0x8000_0000
    ensures SafeSubstring(value, startIndex, length) == SafeSubstringIntended(value, startIndex, length)
  {
  }

  /** SafeSubstring("abc", 1, int.MaxValue) throws, where "bc" is meant. */
  lemma SafeSubstringOverflow()
    ensures SafeSubstring(Some("abc"), 1, 0x7FFF_FFFF) == Error(ArgumentOutOfRange)
    ensures SafeSubstringIntended(Some("abc"), 1, 0x7FFF_FFFF) == Ok("bc")
  {
    assert Wrap32(1 + 0x7FFF_FFFF) as int == -0x8000_0000;
  }

  /**
   * SafeSubstring(value, startIndex): SafeSubstring up to `value.Length`; a
   * null value throws before the call.
   */
  function SafeSubstringFrom(value: Option<string>, startIndex: int32): (r: Result<string>)
    requires value.Some? ==> |value.value| < 0x8000_0000
    ensures value.None? ==> r == Error(NullReference)
    ensures r.Error? ==> r.failure in {NullReference, ArgumentOutOfRange}
  {
    if value.None? then Error(NullReference)
    else SafeSubstring(value, startIndex, |value.value| as int32)
  }

  /** With no overflow, SafeSubstringFrom is the suffix from the (clamped) start. */
  lemma SafeSubstringFromSuffix(v: string, startIndex: int32)
    requires |v| < 0x8000_0000
    requires Max(startIndex as int, 0) + |v| < 0x8000_0000
    ensures var lo := Min(Max(startIndex as int, 0), |v|);
      SafeSubstringFrom(Some(v), startIndex) == Ok(v[lo..])
  {
    SafeSubstringNoOverflow(Some(v), startIndex, |v| as int32);
    SafeSubstringIntendedClamps(Some(v), startIndex, |v| as int32);
    var lo := Min(Max(startIndex as int, 0), |v|);
    assert v[lo..] == v[lo..|v|];
  }

  // ---------------------------------------------------------------------------
  // Quoted / StripQuotes

  /** Quoted: wraps the text in double quotes unless it is null or already holds one. */
  function Quoted(text: Option<string>): (r: Option<string>)
    ensures r.None? <==> text.None?
    ensures text.Some? ==>
      ('"' in r.value || r.value == ['"'] + text.value + ['"'])
    ensures text.Some? && '"' in text.value ==> r == text
    ensures text.Some? && '"' !in text.value ==> r == Some(['"'] + text.value + ['"'])
  {
    if text.None? || '"' in text.value then text
    else Some(['"'] + text.value + ['"'])
  }

  /** StripQuotes: drops one pair of enclosing double quotes, if there is one. */
  function StripQuotes(text: Option<string>): (r: Option<string>)
    ensures r.None? <==> text.None?
    ensures text.Some? ==> r.value == text.value || ['"'] + r.value + ['"'] == text.value
  {
    if text.None? || |text.value| < 2 then text
    else
      var t := text.value;
      if t[0] == '"' && t[|t| - 1] == '"' then Some(t[1..|t| - 1]) else text
  }

  /** Quoting a text without quotes and stripping them again gives the text back. */
  lemma StripQuotesQuoted(t: string)
    requires '"' !in t
    ensures Quoted(Some(t)) == Some(['"'] + t + ['"'])
    ensures StripQuotes(Quoted(Some(t))) == Some(t)
  {
    var q := ['"'] + t + ['"'];
    assert q[1..|q| - 1] == t;
  }

  /** Quoting is idempotent: a quoted text already holds a quote. */
  lemma QuotedIdempotent(text: Option<string>)
    ensures Quoted(Quoted(text)) == Quoted(text)
  {
    if text.Some? && '"' !in text.value {
      assert (['"'] + text.value + ['"'])[0] == '"';
    }
  }

  // ---------------------------------------------------------------------------
  // TrimPrefixes

  /** The first of `prefixes[i..]` that `s` starts with, cut off; `s` if none. */
  function TrimPrefixesFrom(s: string, prefixes: seq<string>, i: nat): (r: string)
    requires i <= |prefixes|
    ensures |r| <= |s| && r == s[|s| - |r|..]
    decreases |prefixes| - i
  {
    if i == |prefixes| then s
    else if StartsWith(s, prefixes[i]) then s[|prefixes[i]|..]
    else TrimPrefixesFrom(s, prefixes, i + 1)
  }

  /** TrimPrefixes: a null or empty text gives "". */
  function TrimPrefixes(fromString: Option<string>, prefixes: seq<string>): (r: string)
    ensures fromString.Some? ==> |r| <= |fromString.value|
  {
    if fromString.None? || fromString.value == [] then []
    else TrimPrefixesFrom(fromString.value, prefixes, 0)
  }

  /** Only the first prefix that matches is cut, and only once. */
  lemma {:induction false} TrimPrefixesFromFirst(s: string, prefixes: seq<string>, i: nat, k: nat)
    requires i <= k < |prefixes|
    requires StartsWith(s, prefixes[k])
    requires forall j :: i <= j < k ==> !StartsWith(s, prefixes[j])
    ensures TrimPrefixesFrom(s, prefixes, i) == s[|prefixes[k]|..]
    decreases k - i
  {
    if i < k {
      TrimPrefixesFromFirst(s, prefixes, i + 1, k);
    }
  }

  /** When no prefix matches, the text is returned whole. */
  lemma {:induction false} TrimPrefixesFromNone(s: string, prefixes: seq<string>, i: nat)
    requires i <= |prefixes|
    requires forall j :: i <= j < |prefixes| ==> !StartsWith(s, prefixes[j])
    ensures TrimPrefixesFrom(s, prefixes, i) == s
    decreases |prefixes| - i
  {
    if i < |prefixes| {
      TrimPrefixesFromNone(s, prefixes, i + 1);
    }
  }

  /** TrimPrefixes cuts the first matching prefix, or returns the text when none matches. */
  lemma TrimPrefixesMeaning(s: string, prefixes: seq<string>, k: nat)
    requires s != []
    ensures k < |prefixes| && StartsWith(s, prefixes[k]) && (forall j :: 0 <= j < k ==> !StartsWith(s, prefixes[j]))
      ==> TrimPrefixes(Some(s), prefixes) == s[|prefixes[k]|..]
    ensures (forall j :: 0 <= j < |prefixes| ==> !StartsWith(s, prefixes[j]))
      ==> TrimPrefixes(Some(s), prefixes) == s
  {
    if k < |prefixes| && StartsWith(s, prefixes[k]) && (forall j :: 0 <= j < k ==> !StartsWith(s, prefixes[j])) {
      TrimPrefixesFromFirst(s, prefixes, 0, k);
    }
    if forall j :: 0 <= j < |prefixes| ==> !StartsWith(s, prefixes[j]) {
      TrimPrefixesFromNone(s, prefixes, 0);
    }
  }

  // ---------------------------------------------------------------------------
  // IndexOfAny

  /** What the foreach of IndexOfAny keeps in `firstPos` after `needles[..i]`, continued to the end. */
  function IndexOfAnyFold(t: string, startIndex: nat, needles: seq<string>, i: nat, firstPos: int): int
    requires startIndex <= |t| && i <= |needles|
    decreases |needles| - i
  {
    if i == |needles| then firstPos
    else
      var pos := IndexOfFrom(t, needles[i], startIndex);
      IndexOfAnyFold(t, startIndex, needles, i + 1,
        if pos >= 0 && (firstPos == -1 || pos < firstPos) then pos else firstPos)
  }

  /**
   * IndexOfAny(text, startIndex, needles): the smallest index at or after
   * `startIndex` where any needle occurs, or -1; -1 for a null text. The first
   * String.IndexOf call throws when `startIndex` lies outside the text.
   */
  function IndexOfAnySpec(text: Option<string>, startIndex: int, needles: seq<string>): Result<int>
  {
    if text.None? || |needles| == 0 then Ok(-1)
    else if startIndex < 0 || startIndex > |text.value| then Error(ArgumentOutOfRange)
    else Ok(IndexOfAnyFold(text.value, startIndex, needles, 0, -1))
  }

  method IndexOfAny(text: Option<string>, startIndex: int, needles: seq<string>) returns (r: Result<int>)
    ensures r == IndexOfAnySpec(text, startIndex, needles)
  {
    var firstPos := -1;
    if text.Some? {
      var t := text.value;
      var i := 0;
      while i < |needles|
        invariant 0 <= i <= |needles|
        invariant i > 0 ==> 0 <= startIndex <= |t|
        invariant i == 0 ==> firstPos == -1
        invariant 0 <= startIndex <= |t| ==>
          IndexOfAnyFold(t, startIndex, needles, i, firstPos) == IndexOfAnyFold(t, startIndex, needles, 0, -1)
      {
        if startIndex < 0 || startIndex > |t| {
          return Error(ArgumentOutOfRange);
        }
        var pos := IndexOfFrom(t, needles[i], startIndex);
        if pos >= 0 && (firstPos == -1 || pos < firstPos) {
          firstPos := pos;
        }
        i := i + 1;
      }
    }
    return Ok(firstPos);
  }

  /** `r` is the first index from `startIndex` where one of `needles[..i]` occurs, or -1 for none. */
  ghost predicate FirstOfAny(t: string, startIndex: nat, needles: seq<string>, i: nat, r: int)
    requires i <= |needles|
  {
    && (r == -1 || r >= startIndex)
    && (r == -1 ==> forall j, p :: 0 <= j < i && startIndex <= p ==> !OccursAt(t, needles[j], p))
    && (r >= 0 ==>
          && (exists j :: 0 <= j < i && OccursAt(t, needles[j], r))
          && forall j, p :: 0 <= j < i && startIndex <= p < r ==> !OccursAt(t, needles[j], p))
  }

  lemma {:induction false} IndexOfAnyFoldFirst(t: string, startIndex: nat, needles: seq<string>, i: nat, firstPos: int)
    requires startIndex <= |t| && i <= |needles|
    requires FirstOfAny(t, startIndex, needles, i, firstPos)
    ensures FirstOfAny(t, startIndex, needles, |needles|, IndexOfAnyFold(t, startIndex, needles, i, firstPos))
    decreases |needles| - i
  {
    if i < |needles| {
      var pos := IndexOfFrom(t, needles[i], startIndex);
      IndexOfFromFirst(t, needles[i], startIndex);
      var next := if pos >= 0 && (firstPos == -1 || pos < firstPos) then pos else firstPos;
      assert FirstOfAny(t, startIndex, needles, i + 1, next) by {
        if next >= 0 {
          if next == pos {
            assert OccursAt(t, needles[i], pos);
          } else {
            var j :| 0 <= j < i && OccursAt(t, needles[j], firstPos);
            assert 0 <= j < i + 1 && OccursAt(t, needles[j], next);
          }
        }
      }
      IndexOfAnyFoldFirst(t, startIndex, needles, i + 1, next);
    }
  }

  /** IndexOfAny reports the first index from `startIndex` where any needle occurs, or -1 for none. */
  lemma IndexOfAnyFirst(t: string, startIndex: nat, needles: seq<string>)
    requires startIndex <= |t|
    ensures IndexOfAnySpec(Some(t), startIndex, needles).Ok?
    ensures FirstOfAny(t, startIndex, needles, |needles|, IndexOfAnySpec(Some(t), startIndex, needles).value)
  {
    if |needles| > 0 {
      IndexOfAnyFoldFirst(t, startIndex, needles, 0, -1);
    }
  }

  // ---------------------------------------------------------------------------
  // ExtractContents

  /**
   * ExtractContents(fromText, uniqueMarker, startAfter, endAt): the text after
   * the first `startAfter` found from the first `uniqueMarker` on, up to the
   * next `endAt` or the end. A null or empty marker argument throws
   * ArgumentNullException; a null or empty text, or a missing marker or
   * `startAfter`, gives null.
   */
  function ExtractContents(fromText: Option<string>, uniqueMarker: string, startAfter: string, endAt: string)
    : (r: Result<Option<string>>)
    ensures r.Error? <==> uniqueMarker == [] || startAfter == [] || endAt == []
    ensures r.Error? ==> r.failure == ArgumentNull
  {
    if uniqueMarker == [] then Error(ArgumentNull)
    else if startAfter == [] then Error(ArgumentNull)
    else if endAt == [] then Error(ArgumentNull)
    else if fromText.None? || fromText.value == [] then Ok(None)
    else
      var t := fromText.value;
      var markerPos := IndexOfFrom(t, uniqueMarker, 0);
      if markerPos == -1 then Ok(None)
      else
        var startPos := IndexOfFrom(t, startAfter, markerPos);
        if startPos == -1 then Ok(None)
        else
          var from := startPos + |startAfter|;
          var endPos := IndexOfFrom(t, endAt, from);
          Ok(Some(t[from..if endPos == -1 then |t| else endPos]))
  }

  /** ExtractContents(fromText, startAfter, endAt): `startAfter` is its own marker. */
  function ExtractContentsAfter(fromText: Option<string>, startAfter: string, endAt: string): (r: Result<Option<string>>)
    ensures r.Error? <==> startAfter == [] || endAt == []
  {
    ExtractContents(fromText, startAfter, startAfter, endAt)
  }

  /**
   * What ExtractContents returns sits in the text right after an occurrence
   * of `startAfter`, is followed by `endAt` or the end of the text, and no
   * `endAt` starts inside it.
   */
  lemma ExtractContentsShape(t: string, uniqueMarker: string, startAfter: string, endAt: string)
    requires ExtractContents(Some(t), uniqueMarker, startAfter, endAt).Ok?
    requires ExtractContents(Some(t), uniqueMarker, startAfter, endAt).value.Some?
    ensures var r := ExtractContents(Some(t), uniqueMarker, startAfter, endAt).value.value;
      exists from :: |startAfter| <= from && from + |r| <= |t|
        && OccursAt(t, startAfter, from - |startAfter|)
        && OccursAt(t, r, from)
        && (from + |r| == |t| || OccursAt(t, endAt, from + |r|))
        && forall p :: from <= p < from + |r| ==> !OccursAt(t, endAt, p)
  {
    var markerPos := IndexOfFrom(t, uniqueMarker, 0);
    var startPos := IndexOfFrom(t, startAfter, markerPos);
    var from := startPos + |startAfter|;
    var endPos := IndexOfFrom(t, endAt, from);
    IndexOfFromFirst(t, endAt, from);
    var r := t[from..if endPos == -1 then |t| else endPos];
    assert OccursAt(t, r, from);
  }

  /** `p` is the first start of `x` in `t` at or after `from`. */
  predicate FirstFrom(t: string, x: string, from: int, p: int)
  {
    from <= p && OccursAt(t, x, p) && forall q :: from <= q < p ==> !OccursAt(t, x, q)
  }

  /** `x` does not start anywhere in `t` at or after `from`. */
  predicate NoneFrom(t: string, x: string, from: int)
  {
    forall q :: from <= q <= |t| ==> !OccursAt(t, x, q)
  }

  /** IndexOf(x, from) reports the first start at or after `from`, and -1 exactly when there is none. */
  lemma IndexOfFromMeaning(t: string, x: string, from: nat)
    requires from <= |t|
    ensures IndexOfFrom(t, x, from) == -1 <==> NoneFrom(t, x, from)
    ensures forall p :: FirstFrom(t, x, from, p) ==> IndexOfFrom(t, x, from) == p
  {
    IndexOfFromFirst(t, x, from);
    var r := IndexOfFrom(t, x, from);
    forall p | FirstFrom(t, x, from, p)
      ensures r == p
    {
      assert r != -1 && p <= r;
      assert r <= p;
    }
  }

  /**
   * ExtractContents gives null exactly when the text is empty, holds no
   * `uniqueMarker`, or holds no `startAfter` from the first marker on.
   */
  lemma ExtractContentsNull(t: string, uniqueMarker: string, startAfter: string, endAt: string)
    requires uniqueMarker != [] && startAfter != [] && endAt != []
    ensures ExtractContents(Some(t), uniqueMarker, startAfter, endAt) == Ok(None) <==>
      || t == []
      || NoneFrom(t, uniqueMarker, 0)
      || exists m :: FirstFrom(t, uniqueMarker, 0, m) && NoneFrom(t, startAfter, m)
  {
    IndexOfFromMeaning(t, uniqueMarker, 0);
    var m := IndexOfFrom(t, uniqueMarker, 0);
    if m != -1 {
      IndexOfFromFirst(t, uniqueMarker, 0);
      assert FirstFrom(t, uniqueMarker, 0, m);
      IndexOfFromMeaning(t, startAfter, m);
    }
  }

  /**
   * With `m` the first `uniqueMarker`, `s` the first `startAfter` from `m` on
   * and `e` the first `endAt` after it (or the end of the text when there is
   * none), ExtractContents returns the text between `startAfter` and `e`.
   */
  lemma ExtractContentsFound(t: string, uniqueMarker: string, startAfter: string, endAt: string, m: nat, s: nat, e: nat)
    requires uniqueMarker != [] && startAfter != [] && endAt != []
    requires FirstFrom(t, uniqueMarker, 0, m) && FirstFrom(t, startAfter, m, s)
    requires FirstFrom(t, endAt, s + |startAfter|, e) || (e == |t| && NoneFrom(t, endAt, s + |startAfter|))
    ensures s + |startAfter| <= e <= |t|
    ensures ExtractContents(Some(t), uniqueMarker, startAfter, endAt) == Ok(Some(t[s + |startAfter|..e]))
  {
    IndexOfFromMeaning(t, uniqueMarker, 0);
    IndexOfFromMeaning(t, startAfter, m);
    IndexOfFromMeaning(t, endAt, s + |startAfter|);
  }

  /** Only the `startAfter` after the marker counts: "SaE,MSbE" with marker "M" gives "b", not "a". */
  lemma ExtractContentsMarkerExample()
    ensures ExtractContents(Some("SaE,MSbE"), "M", "S", "E") == Ok(Some("b"))
  {
    var t := "SaE,MSbE";
    assert forall q :: 0 <= q < 4 ==> !OccursAt(t, "M", q) by {
      forall q | 0 <= q < 4 ensures !OccursAt(t, "M", q) {
        assert t[q..q + 1][0] == t[q];
      }
    }
    assert t[4..5] == "M" && t[5..6] == "S" && t[7..8] == "E";
    assert t[6..7][0] == t[6];
    ExtractContentsFound(t, "M", "S", "E", 4, 5, 7);
    assert t[6..7] == "b";
  }

  /** The text between the markers of a small document. */
  lemma ExtractContentsExample()
    ensures ExtractContentsAfter(Some("<b>x</b>"), "<b>", "</b>") == Ok(Some("x"))
  {
    var t := "<b>x</b>";
    assert t[0..3] == "<b>";
    assert IndexOfFrom(t, "<b>", 0) == 0;
    assert t[4..8] == "</b>";
    assert t[3..7][0] != "</b>"[0];
    assert IndexOfFrom(t, "</b>", 3) == 4;
    assert t[3..4] == "x";
  }
}
