/**
 * The parts of the .NET base library that the string helpers call: ordinal
 * searches, String.Split, String.Replace, Trim, invariant case mapping and
 * UTF-8 encoding. Each is given the meaning the helpers rely on.
 */
module Text {

  import opened Wrappers

  newtype byte = b: int | 0 <= b < 256

  /** The range of System.Int32. */
  newtype int32 = x: int | -0x8000_0000 <= x < 0x8000_0000

  /** Two's-complement wrap-around of an int arithmetic result into Int32. */
  function Wrap32(x: int): (r: int32)
    ensures -0x8000_0000 <= x < 0x8000_0000 ==> r as int == x
    ensures (r as int - x) % 0x1_0000_0000 == 0
  {
    ((x + 0x8000_0000) % 0x1_0000_0000 - 0x8000_0000) as int32
  }

  // ---------------------------------------------------------------------------
  // Case mapping (invariant culture, restricted to the ASCII letters)

  predicate IsAsciiUpper(c: char) { 'A' <= c <= 'Z' }

  predicate IsAsciiLower(c: char) { 'a' <= c <= 'z' }

  /** char.ToUpper / ToUpperInvariant on one character. */
  function ToUpper(c: char): char
  {
    if IsAsciiLower(c) then (c as int - 32) as char else c
  }

  /** char.ToLower / ToLowerInvariant on one character. */
  function ToLower(c: char): char
  {
    if IsAsciiUpper(c) then (c as int + 32) as char else c
  }

  /** String.ToUpper. */
  function UpperStr(s: string): (r: string)
    ensures |r| == |s|
    ensures forall i :: 0 <= i < |s| ==> r[i] == ToUpper(s[i])
  {
    seq(|s|, i requires 0 <= i < |s| => ToUpper(s[i]))
  }

  /** String.ToLower. */
  function LowerStr(s: string): (r: string)
    ensures |r| == |s|
    ensures forall i :: 0 <= i < |s| ==> r[i] == ToLower(s[i])
  {
    seq(|s|, i requires 0 <= i < |s| => ToLower(s[i]))
  }

  lemma UpperStrSuffix(s: string, k: nat)
    requires k <= |s|
    ensures UpperStr(s[k..]) == UpperStr(s)[k..]
  {
  }

  // ---------------------------------------------------------------------------
  // Ordinal searches

  predicate StartsWith(s: string, prefix: string)
  {
    |prefix| <= |s| && s[..|prefix|] == prefix
  }

  predicate EndsWith(s: string, suffix: string)
  {
    |suffix| <= |s| && s[|s| - |suffix|..] == suffix
  }

  /** `t` occurs in `s` starting at index `p`. */
  predicate OccursAt(s: string, t: string, p: int)
  {
    0 <= p && p + |t| <= |s| && s[p..p + |t|] == t
  }

  /**
   * String.IndexOf(t, from, StringComparison.Ordinal): the first index at or
   * after `from` where `t` occurs, or -1. An empty `t` is found at `from`.
   */
  function IndexOfFrom(s: string, t: string, from: nat): (r: int)
    requires from <= |s|
    ensures r == -1 || (from <= r && OccursAt(s, t, r))
    decreases |s| - from
  {
    if from + |t| > |s| then -1
    else if s[from..from + |t|] == t then from
    else IndexOfFrom(s, t, from + 1)
  }

  /** No occurrence of `t` starts between `from` and the reported index (or anywhere after `from`, for -1). */
  lemma {:induction false} IndexOfFromFirst(s: string, t: string, from: nat)
    requires from <= |s|
    ensures var r := IndexOfFrom(s, t, from);
      forall p :: from <= p && (r == -1 || p < r) ==> !OccursAt(s, t, p)
    decreases |s| - from
  {
    if from + |t| <= |s| && s[from..from + |t|] != t {
      IndexOfFromFirst(s, t, from + 1);
    }
  }

  /** `t` occurs at `p` in `s` when upper-casing both sides (StringComparison.OrdinalIgnoreCase). */
  predicate OccursAtIgnoreCase(s: string, t: string, p: int)
  {
    0 <= p && p + |t| <= |s| && forall k :: 0 <= k < |t| ==> ToUpper(s[p + k]) == ToUpper(t[k])
  }

  /** String.IndexOf(t, from, StringComparison.OrdinalIgnoreCase). */
  function IndexOfIgnoreCaseFrom(s: string, t: string, from: nat): (r: int)
    requires from <= |s|
    ensures r == -1 || (from <= r && OccursAtIgnoreCase(s, t, r))
    decreases |s| - from
  {
    if from + |t| > |s| then -1
    else if OccursAtIgnoreCase(s, t, from) then from
    else IndexOfIgnoreCaseFrom(s, t, from + 1)
  }

  lemma {:induction false} IndexOfIgnoreCaseFromFirst(s: string, t: string, from: nat)
    requires from <= |s|
    ensures var r := IndexOfIgnoreCaseFrom(s, t, from);
      forall p :: from <= p && (r == -1 || p < r) ==> !OccursAtIgnoreCase(s, t, p)
    decreases |s| - from
  {
    if from + |t| <= |s| && !OccursAtIgnoreCase(s, t, from) {
      IndexOfIgnoreCaseFromFirst(s, t, from + 1);
    }
  }

  /** String.IndexOf(t, StringComparison.OrdinalIgnoreCase). */
  function IndexOfIgnoreCase(s: string, t: string): (r: int)
    ensures r == -1 || OccursAtIgnoreCase(s, t, r)
  {
    IndexOfIgnoreCaseFrom(s, t, 0)
  }

  /** The last index at or below `p` where `t` occurs ignoring case, or -1. */
  function LastIndexOfIgnoreCaseAt(s: string, t: string, p: int): (r: int)
    requires p + |t| <= |s|
    ensures r == -1 || (r <= p && OccursAtIgnoreCase(s, t, r))
    decreases p + 1
  {
    if p < 0 then -1
    else if OccursAtIgnoreCase(s, t, p) then p
    else LastIndexOfIgnoreCaseAt(s, t, p - 1)
  }

  lemma {:induction false} LastIndexOfIgnoreCaseAtLast(s: string, t: string, p: int)
    requires p + |t| <= |s|
    ensures forall q :: LastIndexOfIgnoreCaseAt(s, t, p) < q <= p ==> !OccursAtIgnoreCase(s, t, q)
    decreases p + 1
  {
    if p >= 0 && !OccursAtIgnoreCase(s, t, p) {
      LastIndexOfIgnoreCaseAtLast(s, t, p - 1);
    }
  }

  /**
   * String.LastIndexOf(t, StringComparison.OrdinalIgnoreCase) of the .NET
   * Framework: the last start of `t`, or -1. The search starts at the last
   * character, so an empty `t` is found there (at `|s| - 1`), and at 0 in an
   * empty `s`.
   */
  function LastIndexOfIgnoreCase(s: string, t: string): (r: int)
    ensures r == -1 || OccursAtIgnoreCase(s, t, r)
    ensures |t| == 0 ==> r == if |s| > 0 then |s| - 1 else 0
  {
    if |t| == 0 then (if |s| > 0 then |s| - 1 else 0)
    else LastIndexOfIgnoreCaseAt(s, t, |s| - |t|)
  }

  /**
   * No occurrence of a non-empty `t` starts after the index
   * LastIndexOfIgnoreCase reports.
   */
  lemma LastIndexOfIgnoreCaseLast(s: string, t: string)
    ensures |t| > 0 ==>
      forall q :: LastIndexOfIgnoreCase(s, t) < q && q + |t| <= |s| ==> !OccursAtIgnoreCase(s, t, q)
  {
    if |t| > 0 {
      LastIndexOfIgnoreCaseAtLast(s, t, |s| - |t|);
    }
  }

  /** String.IndexOf(char, from): the first index at or after `from` holding `c`, or -1. */
  function IndexOfCharFrom(s: string, c: char, from: nat): (r: int)
    requires from <= |s|
    ensures r == -1 || (from <= r < |s| && s[r] == c)
    decreases |s| - from
  {
    if from == |s| then -1
    else if s[from] == c then from
    else IndexOfCharFrom(s, c, from + 1)
  }

  /** No `c` lies between `from` and the reported index (or the end, for -1). */
  lemma {:induction false} IndexOfCharFromFirst(s: string, c: char, from: nat)
    requires from <= |s|
    ensures var r := IndexOfCharFrom(s, c, from);
      forall j :: from <= j < |s| && (r == -1 || j < r) ==> s[j] != c
    decreases |s| - from
  {
    if from < |s| && s[from] != c {
      IndexOfCharFromFirst(s, c, from + 1);
    }
  }

  /** String.IndexOf(char): the first index of `c`, or -1. */
  function IndexOf(s: string, c: char): (r: int)
    ensures -1 <= r < |s|
    ensures r >= 0 ==> s[r] == c
  {
    IndexOfCharFrom(s, c, 0)
  }

  /** No `c` comes before the index IndexOf reports; -1 means none at all. */
  lemma IndexOfFirst(s: string, c: char)
    ensures forall j :: 0 <= j < |s| && (IndexOf(s, c) == -1 || j < IndexOf(s, c)) ==> s[j] != c
  {
    IndexOfCharFromFirst(s, c, 0);
  }

  /** The index IndexOf reports is exactly the first occurrence of `c`. */
  lemma IndexOfUnique(s: string, c: char, p: int)
    requires -1 <= p < |s| && (p >= 0 ==> s[p] == c)
    requires forall j :: 0 <= j < |s| && (p == -1 || j < p) ==> s[j] != c
    ensures IndexOf(s, c) == p
  {
    IndexOfCharFromFirst(s, c, 0);
  }

  /** Searching from `from` is searching the suffix `s[from..]`, offset by `from`. */
  lemma IndexOfCharFromShift(s: string, c: char, from: nat)
    requires from <= |s|
    ensures var k := IndexOf(s[from..], c);
      IndexOfCharFrom(s, c, from) == if k == -1 then -1 else from + k
  {
    var r := IndexOfCharFrom(s, c, from);
    var t := s[from..];
    IndexOfCharFromFirst(s, c, from);
    var p := if r == -1 then -1 else r - from;
    forall j | 0 <= j < |t| && (p == -1 || j < p) ensures t[j] != c {
      assert t[j] == s[from + j];
    }
    IndexOfUnique(t, c, p);
  }

  /** The last index before `end` holding `c`, or -1. */
  function LastIndexOfBefore(s: string, c: char, end: nat): (r: int)
    requires end <= |s|
    ensures -1 <= r < end
    ensures r >= 0 ==> s[r] == c
    decreases end
  {
    if end == 0 then -1
    else if s[end - 1] == c then end - 1
    else LastIndexOfBefore(s, c, end - 1)
  }

  lemma {:induction false} LastIndexOfBeforeLast(s: string, c: char, end: nat)
    requires end <= |s|
    ensures forall j :: LastIndexOfBefore(s, c, end) < j < end ==> s[j] != c
    decreases end
  {
    if end > 0 && s[end - 1] != c {
      LastIndexOfBeforeLast(s, c, end - 1);
    }
  }

  /** String.LastIndexOf(char): the last index of `c`, or -1. */
  function LastIndexOf(s: string, c: char): (r: int)
    ensures -1 <= r < |s|
    ensures r >= 0 ==> s[r] == c
  {
    LastIndexOfBefore(s, c, |s|)
  }

  /** No `c` comes after the index LastIndexOf reports; -1 means none at all. */
  lemma LastIndexOfLast(s: string, c: char)
    ensures forall j :: LastIndexOf(s, c) < j < |s| ==> s[j] != c
  {
    LastIndexOfBeforeLast(s, c, |s|);
  }

  /** The index LastIndexOf reports is exactly the last occurrence of `c`. */
  lemma LastIndexOfUnique(s: string, c: char, p: int)
    requires -1 <= p < |s| && (p >= 0 ==> s[p] == c)
    requires forall j :: p < j < |s| ==> s[j] != c
    ensures LastIndexOf(s, c) == p
  {
    LastIndexOfLast(s, c);
  }

  /** String.LastIndexOfAny(chars): the last index before `end` of any of `cs`, or -1. */
  function LastIndexOfAnyBefore(s: string, cs: set<char>, end: nat): (r: int)
    requires end <= |s|
    ensures -1 <= r < end
    ensures r >= 0 ==> s[r] in cs
    ensures forall i :: r < i < end ==> s[i] !in cs
    decreases end
  {
    if end == 0 then -1
    else if s[end - 1] in cs then end - 1
    else LastIndexOfAnyBefore(s, cs, end - 1)
  }

  /** String.LastIndexOfAny(chars): the last index of any of `cs`, or -1. */
  function LastIndexOfAny(s: string, cs: set<char>): (r: int)
    ensures -1 <= r < |s|
    ensures r >= 0 ==> s[r] in cs
    ensures forall i :: r < i < |s| ==> s[i] !in cs
  {
    LastIndexOfAnyBefore(s, cs, |s|)
  }

  /** String.Substring(startIndex, length): ArgumentOutOfRange unless the range lies inside `s`. */
  function Substring(s: string, startIndex: int, length: int): (r: Result<string>)
    ensures r.Ok? <==> 0 <= startIndex && 0 <= length && startIndex + length <= |s|
    ensures r.Ok? ==> |r.value| == length && OccursAt(s, r.value, startIndex)
    ensures r.Error? ==> r.failure == ArgumentOutOfRange
  {
    if startIndex < 0 || length < 0 || startIndex + length > |s| then Error(ArgumentOutOfRange)
    else Ok(s[startIndex..startIndex + length])
  }

  // ---------------------------------------------------------------------------
  // Splitting, joining, replacing

  /** The pieces of `s[from..]` between the occurrences of `c`. */
  function SplitFrom(s: string, c: char, from: nat): (parts: seq<string>)
    requires from <= |s|
    ensures |parts| >= 1
    decreases |s| - from
  {
    var i := IndexOfCharFrom(s, c, from);
    if i == -1 then [s[from..]] else [s[from..i]] + SplitFrom(s, c, i + 1)
  }

  /** String.Split(char): the pieces between the occurrences of `c`. */
  function Split(s: string, c: char): (parts: seq<string>)
    ensures |parts| >= 1
  {
    SplitFrom(s, c, 0)
  }

  /** Cutting `s[from..]` around index `i` splits its multiset the same way. */
  lemma MultisetAround(s: string, from: nat, i: nat)
    requires from <= i < |s|
    ensures multiset(s[from..]) == multiset(s[from..i]) + multiset{s[i]} + multiset(s[i + 1..])
  {
    assert s[from..] == s[from..i] + [s[i]] + s[i + 1..];
  }

  /** The number of occurrences of `c` in `s[from..]`. */
  function CountFrom(s: string, c: char, from: nat): (n: nat)
    requires from <= |s|
    ensures n <= |s| - from
    decreases |s| - from
  {
    if from == |s| then 0
    else if s[from] == c then 1 + CountFrom(s, c, from + 1)
    else CountFrom(s, c, from + 1)
  }

  /** Skipping a stretch free of `c` does not change the count. */
  lemma {:induction false} CountFromSkip(s: string, c: char, from: nat, to: nat)
    requires from <= to <= |s|
    requires forall j :: from <= j < to ==> s[j] != c
    ensures CountFrom(s, c, from) == CountFrom(s, c, to)
    decreases |s| - from
  {
    if from < to {
      CountFromSkip(s, c, from + 1, to);
    }
  }

  /** The count is the multiplicity of `c` in the multiset of `s[from..]`. */
  lemma {:induction false} CountFromMultiset(s: string, c: char, from: nat)
    requires from <= |s|
    ensures CountFrom(s, c, from) == multiset(s[from..])[c]
    decreases |s| - from
  {
    if from < |s| {
      CountFromMultiset(s, c, from + 1);
      assert s[from..] == [s[from]] + s[from + 1..];
    }
  }

  /** String.Join(sep, parts). */
  function Join(parts: seq<string>, sep: string): string
  {
    if |parts| == 0 then []
    else if |parts| == 1 then parts[0]
    else parts[0] + sep + Join(parts[1..], sep)
  }

  /** The last piece of SplitFrom starts after the last `c`, or at `from` if none lies there. */
  lemma {:induction false} SplitFromLast(s: string, c: char, from: nat)
    requires from <= |s|
    ensures var parts := SplitFrom(s, c, from);
      var l := LastIndexOf(s, c);
      parts[|parts| - 1] == s[if l < from then from else l + 1..]
    decreases |s| - from
  {
    var i := IndexOfCharFrom(s, c, from);
    var l := LastIndexOf(s, c);
    LastIndexOfLast(s, c);
    if i == -1 {
      IndexOfCharFromFirst(s, c, from);
      assert l < from;
    } else {
      SplitFromLast(s, c, i + 1);
      var parts := SplitFrom(s, c, from);
      var tail := SplitFrom(s, c, i + 1);
      assert parts == [s[from..i]] + tail;
      assert parts[|parts| - 1] == tail[|tail| - 1];
      assert i <= l;
    }
  }

  /** The last piece of String.Split is the text after the last separator. */
  lemma SplitLast(s: string, c: char)
    ensures var parts := Split(s, c);
      parts[|parts| - 1] == s[LastIndexOf(s, c) + 1..]
  {
    SplitFromLast(s, c, 0);
  }

  /** A separator at `k` with none before it, from `from` on, ends the first piece there. */
  lemma SplitFromAt(s: string, c: char, from: nat, k: nat)
    requires from <= k < |s| && s[k] == c
    requires forall m :: from <= m < k ==> s[m] != c
    ensures SplitFrom(s, c, from) == [s[from..k]] + SplitFrom(s, c, k + 1)
  {
    IndexOfCharFromFirst(s, c, from);
  }

  /** With no separator from `from` on, the rest is a single piece. */
  lemma SplitFromNone(s: string, c: char, from: nat)
    requires from <= |s|
    requires forall m :: from <= m < |s| ==> s[m] != c
    ensures SplitFrom(s, c, from) == [s[from..]]
  {
  }

  /** A text without the separator is a single piece. */
  lemma SplitOne(a: string, c: char)
    requires c !in a
    ensures Split(a, c) == [a]
  {
    SplitFromNone(a, c, 0);
    assert a[0..] == a;
  }

  /** Two separator-free pieces joined by the separator split back into those two pieces. */
  lemma SplitTwo(a: string, b: string, c: char)
    requires c !in a && c !in b
    ensures Split(a + [c] + b, c) == [a, b]
  {
    var s := a + [c] + b;
    assert s[..|a|] == a && s[|a|] == c && s[|a| + 1..] == b;
    assert forall m :: 0 <= m < |a| ==> s[m] == a[m];
    assert forall m :: |a| + 1 <= m < |s| ==> s[m] == b[m - |a| - 1];
    SplitFromAt(s, c, 0, |a|);
    SplitFromNone(s, c, |a| + 1);
  }

  /** SplitFrom gives one piece more than there are separators. */
  lemma {:induction false} SplitFromCount(s: string, c: char, from: nat)
    requires from <= |s|
    ensures |SplitFrom(s, c, from)| == 1 + CountFrom(s, c, from)
    decreases |s| - from
  {
    var i := IndexOfCharFrom(s, c, from);
    IndexOfCharFromFirst(s, c, from);
    if i == -1 {
      CountFromSkip(s, c, from, |s|);
    } else {
      SplitFromCount(s, c, i + 1);
      CountFromSkip(s, c, from, i);
    }
  }

  /** String.Replace(char, char). */
  function ReplaceChar(s: string, a: char, b: char): (r: string)
    ensures |r| == |s|
    ensures forall i :: 0 <= i < |s| ==> r[i] == if s[i] == a then b else s[i]
  {
    seq(|s|, i requires 0 <= i < |s| => if s[i] == a then b else s[i])
  }

  /**
   * String.Replace(string, string): every occurrence of `needle`, found from the
   * left without overlapping, becomes `replacement`.
   */
  function Replace(s: string, needle: string, replacement: string): string
    requires |needle| > 0
    decreases |s|
  {
    if |s| < |needle| then s
    else if s[..|needle|] == needle then replacement + Replace(s[|needle|..], needle, replacement)
    else [s[0]] + Replace(s[1..], needle, replacement)
  }

  /** Replacing a one-character string distributes over concatenation. */
  lemma {:induction false} ReplaceOneCharAppend(s: string, t: string, c: char, replacement: string)
    ensures Replace(s + t, [c], replacement) == Replace(s, [c], replacement) + Replace(t, [c], replacement)
    decreases |s|
  {
    if |s| == 0 {
      assert s + t == t;
    } else {
      assert (s + t)[1..] == s[1..] + t;
      ReplaceOneCharAppend(s[1..], t, c, replacement);
    }
  }

  /** Replacing a one-character string, on a string of one character. */
  lemma ReplaceOneCharUnit(x: char, c: char, replacement: string)
    ensures Replace([x], [c], replacement) == if x == c then replacement else [x]
  {
    assert [x][..1] == [x];
    assert [x][1..] == [];
  }

  // ---------------------------------------------------------------------------
  // Trimming

  /** char.IsWhiteSpace. */
  predicate IsWhiteSpace(c: char)
  {
    || '\t' <= c <= '\r'
    || c == ' ' || c == '\U{0085}' || c == '\U{00A0}' || c == '\U{1680}'
    || '\U{2000}' <= c <= '\U{200A}'
    || c == '\U{2028}' || c == '\U{2029}' || c == '\U{202F}' || c == '\U{205F}' || c == '\U{3000}'
  }

  /** String.TrimStart(chars). */
  function TrimStartChars(s: string, cs: set<char>): (r: string)
    ensures |r| <= |s|
  {
    if |s| > 0 && s[0] in cs then TrimStartChars(s[1..], cs) else s
  }

  /** TrimStart removes the longest prefix of characters in `cs`, and nothing else. */
  lemma {:induction false} TrimStartCharsMeaning(s: string, cs: set<char>)
    ensures var r := TrimStartChars(s, cs);
      && r == s[|s| - |r|..]
      && (|r| > 0 ==> r[0] !in cs)
      && (forall i :: 0 <= i < |s| - |r| ==> s[i] in cs)
    decreases |s|
  {
    if |s| > 0 && s[0] in cs {
      var t := s[1..];
      TrimStartCharsMeaning(t, cs);
      var r := TrimStartChars(t, cs);
      assert t[|t| - |r|..] == s[|s| - |r|..];
      assert forall i :: 1 <= i < |s| - |r| ==> s[i] == t[i - 1];
    }
  }

  /** String.TrimEnd(chars). */
  function TrimEndChars(s: string, cs: set<char>): (r: string)
    ensures |r| <= |s|
  {
    if |s| > 0 && s[|s| - 1] in cs then TrimEndChars(s[..|s| - 1], cs) else s
  }

  /** TrimEnd removes the longest suffix of characters in `cs`, and nothing else. */
  lemma {:induction false} TrimEndCharsMeaning(s: string, cs: set<char>)
    ensures var r := TrimEndChars(s, cs);
      && r == s[..|r|]
      && (|r| > 0 ==> r[|r| - 1] !in cs)
      && (forall i :: |r| <= i < |s| ==> s[i] in cs)
    decreases |s|
  {
    if |s| > 0 && s[|s| - 1] in cs {
      var t := s[..|s| - 1];
      TrimEndCharsMeaning(t, cs);
      var r := TrimEndChars(t, cs);
      assert t[..|r|] == s[..|r|];
    }
  }

  function TrimStartWhiteSpace(s: string): (r: string)
    ensures |r| <= |s| && r == s[|s| - |r|..]
    ensures |r| > 0 ==> !IsWhiteSpace(r[0])
  {
    if |s| > 0 && IsWhiteSpace(s[0]) then TrimStartWhiteSpace(s[1..]) else s
  }

  function TrimEndWhiteSpace(s: string): (r: string)
    ensures |r| <= |s| && r == s[..|r|]
    ensures |r| > 0 ==> !IsWhiteSpace(r[|r| - 1])
  {
    if |s| > 0 && IsWhiteSpace(s[|s| - 1]) then TrimEndWhiteSpace(s[..|s| - 1]) else s
  }

  /** String.Trim(): leading and trailing white space removed. */
  function Trim(s: string): string
  {
    TrimEndWhiteSpace(TrimStartWhiteSpace(s))
  }

  // ---------------------------------------------------------------------------
  // UTF-8 (Encoding.UTF8.GetBytes)

  /** The UTF-8 bytes of one Unicode scalar value. */
  function Utf8Char(c: char): (r: seq<byte>)
    ensures 1 <= |r| <= 4
  {
    var n := c as int;
    if n < 0x80 then [n as byte]
    else if n < 0x800 then [(0xC0 + n / 0x40) as byte, (0x80 + n % 0x40) as byte]
    else if n < 0x1_0000 then
      [(0xE0 + n / 0x1000) as byte, (0x80 + n / 0x40 % 0x40) as byte, (0x80 + n % 0x40) as byte]
    else
      [(0xF0 + n / 0x4_0000) as byte, (0x80 + n / 0x1000 % 0x40) as byte,
       (0x80 + n / 0x40 % 0x40) as byte, (0x80 + n % 0x40) as byte]
  }

  function Utf8(s: string): (r: seq<byte>)
    ensures |s| > 0 <==> |r| > 0
  {
    if |s| == 0 then [] else Utf8Char(s[0]) + Utf8(s[1..])
  }

  // ---------------------------------------------------------------------------
  // Hexadecimal digits

  /** The hexadecimal digit for `d`, lower-case ("x" formats) or upper-case ("X" formats). */
  function HexDigit(d: nat, upperCase: bool): (c: char)
    requires d < 16
    ensures '0' <= c <= '9' || (if upperCase then 'A' <= c <= 'F' else 'a' <= c <= 'f')
  {
    if d < 10 then ('0' as int + d) as char
    else if upperCase then ('A' as int + d - 10) as char
    else ('a' as int + d - 10) as char
  }

  /** The value of one hexadecimal digit of either case, or None. */
  function HexDigitValue(c: char): (r: Option<nat>)
    ensures r.Some? ==> r.value < 16
  {
    if '0' <= c <= '9' then Some(c as int - '0' as int)
    else if 'a' <= c <= 'f' then Some(c as int - 'a' as int + 10)
    else if 'A' <= c <= 'F' then Some(c as int - 'A' as int + 10)
    else None
  }

  lemma HexDigitRoundTrip(d: nat, upperCase: bool)
    requires d < 16
    ensures HexDigitValue(HexDigit(d, upperCase)) == Some(d)
  {
  }

  /** int.ToString("x"): lower-case hexadecimal without leading zeros ("0" for zero). */
  function ToHex(n: nat): (r: string)
    ensures |r| >= 1
    ensures forall i :: 0 <= i < |r| ==> HexDigitValue(r[i]).Some?
    decreases n
  {
    if n < 16 then [HexDigit(n, false)] else ToHex(n / 16) + [HexDigit(n % 16, false)]
  }

}
