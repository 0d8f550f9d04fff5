/**
 * The rewriting helpers of StringExtensions: ReplaceFirst, ReplaceAll,
 * RemoveCharFlags, CountOccurrencesOf, ToCamelCase, EncodeXml and EncodeJson.
 */
module StringRewriting {

  import opened Wrappers
  import opened Text

  // ---------------------------------------------------------------------------
  // ReplaceFirst

  /** ReplaceFirst: the first ordinal occurrence of `needle` replaced, or the text unchanged. */
  function ReplaceFirst(haystack: string, needle: string, replacement: string): (r: string)
    ensures (forall p :: !OccursAt(haystack, needle, p)) ==> r == haystack
    ensures r == haystack || |r| == |haystack| - |needle| + |replacement|
  {
    IndexOfFromFirst(haystack, needle, 0);
    var pos := IndexOfFrom(haystack, needle, 0);
    if pos < 0 then haystack
    else haystack[..pos] + replacement + haystack[pos + |needle|..]
  }

  /**
   * Without an occurrence the text is unchanged; otherwise the text around the
   * first occurrence is kept and the occurrence becomes `replacement`.
   */
  lemma ReplaceFirstMeaning(haystack: string, needle: string, replacement: string)
    ensures (forall p :: !OccursAt(haystack, needle, p)) ==> ReplaceFirst(haystack, needle, replacement) == haystack
    ensures forall p :: OccursAt(haystack, needle, p) && (forall q :: 0 <= q < p ==> !OccursAt(haystack, needle, q)) ==>
      ReplaceFirst(haystack, needle, replacement) == haystack[..p] + replacement + haystack[p + |needle|..]
  {
    IndexOfFromFirst(haystack, needle, 0);
    var pos := IndexOfFrom(haystack, needle, 0);
    forall p | OccursAt(haystack, needle, p) && (forall q :: 0 <= q < p ==> !OccursAt(haystack, needle, q))
      ensures pos == p
    {
      assert pos != -1 && pos <= p;
      assert pos >= p;
    }
  }

  // ---------------------------------------------------------------------------
  // ReplaceAll

  /**
   * The ReplaceAll loop from `haystack` on, allowed `fuel` more rewrites:
   * while the first occurrence of `needle` lies after index 0 it is replaced.
   * `None` means the fuel ran out; the loop itself may never stop.
   */
  function ReplaceAllLoop(haystack: string, needle: string, replacement: string, fuel: nat): Option<string>
    decreases fuel
  {
    var pos := IndexOfFrom(haystack, needle, 0);
    if pos <= 0 then Some(haystack)
    else if fuel == 0 then None
    else ReplaceAllLoop(haystack[..pos] + replacement + haystack[pos + |needle|..], needle, replacement, fuel - 1)
  }

  /** ReplaceAll with at most `fuel` rewrites; it returns the input at once when `needle == replacement`. */
  function ReplaceAllSpec(haystack: string, needle: string, replacement: string, fuel: nat): Option<string>
  {
    if needle == replacement then Some(haystack) else ReplaceAllLoop(haystack, needle, replacement, fuel)
  }

  /**
   * ReplaceAll, running the loop for at most `fuel` rewrites (`None` when
   * they are used up). Unless `needle == replacement`, the text it returns
   * holds `needle` nowhere but possibly at index 0.
   */
  method ReplaceAll(haystack: string, needle: string, replacement: string, fuel: nat) returns (r: Option<string>)
    ensures r == ReplaceAllSpec(haystack, needle, replacement, fuel)
    ensures r.Some? && needle != replacement ==>
      OccursAt(r.value, needle, 0) || forall p :: !OccursAt(r.value, needle, p)
  {
    if needle == replacement {
      return Some(haystack);
    }
    r := RewriteWhileLater(haystack, needle, replacement, fuel);
  }

  /** The while loop of ReplaceAll: rewrite the first occurrence while it lies after index 0. */
  method RewriteWhileLater(haystack: string, needle: string, replacement: string, fuel: nat) returns (r: Option<string>)
    ensures r == ReplaceAllLoop(haystack, needle, replacement, fuel)
    ensures r.Some? ==> OccursAt(r.value, needle, 0) || forall p :: !OccursAt(r.value, needle, p)
  {
    var h := haystack;
    var left := fuel;
    var pos := IndexOfFrom(h, needle, 0);
    while pos > 0
      invariant ReplaceAllLoop(h, needle, replacement, left) == ReplaceAllLoop(haystack, needle, replacement, fuel)
      invariant pos == IndexOfFrom(h, needle, 0)
      decreases left
    {
      if left == 0 {
        return None;
      }
      h, pos := RewriteFirst(h, needle, replacement, left);
      left := left - 1;
    }
    IndexOfFromFirst(h, needle, 0);
    return Some(h);
  }

  /** One pass of the loop body: the rewrite, then the search for the next occurrence. */
  method RewriteFirst(h: string, needle: string, replacement: string, left: nat) returns (next: string, pos: int)
    requires left > 0 && IndexOfFrom(h, needle, 0) > 0
    ensures ReplaceAllLoop(next, needle, replacement, left - 1) == ReplaceAllLoop(h, needle, replacement, left)
    ensures pos == IndexOfFrom(next, needle, 0)
  {
    ReplaceAllLoopStep(h, needle, replacement, left);
    next := ReplaceFirst(h, needle, replacement);
    pos := IndexOfFrom(next, needle, 0);
  }

  /** One rewrite of the loop, for a first occurrence after index 0. */
  lemma ReplaceAllLoopStep(haystack: string, needle: string, replacement: string, fuel: nat)
    requires fuel > 0 && IndexOfFrom(haystack, needle, 0) > 0
    ensures ReplaceAllLoop(haystack, needle, replacement, fuel)
      == ReplaceAllLoop(ReplaceFirst(haystack, needle, replacement), needle, replacement, fuel - 1)
  {
  }

  /** A shorter replacement shortens the text at every rewrite, so `|haystack|` rewrites suffice. */
  lemma {:induction false} ReplaceAllLoopShrinks(haystack: string, needle: string, replacement: string, fuel: nat)
    requires |replacement| < |needle| && |haystack| <= fuel
    ensures ReplaceAllLoop(haystack, needle, replacement, fuel).Some?
    decreases fuel
  {
    var pos := IndexOfFrom(haystack, needle, 0);
    if pos > 0 {
      ReplaceAllLoopShrinks(haystack[..pos] + replacement + haystack[pos + |needle|..], needle, replacement, fuel - 1);
    }
  }

  /** A match at index 0 stops the loop before any rewrite, even of later matches. */
  lemma ReplaceAllIndexZeroExample(fuel: nat)
    ensures ReplaceAllSpec("ab_ab", "ab", "x", fuel) == Some("ab_ab")
  {
    assert "ab_ab"[0..2] == "ab";
  }

  /** `x` followed by `k` copies of `a`. */
  function XAs(k: nat): (s: string)
    ensures |s| == k + 1 && s[0] == 'x'
    ensures forall i :: 1 <= i < |s| ==> s[i] == 'a'
  {
    if k == 0 then "x" else XAs(k - 1) + "a"
  }

  lemma {:induction false} ReplaceAllLoopGrows(k: nat, fuel: nat)
    requires k >= 1
    ensures ReplaceAllLoop(XAs(k), "a", "aa", fuel) == None
    decreases fuel
  {
    var s := XAs(k);
    assert s[0..1] != "a";
    assert s[1..2] == "a";
    assert IndexOfFrom(s, "a", 0) == 1 by {
      assert IndexOfFrom(s, "a", 1) == 1;
    }
    var next := s[..1] + "aa" + s[2..];
    assert next == XAs(k + 1);
    if fuel > 0 {
      ReplaceAllLoopGrows(k + 1, fuel - 1);
    }
  }

  /** A replacement that recreates `needle` after index 0 never lets the loop stop: "xa" grows forever. */
  lemma ReplaceAllDiverges(fuel: nat)
    ensures ReplaceAllSpec("xa", "a", "aa", fuel) == None
  {
    assert XAs(1) == "xa";
    ReplaceAllLoopGrows(1, fuel);
  }

  // ---------------------------------------------------------------------------
  // RemoveCharFlags

  /** The character's flag is set (its code indexes `charFlags`). */
  predicate Flagged(c: char, charFlags: seq<bool>)
  {
    (c as int) < |charFlags| && charFlags[c as int]
  }

  /** The unflagged characters of `text[..n]`, in order. */
  function Unflagged(text: string, charFlags: seq<bool>, n: nat): (r: string)
    requires n <= |text|
    ensures |r| <= n
    decreases n
  {
    if n == 0 then []
    else if Flagged(text[n - 1], charFlags) then Unflagged(text, charFlags, n - 1)
    else Unflagged(text, charFlags, n - 1) + [text[n - 1]]
  }

  /** RemoveCharFlags: null stays null; the characters whose flag is set are removed. */
  method RemoveCharFlags(text: Option<string>, charFlags: seq<bool>) returns (r: Option<string>)
    ensures text.None? ==> r.None?
    ensures text.Some? ==> r == Some(Unflagged(text.value, charFlags, |text.value|))
  {
    if text.None? {
      return None;
    }
    var t := text.value;
    var copy := new char[|t|](i requires 0 <= i < |t| => t[i]);
    var nonWsPos := 0;
    for i := 0 to |t|
      invariant nonWsPos <= i
      invariant copy[..nonWsPos] == Unflagged(t, charFlags, i)
    {
      var c := t[i];
      if (c as int) < |charFlags| && charFlags[c as int] {
        continue;
      }
      copy[nonWsPos] := c;
      nonWsPos := nonWsPos + 1;
    }
    return Some(copy[..nonWsPos]);
  }

  /**
   * RemoveCharFlags keeps every unflagged character as often as it occurs and
   * drops every flagged one.
   */
  lemma {:induction false} UnflaggedCounts(text: string, charFlags: seq<bool>, n: nat)
    requires n <= |text|
    ensures forall c ::
      multiset(Unflagged(text, charFlags, n))[c] == (if Flagged(c, charFlags) then 0 else multiset(text[..n])[c])
    decreases n
  {
    if n > 0 {
      UnflaggedCounts(text, charFlags, n - 1);
      assert text[..n] == text[..n - 1] + [text[n - 1]];
    }
  }

  /** With no flag set on any of its characters the text comes back unchanged. */
  lemma {:induction false} UnflaggedNone(text: string, charFlags: seq<bool>, n: nat)
    requires n <= |text|
    requires forall i :: 0 <= i < n ==> !Flagged(text[i], charFlags)
    ensures Unflagged(text, charFlags, n) == text[..n]
    decreases n
  {
    if n > 0 {
      UnflaggedNone(text, charFlags, n - 1);
      assert text[..n] == text[..n - 1] + [text[n - 1]];
    }
  }

  // ---------------------------------------------------------------------------
  // CountOccurrencesOf

  /** CountOccurrencesOf: counts `needle` scanning the characters from the last to the first. */
  method CountOccurrencesOf(text: string, needle: char) returns (count: int)
    ensures count == CountFrom(text, needle, 0)
    ensures count == multiset(text)[needle]
  {
    var chars := new char[|text|](i requires 0 <= i < |text| => text[i]);
    count := 0;
    var length := chars.Length;
    var n := length - 1;
    while n >= 0
      invariant -1 <= n < length
      invariant count == CountFrom(text, needle, n + 1)
    {
      if chars[n] == needle {
        count := count + 1;
      }
      n := n - 1;
    }
    CountFromMultiset(text, needle, 0);
    assert text[0..] == text;
  }

  // ---------------------------------------------------------------------------
  // ToCamelCase

  /**
   * Position `i` may be lowered while the leading run lasts: an ASCII capital
   * that is the first character, or the last, or followed by a capital.
   */
  predicate CamelLowers(v: string, i: nat)
    requires i < |v|
  {
    IsAsciiUpper(v[i]) && (i == 0 || i + 1 == |v| || IsAsciiUpper(v[i + 1]))
  }

  /** The end of the run of positions from `i` on that CamelLowers accepts. */
  function LeadingRun(v: string, i: nat): (k: nat)
    requires i <= |v|
    ensures i <= k <= |v|
    ensures k < |v| ==> !CamelLowers(v, k)
    decreases |v| - i
  {
    if i == |v| || !CamelLowers(v, i) then i else LeadingRun(v, i + 1)
  }

  lemma {:induction false} LeadingRunAll(v: string, i: nat)
    requires i <= |v|
    ensures forall j :: i <= j < LeadingRun(v, i) ==> CamelLowers(v, j)
    decreases |v| - i
  {
    if i < |v| && CamelLowers(v, i) {
      LeadingRunAll(v, i + 1);
    }
  }

  /** The camel-cased text: the leading run lower-cased, the rest unchanged. */
  function CamelCase(v: string): (r: string)
    ensures |r| == |v|
  {
    var k := LeadingRun(v, 0);
    LowerStr(v[..k]) + v[k..]
  }

  /**
   * ToCamelCase: null or "" comes back as it is; otherwise a copy in which the
   * leading capitals are lowered, where a capital followed by a non-capital
   * ends the run unless it is the first character.
   */
  method ToCamelCase(value: Option<string>) returns (r: Option<string>)
    ensures value.None? || value.value == [] ==> r == value
    ensures value.Some? && value.value != [] ==> r == Some(CamelCase(value.value))
  {
    if value.None? || value.value == [] {
      return value;
    }
    var v := value.value;
    var len := |v|;
    var newValue := new char[len];
    var firstPart := true;
    ghost var k := LeadingRun(v, 0);
    LeadingRunAll(v, 0);
    for i := 0 to len
      invariant firstPart <==> i <= k
      invariant forall j :: 0 <= j < i ==> newValue[j] == if j < k then ToLower(v[j]) else v[j]
    {
      var c0 := v[i];
      var c1 := if i < len - 1 then v[i + 1] else 'A';
      var c0isUpper := 'A' <= c0 <= 'Z';
      var c1isUpper := 'A' <= c1 <= 'Z';
      assert firstPart ==> (CamelLowers(v, i) <==> c0isUpper && (c1isUpper || i == 0));
      if firstPart && c0isUpper && (c1isUpper || i == 0) {
        c0 := (c0 as int + ('a' as int - 'A' as int)) as char;
      } else {
        firstPart := false;
      }
      newValue[i] := c0;
    }
    assert newValue[..] == CamelCase(v) by {
      forall j | 0 <= j < len ensures newValue[..][j] == CamelCase(v)[j] {
        if j < k {
          assert CamelCase(v)[j] == LowerStr(v[..k])[j];
        } else {
          assert CamelCase(v)[j] == v[k..][j - k];
        }
      }
    }
    return Some(newValue[..]);
  }

  /** A leading capital is always lowered, and everything after the run is kept. */
  lemma CamelCaseFirst(v: string)
    requires v != [] && IsAsciiUpper(v[0])
    ensures CamelCase(v)[0] == ToLower(v[0])
    ensures CamelCase(v)[LeadingRun(v, 0)..] == v[LeadingRun(v, 0)..]
  {
    var k := LeadingRun(v, 0);
    assert k > 0;
    assert CamelCase(v)[0] == LowerStr(v[..k])[0];
  }

  /** Camel-casing twice is camel-casing once. */
  lemma CamelCaseIdempotent(v: string)
    ensures CamelCase(CamelCase(v)) == CamelCase(v)
  {
    var w := CamelCase(v);
    var k := LeadingRun(v, 0);
    if k == 0 {
      assert w == v;
    } else {
      assert w[0] == LowerStr(v[..k])[0];
      assert !IsAsciiUpper(w[0]);
      assert LeadingRun(w, 0) == 0;
      assert w[0..] == w;
    }
  }

  /** An acronym prefix is lowered up to the capital that starts the next word. */
  lemma CamelCaseExample()
    ensures CamelCase("HTMLParser") == "htmlParser"
    ensures CamelCase("ABC") == "abc"
    ensures CamelCase("Abc") == "abc"
  {
    var s := "HTMLParser";
    assert LeadingRun(s, 4) == 4;
    assert LeadingRun(s, 0) == 4;
    assert s[..4] == "HTML" && s[4..] == "Parser";
    assert LeadingRun("ABC", 0) == 3;
    assert LeadingRun("Abc", 1) == 1;
    assert "ABC"[..3] == "ABC" && "Abc"[..1] == "A";
  }

  // ---------------------------------------------------------------------------
  // EncodeXml / EncodeJson

  /** A chain of String.Replace calls with one-character needles, applied left to right. */
  function ReplaceEach(s: string, rules: seq<(char, string)>): string
    decreases |rules|
  {
    if rules == [] then s else ReplaceEach(Replace(s, [rules[0].0], rules[0].1), rules[1..])
  }

  lemma {:induction false} ReplaceEachAppend(s: string, t: string, rules: seq<(char, string)>)
    ensures ReplaceEach(s + t, rules) == ReplaceEach(s, rules) + ReplaceEach(t, rules)
    decreases |rules|
  {
    if rules != [] {
      ReplaceOneCharAppend(s, t, rules[0].0, rules[0].1);
      ReplaceEachAppend(Replace(s, [rules[0].0], rules[0].1), Replace(t, [rules[0].0], rules[0].1), rules[1..]);
    }
  }

  /** Replacing a one-character needle that does not occur changes nothing. */
  lemma {:induction false} ReplaceOneCharAbsent(s: string, c: char, replacement: string)
    requires c !in s
    ensures Replace(s, [c], replacement) == s
    decreases |s|
  {
    if s != [] {
      assert s == [s[0]] + s[1..];
      ReplaceOneCharAppend([s[0]], s[1..], c, replacement);
      ReplaceOneCharUnit(s[0], c, replacement);
      ReplaceOneCharAbsent(s[1..], c, replacement);
    }
  }

  /** A character absent from the text and from the replacement stays absent. */
  lemma {:induction false} ReplaceOneCharKeepsAbsent(s: string, c: char, replacement: string, d: char)
    requires d !in s && d !in replacement
    ensures d !in Replace(s, [c], replacement)
    decreases |s|
  {
    if s != [] {
      assert s == [s[0]] + s[1..];
      ReplaceOneCharAppend([s[0]], s[1..], c, replacement);
      ReplaceOneCharUnit(s[0], c, replacement);
      ReplaceOneCharKeepsAbsent(s[1..], c, replacement, d);
    }
  }

  /** The replacement chains EncodeXml runs, in the order it runs them. */
  const XmlRulesAsWritten: seq<(char, string)> := [('<', "&lt;"), ('>', "&gt;"), ('&', "&amp;")]
  const XmlRules: seq<(char, string)> := [('&', "&amp;"), ('<', "&lt;"), ('>', "&gt;")]

  /** EncodeXml as written: `<`, then `>`, then `&` replaced by their entities. */
  function EncodeXmlAsWritten(value: string): (r: string)
    ensures '<' !in value && '>' !in value ==> r == XmlEscape(value)
  {
    XmlRuleOrdersAgree(value);
    XmlRulesChain(value);
    ReplaceEach(value, XmlRulesAsWritten)
  }

  /** EncodeXml corrected: `&` replaced first, so the entities it inserts are not escaped again. */
  function EncodeXmlIntended(value: string): (r: string)
    ensures r == XmlEscape(value)
    ensures '<' !in r && '>' !in r
  {
    XmlRulesChain(value);
    XmlEscapeNoBrackets(value);
    ReplaceEach(value, XmlRules)
  }

  /** The XML entity for one character. */
  function XmlEntity(c: char): string
  {
    if c == '&' then "&amp;" else if c == '<' then "&lt;" else if c == '>' then "&gt;" else [c]
  }

  /** Each character replaced by its XML entity. */
  function XmlEscape(s: string): (r: string)
    decreases |s|
  {
    if s == [] then [] else XmlEntity(s[0]) + XmlEscape(s[1..])
  }

  lemma XmlRulesChar(x: char)
    ensures ReplaceEach([x], XmlRules) == XmlEntity(x)
  {
    ReplaceOneCharUnit(x, '&', "&amp;");
    var a := Replace([x], "&", "&amp;");
    if x == '&' {
      ReplaceOneCharAbsent(a, '<', "&lt;");
      ReplaceOneCharAbsent(a, '>', "&gt;");
    } else {
      ReplaceOneCharUnit(x, '<', "&lt;");
      var b := Replace([x], "<", "&lt;");
      if x == '<' {
        ReplaceOneCharAbsent(b, '>', "&gt;");
      } else {
        ReplaceOneCharUnit(x, '>', "&gt;");
      }
    }
    assert XmlRules[1..][1..][1..] == [];
  }

  /** The corrected replacement chain replaces every character by its XML entity, independently of its neighbours. */
  lemma {:induction false} XmlRulesChain(value: string)
    ensures ReplaceEach(value, XmlRules) == XmlEscape(value)
    decreases |value|
  {
    if value != [] {
      assert value == [value[0]] + value[1..];
      ReplaceEachAppend([value[0]], value[1..], XmlRules);
      XmlRulesChar(value[0]);
      XmlRulesChain(value[1..]);
    }
  }

  /** The corrected EncodeXml replaces every character by its XML entity, independently of its neighbours. */
  lemma EncodeXmlEscapes(value: string)
    ensures EncodeXmlIntended(value) == XmlEscape(value)
  {
    XmlRulesChain(value);
  }

  /** The escaped text holds no `<` or `>`. */
  lemma {:induction false} XmlEscapeNoBrackets(s: string)
    ensures '<' !in XmlEscape(s) && '>' !in XmlEscape(s)
    decreases |s|
  {
    if s != [] {
      XmlEscapeNoBrackets(s[1..]);
    }
  }

  /** As written, a `<` becomes "&amp;lt;": the `&` of the entity is escaped again. */
  lemma EncodeXmlAsWrittenDoubleEscapes()
    ensures EncodeXmlAsWritten("<") == "&amp;lt;"
    ensures EncodeXmlIntended("<") == "&lt;"
  {
    var lt := "&lt;";
    assert Replace("<", "<", lt) == lt by {
      ReplaceOneCharUnit('<', '<', lt);
    }
    assert Replace(lt, ">", "&gt;") == lt by {
      ReplaceOneCharAbsent(lt, '>', "&gt;");
    }
    assert Replace(lt, "&", "&amp;") == "&amp;lt;" by {
      assert lt == "&" + "lt;";
      ReplaceOneCharAppend("&", "lt;", '&', "&amp;");
      ReplaceOneCharUnit('&', '&', "&amp;");
      ReplaceOneCharAbsent("lt;", '&', "&amp;");
    }
    assert XmlRulesAsWritten[1..][1..][1..] == [];
    XmlRulesChar('<');
  }

  /** On text without `<` and `>` the order does not matter. */
  lemma EncodeXmlAsWrittenAgrees(value: string)
    requires '<' !in value && '>' !in value
    ensures EncodeXmlAsWritten(value) == EncodeXmlIntended(value)
  {
    XmlRuleOrdersAgree(value);
  }

  /** The two replacement orders agree on text without `<` and `>`. */
  lemma XmlRuleOrdersAgree(value: string)
    ensures '<' !in value && '>' !in value ==> ReplaceEach(value, XmlRulesAsWritten) == ReplaceEach(value, XmlRules)
  {
    if '<' in value || '>' in value {
      return;
    }
    ReplaceOneCharAbsent(value, '<', "&lt;");
    ReplaceOneCharAbsent(value, '>', "&gt;");
    var a := Replace(value, "&", "&amp;");
    ReplaceOneCharKeepsAbsent(value, '&', "&amp;", '<');
    ReplaceOneCharKeepsAbsent(value, '&', "&amp;", '>');
    ReplaceOneCharAbsent(a, '<', "&lt;");
    ReplaceOneCharAbsent(a, '>', "&gt;");
    assert XmlRulesAsWritten[1..][1..][1..] == [];
    assert XmlRules[1..][1..][1..] == [];
  }

  /** The replacement chain EncodeJson runs, in its order. */
  const JsonRules: seq<(char, string)> := [('\\', "\\\\"), ('"', "\\\""), ('\r', ""), ('\n', "\\n")]

  /** EncodeJson: the text with `\` and `"` escaped, CR removed and LF written `\n`, in double quotes. */
  function EncodeJson(value: string): (r: string)
    ensures r == "\"" + JsonEscape(value) + "\""
    ensures '\r' !in r && '\n' !in r
  {
    JsonEscapeChain(value);
    JsonEscapeNoLineBreaks(value);
    "\"" + ReplaceEach(value, JsonRules) + "\""
  }

  /** The JSON escape for one character. */
  function JsonEscapeChar(c: char): string
  {
    if c == '\\' then "\\\\" else if c == '"' then "\\\"" else if c == '\r' then "" else if c == '\n' then "\\n" else [c]
  }

  /** Each character replaced by its JSON escape. */
  function JsonEscape(s: string): string
    decreases |s|
  {
    if s == [] then [] else JsonEscapeChar(s[0]) + JsonEscape(s[1..])
  }

  lemma JsonRulesChar(x: char)
    ensures ReplaceEach([x], JsonRules) == JsonEscapeChar(x)
  {
    ReplaceOneCharUnit(x, '\\', "\\\\");
    var a := Replace([x], "\\", "\\\\");
    if x == '\\' {
      ReplaceOneCharAbsent(a, '"', "\\\"");
      ReplaceOneCharAbsent(a, '\r', "");
      ReplaceOneCharAbsent(a, '\n', "\\n");
    } else {
      ReplaceOneCharUnit(x, '"', "\\\"");
      var b := Replace([x], "\"", "\\\"");
      if x == '"' {
        ReplaceOneCharAbsent(b, '\r', "");
        ReplaceOneCharAbsent(b, '\n', "\\n");
      } else {
        ReplaceOneCharUnit(x, '\r', "");
        var c := Replace([x], "\r", "");
        if x == '\r' {
          ReplaceOneCharAbsent(c, '\n', "\\n");
        } else {
          ReplaceOneCharUnit(x, '\n', "\\n");
        }
      }
    }
    assert JsonRules[1..][1..][1..][1..] == [];
  }

  /** EncodeJson escapes each character independently and wraps the result in quotes. */
  lemma {:induction false} EncodeJsonEscapes(value: string)
    ensures EncodeJson(value) == "\"" + JsonEscape(value) + "\""
    decreases |value|
  {
    JsonEscapeChain(value);
  }

  lemma {:induction false} JsonEscapeChain(value: string)
    ensures ReplaceEach(value, JsonRules) == JsonEscape(value)
    decreases |value|
  {
    if value != [] {
      assert value == [value[0]] + value[1..];
      ReplaceEachAppend([value[0]], value[1..], JsonRules);
      JsonRulesChar(value[0]);
      JsonEscapeChain(value[1..]);
    }
  }

  /** The encoded body holds no line break. */
  lemma {:induction false} JsonEscapeNoLineBreaks(s: string)
    ensures '\r' !in JsonEscape(s) && '\n' !in JsonEscape(s)
    decreases |s|
  {
    if s != [] {
      JsonEscapeNoLineBreaks(s[1..]);
    }
  }
}
