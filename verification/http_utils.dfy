/**
 * The URL editors of HttpUtils: AddQueryParam and SetQueryParam work on the
 * query string (opened by `?`, parameters separated by `&`), AddHashParam and
 * SetHashParam on the fragment (opened by `#`, parameters separated by `/`).
 */
module HttpUtils {

  import opened Wrappers
  import opened Text
  import UrlEncoding

  /** A null or empty url, for which every editor returns null. */
  predicate Missing(url: Option<string>)
  {
    url.None? || |url.value| == 0
  }

  /** The value as written into the url: `val.UrlEncode()`, or `val` itself when encoding is off. */
  function ParamValue(val: string, encode: bool): string
  {
    if encode then UrlEncoding.UrlEncodeSpec(Some(val), false) else val
  }

  /** AddQueryParam(urlString, key, val, encode). */
  function AddQueryParam(url: Option<string>, key: string, val: string, encode: bool): (r: Option<string>)
    ensures r.None? <==> Missing(url)
    ensures r.Some? ==> EndsWithParam(r.value, url.value, Param(key, ParamValue(val, encode)))
  {
    if Missing(url) then None
    else
      var u := url.value;
      var p := Param(key, ParamValue(val, encode));
      var res := u + QueryPrefix(u) + p;
      assert res[..|u|] == u && res[|res| - |p|..] == p;
      Some(res)
  }

  /** `r` starts with the url `u` and ends with the parameter text `p`, which follows it. */
  predicate EndsWithParam(r: string, u: string, p: string)
  {
    |u| + |p| <= |r| && r[..|u|] == u && r[|r| - |p|..] == p
  }

  /** What AddQueryParam puts between the url and the parameter. */
  function QueryPrefix(u: string): string
  {
    if EndsWith(u, "?") || EndsWith(u, "&") then "" else if IndexOf(u, '?') == -1 then "?" else "&"
  }

  /** AddHashParam(urlString, key, val): always encodes, and never checks how the url ends. */
  function AddHashParam(url: Option<string>, key: string, val: string): (r: Option<string>)
    ensures r.None? <==> Missing(url)
    ensures r.Some? ==> EndsWithParam(r.value, url.value, Param(key, ParamValue(val, true)))
  {
    if Missing(url) then None
    else
      var u := url.value;
      var p := Param(key, ParamValue(val, true));
      var res := u + HashPrefix(u) + p;
      assert res[..|u|] == u && res[|res| - |p|..] == p;
      Some(res)
  }

  /** What AddHashParam puts between the url and the parameter. */
  function HashPrefix(u: string): string
  {
    if IndexOf(u, '#') == -1 then "#" else "/"
  }

  /**
   * Where SetQueryParam/SetHashParam find the key, given the index `pos` of
   * the start marker: right after the marker, or after a separator further on.
   * The key is found by prefix, not as a whole name.
   */
  function ExistingKeyPos(u: string, key: string, pos: nat, sep: char): (r: int)
    requires pos < |u|
    ensures r == -1 || (pos <= r && r + |key| + 1 <= |u|)
  {
    if pos + 1 == IndexOfFrom(u, key, pos) then pos else IndexOfFrom(u, [sep] + key, pos)
  }

  /** Where SetParam finds the key: -1 when there is no start marker or no key after it. */
  function KeyPos(u: string, key: string, start: char, sep: char): (r: int)
    ensures r == -1 || (0 <= r && r + |key| + 1 <= |u|)
  {
    var pos := IndexOf(u, start);
    if pos == -1 then -1 else ExistingKeyPos(u, key, pos, sep)
  }

  /** Where the parameter starting at `existing` ends: at the next separator, or at the end. */
  function ParamEnd(u: string, sep: char, existing: nat): (r: nat)
    requires existing < |u|
    ensures existing < r <= |u|
  {
    var next := IndexOfCharFrom(u, sep, existing + 1);
    if next == -1 then |u| else next
  }

  /**
   * The shared body of SetQueryParam (`start` = `?`, `sep` = `&`) and
   * SetHashParam (`start` = `#`, `sep` = `/`).
   */
  function SetParam(url: Option<string>, key: string, val: string, start: char, sep: char): (r: Option<string>)
    ensures r.None? <==> Missing(url)
    ensures r.Some? ==> HasParam(r.value, Param(key, ParamValue(val, true)), start, sep)
  {
    SetEncoded(url, key, ParamValue(val, true), start, sep)
  }

  /** SetParam once the value `e` has been encoded. */
  function SetEncoded(url: Option<string>, key: string, e: string, start: char, sep: char): (r: Option<string>)
    ensures r.None? <==> Missing(url)
    ensures r.Some? ==> HasParam(r.value, Param(key, e), start, sep)
  {
    if Missing(url) then None
    else
      var u := url.value;
      var existing := KeyPos(u, key, start, sep);
      var p := Param(key, e);
      if existing != -1 then
        var res := Rewritten(u, key, e, sep, existing);
        KeyFound(u, key, start, sep);
        assert res[existing] == u[existing];
        assert res[existing + 1..existing + 1 + |p|] == p;
        assert OccursAt(res, p, existing + 1);
        Some(res)
      else
        var res := u + [if IndexOf(u, start) == -1 then start else sep] + p;
        assert res[|u|] in {start, sep};
        assert res[|u| + 1..|u| + 1 + |p|] == p;
        assert OccursAt(res, p, |u| + 1);
        Some(res)
  }

  /** The parameter text `p` occurs in `r` right after the start marker or a separator. */
  predicate HasParam(r: string, p: string, start: char, sep: char)
  {
    exists i :: 0 < i < |r| && OccursAt(r, p, i) && r[i - 1] in {start, sep}
  }

  /** The url with the value of the parameter whose key ends at `existing + |key|` replaced by `e`. */
  function Rewritten(u: string, key: string, e: string, sep: char, existing: nat): string
    requires existing + |key| + 1 <= |u|
  {
    u[..existing + |key| + 1] + "=" + e + u[ParamEnd(u, sep, existing)..]
  }

  /** The text `key=value` of one parameter. */
  function Param(key: string, e: string): string
  {
    key + "=" + e
  }

  /** SetQueryParam(urlString, key, val). */
  function SetQueryParam(url: Option<string>, key: string, val: string): (r: Option<string>)
    ensures r.None? <==> Missing(url)
    ensures r.Some? ==> HasParam(r.value, key + "=" + ParamValue(val, true), '?', '&')
  {
    SetParam(url, key, val, '?', '&')
  }

  /** SetHashParam(urlString, key, val). */
  function SetHashParam(url: Option<string>, key: string, val: string): (r: Option<string>)
    ensures r.None? <==> Missing(url)
    ensures r.Some? ==> HasParam(r.value, key + "=" + ParamValue(val, true), '#', '/')
  {
    SetParam(url, key, val, '#', '/')
  }

  // ---------------------------------------------------------------------------
  // Search helpers

  /** An occurrence at `p` with none between `from` and `p` is what IndexOf(t, from) reports. */
  lemma IndexOfFromAt(s: string, t: string, from: nat, p: nat)
    requires from <= p && from <= |s| && OccursAt(s, t, p)
    requires forall q :: from <= q < p ==> !OccursAt(s, t, q)
    ensures IndexOfFrom(s, t, from) == p
  {
    IndexOfFromFirst(s, t, from);
  }

  /** Whether `t` occurs at `q` depends only on the characters it covers. */
  lemma OccursAtAgree(s1: string, s2: string, n: nat, t: string, q: nat)
    requires n <= |s1| && n <= |s2| && s1[..n] == s2[..n] && q + |t| <= n
    ensures OccursAt(s1, t, q) <==> OccursAt(s2, t, q)
  {
    assert s1[q..q + |t|] == s1[..n][q..q + |t|];
    assert s2[q..q + |t|] == s2[..n][q..q + |t|];
  }

  /** A `c` at `p` with none between `from` and `p` is what IndexOf(c, from) reports. */
  lemma IndexOfCharFromAt(s: string, c: char, from: nat, p: nat)
    requires from <= p < |s| && s[p] == c
    requires forall j :: from <= j < p ==> s[j] != c
    ensures IndexOfCharFrom(s, c, from) == p
  {
    IndexOfCharFromFirst(s, c, from);
  }

  /** The encoded value holds none of the markers and separators. */
  lemma ParamValueFree(val: string)
    ensures var e := ParamValue(val, true);
      '?' !in e && '&' !in e && '#' !in e && '/' !in e && '=' !in e
  {
    UrlEncoding.UrlEncodeAlphabet(val, false);
  }

  // ---------------------------------------------------------------------------
  // Adding a parameter

  /**
   * AddQueryParam keeps the url as a prefix and puts `key=value` at the end,
   * straight after a `?` or `&`; when neither occurs in the key and value,
   * that is the last `?` or `&` of the result, so `key=value` is the last
   * parameter. A null or empty url gives null.
   */
  lemma AddQueryParamLast(url: Option<string>, key: string, val: string, encode: bool)
    requires '?' !in key && '&' !in key
    requires '?' !in ParamValue(val, encode) && '&' !in ParamValue(val, encode)
    ensures AddQueryParam(url, key, val, encode).None? <==> Missing(url)
    ensures !Missing(url) ==>
      var r := AddQueryParam(url, key, val, encode).value;
      var p := key + "=" + ParamValue(val, encode);
      && StartsWith(r, url.value)
      && EndsWith(r, p)
      && |url.value| <= |r| - |p|
      && LastIndexOfAny(r, {'?', '&'}) == |r| - |p| - 1
  {
    if !Missing(url) {
      var u := url.value;
      QueryPrefixEnds(u);
      LastMarker(u, QueryPrefix(u), Param(key, ParamValue(val, encode)), '?', '&');
    }
  }

  /** After the query prefix the url ends in `?` or `&`. */
  lemma QueryPrefixEnds(u: string)
    requires |u| > 0
    ensures var h := u + QueryPrefix(u);
      |h| > 0 && h[|h| - 1] in {'?', '&'}
  {
    if QueryPrefix(u) == "" {
      assert EndsWith(u, "?") || EndsWith(u, "&");
      assert u[|u| - 1] in {'?', '&'};
    }
  }

  /** A character missing from `p` is missing from every position from `n` on, when `p` is what follows `n`. */
  lemma TailFree(r: string, n: nat, p: string, c: char)
    requires n <= |r| && r[n..] == p && c !in p
    ensures forall i :: n <= i < |r| ==> r[i] != c
  {
    forall i | n <= i < |r| ensures r[i] != c {
      assert r[i] == p[i - n];
    }
  }

  /**
   * The url, a prefix that leaves it ending in `a` or `b`, then a parameter
   * free of both: that last character of the prefix is the last `a` or `b`.
   */
  lemma LastMarker(u: string, prefix: string, p: string, a: char, b: char)
    requires |u + prefix| > 0 && (u + prefix)[|u + prefix| - 1] in {a, b}
    requires a !in p && b !in p
    ensures var r := u + prefix + p;
      && StartsWith(r, u) && EndsWith(r, p) && |u| <= |r| - |p|
      && LastIndexOfAny(r, {a, b}) == |r| - |p| - 1
  {
    var h := u + prefix;
    var r := h + p;
    assert r[..|u|] == u;
    assert r[|h|..] == p;
    assert r[|h| - 1] in {a, b};
    TailFree(r, |h|, p, a);
    TailFree(r, |h|, p, b);
  }

  /**
   * AddQueryParam adds a `?` exactly when the url has none, unless the url
   * ends with `&`: then it appends straight after the `&`, and the result
   * still has no `?`.
   */
  lemma AddQueryParamMarker(u: string, key: string, val: string, encode: bool)
    requires |u| > 0
    requires '?' !in key && '?' !in ParamValue(val, encode)
    ensures '?' in AddQueryParam(Some(u), key, val, encode).value <==> '?' in u || !EndsWith(u, "&")
  {
    var r := AddQueryParam(Some(u), key, val, encode).value;
    var prefix := QueryPrefix(u);
    var p := Param(key, ParamValue(val, encode));
    assert r == u + (prefix + p);
    assert '?' !in p;
    if EndsWith(u, "?") {
      assert u[|u| - 1] == "?"[0];
    }
    IndexOfFirst(u, '?');
  }

  /** A url ending in `&` with no `?` gets no query marker: "a&" gives "a&k=v". */
  lemma AddQueryParamAfterAmpersand()
    ensures AddQueryParam(Some("a&"), "k", "v", false) == Some("a&k=v")
  {
    assert EndsWith("a&", "&");
    assert QueryPrefix("a&") == "";
    assert Param("k", "v") == "k=v";
    assert "a&" + "" + "k=v" == "a&k=v";
  }

  /**
   * AddHashParam keeps the url as a prefix and puts `key=value` at the end,
   * straight after a `#` or `/`; the result always has a `#`.
   */
  lemma AddHashParamLast(url: Option<string>, key: string, val: string)
    requires '#' !in key && '/' !in key
    ensures AddHashParam(url, key, val).None? <==> Missing(url)
    ensures !Missing(url) ==>
      var r := AddHashParam(url, key, val).value;
      var p := key + "=" + ParamValue(val, true);
      && StartsWith(r, url.value)
      && EndsWith(r, p)
      && |r| == |url.value| + 1 + |p|
      && LastIndexOfAny(r, {'#', '/'}) == |r| - |p| - 1
      && '#' in r
  {
    if !Missing(url) {
      ParamValueFree(val);
      var u := url.value;
      var p := Param(key, ParamValue(val, true));
      var prefix := HashPrefix(u);
      var r := (u + prefix) + p;
      LastMarker(u, prefix, p, '#', '/');
      if IndexOf(u, '#') != -1 {
        assert r[IndexOf(u, '#')] == '#';
      } else {
        assert r[|u|] == '#';
      }
    }
  }

  /** A fragment that is already there is followed by `/`, even when the url ends in `#`: "a#" gives "a#/k=v". */
  lemma AddHashParamAfterHash()
    ensures AddHashParam(Some("a#"), "k", "v") == Some("a#/k=v")
  {
    EncodeV();
    assert IndexOf("a#", '#') == 1;
    assert Param("k", "v") == "k=v";
    assert "a#" + "/" + "k=v" == "a#/k=v";
  }

  // ---------------------------------------------------------------------------
  // Setting a parameter

  /**
   * When the key is not found, SetParam appends `key=value`: after the start
   * marker if the url has none, otherwise after a separator.
   */
  lemma SetParamAppends(u: string, key: string, e: string, start: char, sep: char)
    requires |u| > 0
    requires KeyPos(u, key, start, sep) == -1
    ensures SetEncoded(Some(u), key, e, start, sep) == Some(u + [if start in u then sep else start] + Param(key, e))
  {
    IndexOfFirst(u, start);
  }

  /** SetQueryParam on a url without `?` starts a query string. */
  lemma SetQueryParamNoQuery(u: string, key: string, val: string)
    requires |u| > 0 && '?' !in u
    ensures SetQueryParam(Some(u), key, val) == Some(u + "?" + key + "=" + ParamValue(val, true))
  {
    IndexOfFirst(u, '?');
    SetParamAppends(u, key, ParamValue(val, true), '?', '&');
    assert u + ['?'] + Param(key, ParamValue(val, true)) == u + "?" + key + "=" + ParamValue(val, true);
  }

  /** Where the key was found: right after the start marker or after a separator. */
  lemma KeyFound(u: string, key: string, start: char, sep: char)
    requires KeyPos(u, key, start, sep) != -1
    ensures var existing := KeyPos(u, key, start, sep);
      && u[existing] in {start, sep}
      && u[existing + 1..existing + 1 + |key|] == key
  {
    var pos := IndexOf(u, start);
    var existing := ExistingKeyPos(u, key, pos, sep);
    if pos + 1 == IndexOfFrom(u, key, pos) {
      assert OccursAt(u, key, pos + 1);
    } else {
      var sk := [sep] + key;
      assert u[existing..existing + |sk|] == sk;
      assert u[existing] == sk[0];
      assert u[existing + 1..existing + 1 + |key|] == sk[1..];
    }
  }

  /** With a separator-free key, the old value runs from after the key to the next separator. */
  lemma OldValue(u: string, key: string, start: char, sep: char)
    requires KeyPos(u, key, start, sep) != -1 && sep !in key
    ensures var existing := KeyPos(u, key, start, sep);
      var k := existing + |key| + 1;
      var endPos := ParamEnd(u, sep, existing);
      && (endPos == |u| || u[endPos] == sep)
      && k <= endPos && sep !in u[k..endPos]
  {
    var existing := KeyPos(u, key, start, sep);
    var k := existing + |key| + 1;
    var endPos := ParamEnd(u, sep, existing);
    KeyFound(u, key, start, sep);
    IndexOfCharFromFirst(u, sep, existing + 1);
    TailFree(u[..k], existing + 1, key, sep);
    assert forall i :: 0 <= i < endPos - k ==> u[k..endPos][i] == u[k + i];
  }

  /**
   * When the key is found at `existing`, everything up to and including the
   * key is kept, everything from the next separator on is kept, and what lay
   * between them, the old value, becomes `=` and the encoded value. For a
   * key without separators the old value holds none either.
   */
  lemma SetParamReplaces(u: string, key: string, val: string, start: char, sep: char)
    requires |u| > 0 && KeyPos(u, key, start, sep) != -1
    ensures var existing := KeyPos(u, key, start, sep);
      var k := existing + |key| + 1;
      var endPos := ParamEnd(u, sep, existing);
      var r := SetParam(Some(u), key, val, start, sep).value;
      && r == u[..k] + "=" + ParamValue(val, true) + u[endPos..]
      && OccursAt(u, key, k - |key|)
      && u[k - |key| - 1] in {start, sep}
      && (endPos == |u| || u[endPos] == sep)
      && (sep !in key ==> k <= endPos && sep !in u[k..endPos])
  {
    KeyFound(u, key, start, sep);
    var existing := KeyPos(u, key, start, sep);
    var endPos := ParamEnd(u, sep, existing);
    SetEncodedFound(u, key, ParamValue(val, true), start, sep, existing);
    assert endPos < |u| ==> u[endPos] == sep;
    if sep !in key {
      OldValue(u, key, start, sep);
    }
  }

  /** "v" is written as itself. */
  lemma EncodeV()
    ensures ParamValue("v", true) == "v"
  {
    assert Utf8("v") == [118];
    assert UrlEncoding.EncodeBytes([118], false) == UrlEncoding.EncodeByte(118, false) + UrlEncoding.EncodeBytes([], false);
  }

  /** Matching is by prefix: setting `a` in "x?ab=1" rewrites the `ab` parameter to "x?a=v". */
  lemma SetQueryParamPrefixKey()
    ensures SetQueryParam(Some("x?ab=1"), "a", "v") == Some("x?a=v")
  {
    var u := "x?ab=1";
    EncodeV();
    assert IndexOf(u, '?') == 1;
    IndexOfFromAt(u, "a", 1, 2);
    assert KeyPos(u, "a", '?', '&') == 1;
    assert ParamEnd(u, '&', 1) == 6;
    assert u[..3] + "=" + "v" + u[6..] == "x?a=v";
  }

  // ---------------------------------------------------------------------------
  // Setting a parameter twice

  /** What SetParamIdempotent needs of the markers, the key and the encoded value `e`. */
  predicate Separable(key: string, e: string, start: char, sep: char)
  {
    && |key| > 0 && start != sep && start != '=' && sep != '='
    && start !in key && sep !in key && start !in e && sep !in e
  }

  /**
   * In `h + [c] + key=e` the key is found again after `c`, and no separator
   * follows it.
   */
  lemma AppendedFoundAgain(h: string, c: char, key: string, e: string, start: char, sep: char)
    requires Separable(key, e, start, sep)
    ensures var r := h + [c] + Param(key, e);
      && OccursAt(r, key, |h| + 1)
      && IndexOfCharFrom(r, sep, |h| + 1) == -1
  {
    AppendedTail(h, c, Param(key, e));
    ParamAt(h + [c] + Param(key, e), |h| + 1, key, e, sep);
  }

  /** What follows `h + [c]` is the appended text. */
  lemma AppendedTail(h: string, c: char, p: string)
    ensures (h + [c] + p)[|h| + 1..] == p
  {
  }

  /** A text ending in the parameter `key=e` at `n`: the key occurs at `n` and no `sep` follows. */
  lemma ParamAt(r: string, n: nat, key: string, e: string, sep: char)
    requires n <= |r| && r[n..] == Param(key, e) && sep !in key && sep != '=' && sep !in e
    ensures OccursAt(r, key, n)
    ensures IndexOfCharFrom(r, sep, n) == -1
  {
    var p := Param(key, e);
    assert sep !in p;
    assert r[n..n + |key|] == p[..|key|];
    TailFree(r, n, p, sep);
  }

  /** First case: no start marker, so the first call appended it with the parameter. */
  lemma IdempotentNewQuery(u: string, key: string, e: string, start: char, sep: char)
    requires |u| > 0 && IndexOf(u, start) == -1
    requires Separable(key, e, start, sep)
    ensures var r := SetEncoded(Some(u), key, e, start, sep).value;
      SetEncoded(Some(r), key, e, start, sep) == Some(r)
  {
    SetParamAppends(u, key, e, start, sep);
    var r := u + [start] + Param(key, e);
    assert SetEncoded(Some(u), key, e, start, sep).value == r;
    var m := |u|;
    assert r[m] == start;
    assert r[..m] == u;
    IndexOfFirst(u, start);
    IndexOfUnique(r, start, m);
    AppendedFoundAgain(u, start, key, e, start, sep);
    assert !OccursAt(r, key, m) by {
      assert r[m] != key[0];
    }
    IndexOfFromAt(r, key, m, m + 1);
    assert KeyPos(r, key, start, sep) == m;
    assert ParamEnd(r, sep, m) == |r|;
    assert r[..m + |key| + 1] + "=" + e + r[|r|..] == r;
  }

  /** In `u + [sep] + ...`, a sep-free key cannot occur across the end of `u`. */
  lemma KeyNotAcrossEnd(u: string, r: string, key: string, q: nat, sep: char)
    requires |u| < |r| && r[|u|] == sep && sep !in key
    requires q <= |u| < q + |key|
    ensures !OccursAt(r, key, q)
  {
  }

  /** The key does not follow the marker in `r` either, if it did not in `u`. */
  lemma StillNotAfterMarker(u: string, r: string, key: string, pos: nat, sep: char)
    requires pos < |u| < |r| && r[..|u|] == u && r[|u|] == sep && sep !in key
    requires |key| > 0 && u[pos] !in key
    requires IndexOfFrom(u, key, pos) != pos + 1
    ensures IndexOfFrom(r, key, pos) != pos + 1
  {
    var m := |u|;
    if pos + 1 + |key| > m {
      KeyNotAcrossEnd(u, r, key, pos + 1, sep);
    } else {
      OccursAtAgree(u, r, m, key, pos + 1);
      assert !OccursAt(u, key, pos) by {
        assert u[pos] != key[0];
      }
    }
  }

  /** The separated key occurs first at the separator appended at `|u|`. */
  lemma SeparatedKeyAppended(u: string, r: string, key: string, pos: nat, sep: char)
    requires pos < |u| && |u| + 1 + |key| <= |r| && r[..|u|] == u && r[|u|] == sep && sep !in key
    requires r[|u| + 1..|u| + 1 + |key|] == key
    requires IndexOfFrom(u, [sep] + key, pos) == -1
    ensures IndexOfFrom(r, [sep] + key, pos) == |u|
  {
    var m := |u|;
    var sk := [sep] + key;
    assert r[m..m + |sk|] == sk;
    IndexOfFromFirst(u, sk, pos);
    forall q | pos <= q < m ensures !OccursAt(r, sk, q) {
      if q + |sk| <= m {
        OccursAtAgree(u, r, m, sk, q);
      } else {
        KeyNotAcrossEnd(u, r, key, q + 1, sep);
      }
    }
    IndexOfFromAt(r, sk, pos, m);
  }

  /** SetParam on a url where the key is found at `existing`. */
  lemma SetEncodedFound(u: string, key: string, e: string, start: char, sep: char, existing: nat)
    requires |u| > 0 && KeyPos(u, key, start, sep) == existing
    ensures SetEncoded(Some(u), key, e, start, sep)
      == Some(u[..existing + |key| + 1] + "=" + e + u[ParamEnd(u, sep, existing)..])
  {
  }

  /** Cutting an appended parameter after its key and putting `=` and the value back gives the same text. */
  lemma Reassemble(h: string, c: char, key: string, e: string)
    ensures var r := h + [c] + Param(key, e);
      r[..|h| + |key| + 1] + "=" + e + r[|r|..] == r
  {
    var r := h + [c] + Param(key, e);
    assert r[..|h| + |key| + 1] == h + [c] + key;
    assert r[|r|..] == [];
  }

  /** In the url with a separator and the parameter appended, the key is found at that separator. */
  lemma NewParamFound(u: string, key: string, e: string, start: char, sep: char)
    requires |u| > 0 && IndexOf(u, start) != -1
    requires KeyPos(u, key, start, sep) == -1
    requires Separable(key, e, start, sep)
    ensures var r := u + [sep] + Param(key, e);
      KeyPos(r, key, start, sep) == |u| && ParamEnd(r, sep, |u|) == |r|
  {
    var pos := IndexOf(u, start);
    var r := u + [sep] + Param(key, e);
    var m := |u|;
    assert r[..m] == u && r[m] == sep;
    IndexOfFirst(u, start);
    IndexOfUnique(r, start, pos);
    AppendedFoundAgain(u, sep, key, e, start, sep);
    StillNotAfterMarker(u, r, key, pos, sep);
    SeparatedKeyAppended(u, r, key, pos, sep);
  }

  /** Second case: a start marker but no key, so the first call appended a separator and the parameter. */
  lemma IdempotentNewParam(u: string, key: string, e: string, start: char, sep: char)
    requires |u| > 0 && IndexOf(u, start) != -1
    requires KeyPos(u, key, start, sep) == -1
    requires Separable(key, e, start, sep)
    ensures var r := SetEncoded(Some(u), key, e, start, sep).value;
      SetEncoded(Some(r), key, e, start, sep) == Some(r)
  {
    SetParamAppends(u, key, e, start, sep);
    var r := u + [sep] + Param(key, e);
    assert SetEncoded(Some(u), key, e, start, sep).value == r;
    NewParamFound(u, key, e, start, sep);
    SetEncodedFound(r, key, e, start, sep, |u|);
    Reassemble(u, sep, key, e);
  }

  /** With the text up to `k` unchanged, the key search from `pos` gives the same answer. */
  lemma SameKeyPos(u: string, r: string, key: string, pos: nat, sep: char, k: nat)
    requires pos < |u| && pos < |r| && u[pos] !in key && u[pos] != sep && sep !in key && |key| > 0
    requires ExistingKeyPos(u, key, pos, sep) != -1
    requires k == ExistingKeyPos(u, key, pos, sep) + |key| + 1
    requires k <= |r| && r[..k] == u[..k]
    ensures ExistingKeyPos(r, key, pos, sep) == ExistingKeyPos(u, key, pos, sep)
  {
    var existing := ExistingKeyPos(u, key, pos, sep);
    assert r[pos] == u[pos] by {
      assert r[..k][pos] == u[..k][pos];
    }
    assert !OccursAt(u, key, pos) && !OccursAt(r, key, pos) by {
      assert u[pos] != key[0];
    }
    if existing == pos {
      OccursAtAgree(u, r, k, key, pos + 1);
      IndexOfFromAt(r, key, pos, pos + 1);
    } else {
      SameSeparatedKeyPos(u, r, key, pos, sep, k);
    }
  }

  /** The second branch of SameKeyPos: the key was found after a separator. */
  lemma SameSeparatedKeyPos(u: string, r: string, key: string, pos: nat, sep: char, k: nat)
    requires pos < |u| && pos < |r| && u[pos] != sep && sep !in key && |key| > 0
    requires !OccursAt(u, key, pos) && !OccursAt(r, key, pos)
    requires IndexOfFrom(u, key, pos) != pos + 1
    requires IndexOfFrom(u, [sep] + key, pos) != -1
    requires k == IndexOfFrom(u, [sep] + key, pos) + |key| + 1
    requires k <= |r| && r[..k] == u[..k]
    ensures IndexOfFrom(r, key, pos) != pos + 1
    ensures IndexOfFrom(r, [sep] + key, pos) == IndexOfFrom(u, [sep] + key, pos)
  {
    var sk := [sep] + key;
    var existing := IndexOfFrom(u, sk, pos);
    assert u[existing] == sk[0];
    assert existing > pos;
    OccursAtAgree(u, r, k, key, pos + 1);
    IndexOfFromFirst(u, sk, pos);
    forall q | pos <= q < existing ensures !OccursAt(r, sk, q) {
      OccursAtAgree(u, r, k, sk, q);
    }
    OccursAtAgree(u, r, k, sk, existing);
    IndexOfFromAt(r, sk, pos, existing);
  }

  /** After the rewrite the next separator is the one that ended the old value, or there is none. */
  lemma ValueEnd(u: string, r: string, key: string, e: string, start: char, sep: char, existing: nat, endPos: nat)
    requires Separable(key, e, start, sep)
    requires existing + |key| + 1 <= endPos <= |u|
    requires endPos == |u| || u[endPos] == sep
    requires r == u[..existing + |key| + 1] + "=" + e + u[endPos..]
    requires u[existing + 1..existing + |key| + 1] == key
    ensures existing < |r| && ParamEnd(r, sep, existing) == existing + |key| + 2 + |e|
  {
    var k := existing + |key| + 1;
    var p := key + "=" + e;
    assert r[existing + 1..k + 1 + |e|] == p;
    assert sep !in p;
    TailFree(r[..k + 1 + |e|], existing + 1, p, sep);
    if endPos < |u| {
      assert r[k + 1 + |e|] == u[endPos];
      IndexOfCharFromAt(r, sep, existing + 1, k + 1 + |e|);
    } else {
      assert |r| == k + 1 + |e|;
    }
  }

  /** In the url after a replacement, the key is found where it was. */
  lemma ReplacedKeyPos(u: string, r: string, key: string, e: string, start: char, sep: char)
    requires |u| > 0
    requires KeyPos(u, key, start, sep) != -1
    requires Separable(key, e, start, sep)
    requires r == Rewritten(u, key, e, sep, KeyPos(u, key, start, sep))
    ensures KeyPos(r, key, start, sep) == KeyPos(u, key, start, sep)
  {
    var pos := IndexOf(u, start);
    var existing := KeyPos(u, key, start, sep);
    var k := existing + |key| + 1;
    KeyFound(u, key, start, sep);
    assert r == u[..k] + "=" + e + u[ParamEnd(u, sep, existing)..];
    assert r[..k] == u[..k];
    // The marker is where it was.
    IndexOfFirst(u, start);
    assert r[pos] == u[pos];
    IndexOfUnique(r, start, pos);
    SameKeyPos(u, r, key, pos, sep, k);
  }

  /** In the url after a replacement, `=` and the new value follow the key, up to the separator that ended the old value. */
  lemma ReplacedValueEnd(u: string, r: string, key: string, e: string, start: char, sep: char)
    requires |u| > 0
    requires KeyPos(u, key, start, sep) != -1
    requires Separable(key, e, start, sep)
    requires r == Rewritten(u, key, e, sep, KeyPos(u, key, start, sep))
    ensures var existing := KeyPos(u, key, start, sep);
      && existing < |r| && ParamEnd(r, sep, existing) == existing + |key| + 2 + |e|
      && r[existing + |key| + 1..existing + |key| + 2 + |e|] == "=" + e
  {
    var existing := KeyPos(u, key, start, sep);
    var pre := u[..existing + |key| + 1];
    var post := u[ParamEnd(u, sep, existing)..];
    KeyFound(u, key, start, sep);
    OldValue(u, key, start, sep);
    assert r == pre + "=" + e + post;
    ValueEnd(u, r, key, e, start, sep, existing, ParamEnd(u, sep, existing));
    ReplacedValue(pre, e, post);
  }

  /** Where `=` and the new value sit in the url after a replacement. */
  lemma ReplacedValue(pre: string, e: string, post: string)
    ensures (pre + "=" + e + post)[|pre|..|pre| + 1 + |e|] == "=" + e
  {
  }

  /**
   * A url in which the key is found at `existing` and whose value there is
   * already `e` is left as it is.
   */
  lemma FoundWithValue(r: string, key: string, e: string, start: char, sep: char, existing: nat)
    requires |r| > 0 && KeyPos(r, key, start, sep) == existing
    requires ParamEnd(r, sep, existing) == existing + |key| + 2 + |e|
    requires r[existing + |key| + 1..existing + |key| + 2 + |e|] == "=" + e
    ensures SetEncoded(Some(r), key, e, start, sep) == Some(r)
  {
    var k := existing + |key| + 1;
    SetEncodedFound(r, key, e, start, sep, existing);
    assert r[..k] + "=" + e == r[..k] + r[k..k + 1 + |e|];
    assert r[..k] + r[k..k + 1 + |e|] == r[..k + 1 + |e|];
    assert r[..k + 1 + |e|] + r[k + 1 + |e|..] == r;
  }

  /** Third case: the key was found, so the first call rewrote its value. */
  lemma IdempotentReplaced(u: string, key: string, e: string, start: char, sep: char)
    requires |u| > 0
    requires KeyPos(u, key, start, sep) != -1
    requires Separable(key, e, start, sep)
    ensures var r := SetEncoded(Some(u), key, e, start, sep).value;
      SetEncoded(Some(r), key, e, start, sep) == Some(r)
  {
    var existing := KeyPos(u, key, start, sep);
    var r := Rewritten(u, key, e, sep, existing);
    assert SetEncoded(Some(u), key, e, start, sep) == Some(r);
    ReplacedKeyPos(u, r, key, e, start, sep);
    ReplacedValueEnd(u, r, key, e, start, sep);
    FoundWithValue(r, key, e, start, sep, existing);
  }

  /**
   * Setting the same parameter twice is setting it once, for a non-empty key
   * and a value free of the marker and the separator.
   */
  lemma SetEncodedIdempotent(url: Option<string>, key: string, e: string, start: char, sep: char)
    requires Separable(key, e, start, sep)
    ensures var r := SetEncoded(url, key, e, start, sep);
      SetEncoded(r, key, e, start, sep) == r
  {
    if !Missing(url) {
      var u := url.value;
      if IndexOf(u, start) == -1 {
        IdempotentNewQuery(u, key, e, start, sep);
      } else if KeyPos(u, key, start, sep) == -1 {
        IdempotentNewParam(u, key, e, start, sep);
      } else {
        IdempotentReplaced(u, key, e, start, sep);
      }
    }
  }

  /** SetQueryParam twice with a non-empty key free of `?` and `&` is SetQueryParam once. */
  lemma SetQueryParamIdempotent(url: Option<string>, key: string, val: string)
    requires |key| > 0 && '?' !in key && '&' !in key
    ensures SetQueryParam(SetQueryParam(url, key, val), key, val) == SetQueryParam(url, key, val)
  {
    ParamValueFree(val);
    SetEncodedIdempotent(url, key, ParamValue(val, true), '?', '&');
  }

  /** SetHashParam twice with a non-empty key free of `#` and `/` is SetHashParam once. */
  lemma SetHashParamIdempotent(url: Option<string>, key: string, val: string)
    requires |key| > 0 && '#' !in key && '/' !in key
    ensures SetHashParam(SetHashParam(url, key, val), key, val) == SetHashParam(url, key, val)
  {
    ParamValueFree(val);
    SetEncodedIdempotent(url, key, ParamValue(val, true), '#', '/');
  }
}
