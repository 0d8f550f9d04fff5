/**
 * The flat wildcard matcher of StringExtensions: Glob, where `*` matches any
 * run of characters and `?` one position, letters compared
 * case-insensitively, and Matches, its alias. GlobPath builds on it.
 */
module Glob {

  import opened Wrappers
  import opened Text


  // ---------------------------------------------------------------------------
  // Glob as the source computes it

  /**
   * One call of Glob(value, pattern) from pattern position `pos` onwards. The
   * value is indexed by the same `pos`: `?` advances without looking at the
   * value, so a later literal may index past its end, which throws.
   */
  function Scan(value: string, pattern: string, pos: nat): (r: Result<bool>)
    requires pos <= |pattern|
    ensures r.Error? ==> r.failure == IndexOutOfRange
    decreases |pattern| - pos, 1, 0
  {
    if pos == |pattern| then Ok(|value| == pos)
    else if pattern[pos] == '?' then Scan(value, pattern, pos + 1)
    else if pattern[pos] == '*' then Star(value, pattern[pos + 1..], pos, |value|)
    else if |value| == pos then Ok(false)
    else if |value| < pos then Error(IndexOutOfRange)
    else if ToUpper(pattern[pos]) != ToUpper(value[pos]) then Ok(false)
    else Scan(value, pattern, pos + 1)
  }

  /**
   * The `*` branch: the rest of the pattern is tried on value[i..] for i from
   * the current candidate down to `pos`; the first success or exception wins.
   */
  function Star(value: string, rest: string, pos: nat, i: int): (r: Result<bool>)
    requires -1 <= i <= |value|
    ensures r.Error? ==> r.failure == IndexOutOfRange
    decreases |rest| + 1, 0, i + 1
  {
    if i < pos then Ok(false)
    else
      var r := Scan(value[i..], rest, 0);
      if r.Error? || r.value then r else Star(value, rest, pos, i - 1)
  }

  /** Glob(value, pattern): the only exception it can raise is IndexOutOfRange. */
  function GlobSpec(value: string, pattern: string): (r: Result<bool>)
    ensures r.Error? ==> r.failure == IndexOutOfRange
  {
    Scan(value, pattern, 0)
  }

  /** StringExtensions.Glob: the loop over `pos`, recursing in the `*` branch. */
  method Glob(value: string, pattern: string) returns (r: Result<bool>)
    ensures r == GlobSpec(value, pattern)
    decreases |pattern|
  {
    var pos := 0;
    while pos != |pattern|
      invariant 0 <= pos <= |pattern|
      invariant Scan(value, pattern, pos) == GlobSpec(value, pattern)
    {
      var c := pattern[pos];
      if c == '*' {
        var i := |value|;
        while i >= pos
          invariant -1 <= i <= |value|
          invariant Star(value, pattern[pos + 1..], pos, i) == GlobSpec(value, pattern)
        {
          var sub := Glob(value[i..], pattern[pos + 1..]);
          if sub.Error? || sub.value {
            return sub;
          }
          i := i - 1;
        }
        return Ok(false);
      } else if c != '?' {
        if |value| == pos {
          return Ok(false);
        } else if |value| < pos {
          return Error(IndexOutOfRange);
        } else if ToUpper(c) != ToUpper(value[pos]) {
          return Ok(false);
        }
      }
      pos := pos + 1;
    }
    return Ok(|value| == pos);
  }

  /** StringExtensions.Matches: an alias of Glob. */
  method Matches(value: string, pattern: string) returns (r: Result<bool>)
    ensures r == GlobSpec(value, pattern)
  {
    r := Glob(value, pattern);
  }

  // ---------------------------------------------------------------------------
  // What a wildcard pattern means

  /**
   * The textbook meaning of a wildcard pattern: `*` stands for any run of
   * characters, `?` for exactly one, and any other character for one
   * character equal to it up to ToUpper.
   */
  predicate Wild(v: string, p: string)
    decreases |p|, |v|
  {
    if p == [] then v == []
    else if p[0] == '*' then Wild(v, p[1..]) || (v != [] && Wild(v[1..], p))
    else v != [] && (p[0] == '?' || ToUpper(p[0]) == ToUpper(v[0])) && Wild(v[1..], p[1..])
  }

  /** A leading `*` matches when the rest matches some suffix. */
  lemma {:induction false} WildStar(v: string, rest: string, pos: nat)
    requires pos <= |v|
    ensures Wild(v[pos..], ['*'] + rest) <==> exists k :: pos <= k <= |v| && Wild(v[k..], rest)
    decreases |v| - pos
  {
    var p := ['*'] + rest;
    assert p[0] == '*' && p[1..] == rest;
    if pos < |v| {
      WildStar(v, rest, pos + 1);
      assert v[pos..][1..] == v[pos + 1..];
      if Wild(v[pos..], p) && !Wild(v[pos..], rest) {
        assert Wild(v[pos + 1..], p);
      }
    }
  }

  /** When the source's Glob returns, it returns what the pattern means. */
  lemma {:induction false} ScanSound(v: string, p: string, pos: nat)
    requires pos <= |p|
    ensures Scan(v, p, pos).Ok? && pos <= |v| ==> Scan(v, p, pos).value == Wild(v[pos..], p[pos..])
    ensures pos > |v| ==> Scan(v, p, pos) != Ok(true)
    decreases |p| - pos, 1, 0
  {
    if pos == |p| {
    } else if p[pos] == '?' || (p[pos] != '*' && pos < |v| && ToUpper(p[pos]) == ToUpper(v[pos])) {
      ScanSound(v, p, pos + 1);
      assert p[pos..][1..] == p[pos + 1..];
      if pos < |v| {
        assert v[pos..][1..] == v[pos + 1..];
      }
    } else if p[pos] == '*' {
      if pos <= |v| {
        StarSound(v, p[pos + 1..], pos, |v|);
        WildStar(v, p[pos + 1..], pos);
        assert p[pos..] == ['*'] + p[pos + 1..];
      }
    }
  }

  lemma {:induction false} StarSound(v: string, rest: string, pos: nat, i: int)
    requires -1 <= i <= |v|
    ensures Star(v, rest, pos, i).Ok? ==>
      (Star(v, rest, pos, i).value <==> exists k :: pos <= k <= i && Wild(v[k..], rest))
    decreases |rest| + 1, 0, i + 1
  {
    if i >= pos {
      ScanSound(v[i..], rest, 0);
      assert v[i..][0..] == v[i..] && rest[0..] == rest;
      StarSound(v, rest, pos, i - 1);
    }
  }

  /** Whenever Glob returns a verdict, it is the meaning of the pattern. */
  lemma GlobSound(value: string, pattern: string)
    ensures GlobSpec(value, pattern).Ok? ==> GlobSpec(value, pattern).value == Wild(value, pattern)
  {
    ScanSound(value, pattern, 0);
    assert value[0..] == value && pattern[0..] == pattern;
  }

  // ---------------------------------------------------------------------------
  // When Glob throws

  /** No `?` is immediately followed by a literal character. */
  predicate QuestionsGuarded(p: string)
  {
    forall j :: 0 <= j < |p| - 1 && p[j] == '?' ==> p[j + 1] == '?' || p[j + 1] == '*'
  }

  lemma {:induction false} ScanNoThrow(v: string, p: string, pos: nat)
    requires pos <= |p| && QuestionsGuarded(p)
    requires pos > |v| ==> pos > 0 && p[pos - 1] == '?'
    ensures Scan(v, p, pos).Ok?
    decreases |p| - pos, 1, 0
  {
    if pos == |p| {
    } else if p[pos] == '*' {
      var rest := p[pos + 1..];
      assert QuestionsGuarded(rest) by {
        forall j | 0 <= j < |rest| - 1 && rest[j] == '?' ensures rest[j + 1] == '?' || rest[j + 1] == '*' {
          assert rest[j] == p[pos + 1 + j] && rest[j + 1] == p[pos + 2 + j];
        }
      }
      StarNoThrow(v, rest, pos, |v|);
    } else if p[pos] == '?' || (pos < |v| && ToUpper(p[pos]) == ToUpper(v[pos])) {
      ScanNoThrow(v, p, pos + 1);
    }
  }

  lemma {:induction false} StarNoThrow(v: string, rest: string, pos: nat, i: int)
    requires -1 <= i <= |v| && QuestionsGuarded(rest)
    ensures Star(v, rest, pos, i).Ok?
    decreases |rest| + 1, 0, i + 1
  {
    if i >= pos {
      ScanNoThrow(v[i..], rest, 0);
      StarNoThrow(v, rest, pos, i - 1);
    }
  }

  /**
   * An IndexOutOfRangeException needs a `?` directly followed by a literal;
   * without one, Glob always returns the meaning of the pattern.
   */
  lemma GlobTotal(value: string, pattern: string)
    requires QuestionsGuarded(pattern)
    ensures GlobSpec(value, pattern) == Ok(Wild(value, pattern))
  {
    ScanNoThrow(value, pattern, 0);
    GlobSound(value, pattern);
  }

  /** `?` against an exhausted value is a plain mismatch. */
  lemma QuestionPastEnd()
    ensures GlobSpec("", "?") == Ok(false)
  {
  }

  /** A literal after `?` past the end of the value throws. */
  lemma LiteralPastEndThrows()
    ensures GlobSpec("x", "??a") == Error(IndexOutOfRange)
  {
  }

  /**
   * The backward suffix scan of `*` tries the empty suffix first, so "ab"
   * against "*?b" throws although the pattern matches it.
   */
  lemma StarScanThrowsBeforeMatch()
    ensures Wild("ab", "*?b")
    ensures GlobSpec("ab", "*?b") == Error(IndexOutOfRange)
  {
    assert Scan("ab"[2..], "?b", 0) == Error(IndexOutOfRange) by {
      assert "ab"[2..] == "";
      assert Scan("", "?b", 1) == Error(IndexOutOfRange);
    }
    assert Wild("ab", "?b") by {
      assert "?b"[1..] == "b" && "ab"[1..] == "b";
      assert Wild("b"[1..], "b"[1..]);
    }
    assert "*?b"[1..] == "?b";
  }

  // ---------------------------------------------------------------------------
  // Patterns without wildcards, and case

  predicate NoWildcards(p: string)
  {
    '*' !in p && '?' !in p
  }

  lemma {:induction false} ScanLiteral(v: string, p: string, pos: nat)
    requires pos <= |p| && pos <= |v| && NoWildcards(p)
    ensures Scan(v, p, pos) == Ok(|v| == |p| && forall i :: pos <= i < |p| ==> ToUpper(v[i]) == ToUpper(p[i]))
    decreases |p| - pos
  {
    if pos < |p| && pos < |v| {
      assert p[pos] in p;
      ScanLiteral(v, p, pos + 1);
    } else if pos < |p| {
      assert p[pos] in p;
    }
  }

  /**
   * A pattern without `*` and `?` matches exactly the values of its length
   * that agree with it character by character up to ToUpper.
   */
  lemma GlobLiteral(value: string, pattern: string)
    requires NoWildcards(pattern)
    ensures GlobSpec(value, pattern) ==
      Ok(|value| == |pattern| && forall i :: 0 <= i < |pattern| ==> ToUpper(value[i]) == ToUpper(pattern[i]))
  {
    ScanLiteral(value, pattern, 0);
  }

  lemma {:induction false} ScanSelf(s: string, pos: nat)
    requires pos <= |s| && '*' !in s
    ensures Scan(s, s, pos) == Ok(true)
    decreases |s| - pos
  {
    if pos < |s| {
      assert s[pos] in s;
      ScanSelf(s, pos + 1);
    }
  }

  /** A pattern without `*` matches itself; with `*` it may throw instead. */
  lemma GlobSelf(s: string)
    ensures '*' !in s ==> GlobSpec(s, s) == Ok(true)
    ensures GlobSpec("*?a", "*?a") == Error(IndexOutOfRange)
  {
    if '*' !in s {
      ScanSelf(s, 0);
    }
    assert "*?a"[1..] == "?a";
    assert Scan("*?a"[3..], "?a", 0) == Error(IndexOutOfRange) by {
      assert "*?a"[3..] == "";
      assert Scan("", "?a", 1) == Error(IndexOutOfRange);
    }
  }

  lemma ToUpperIdempotent(c: char)
    ensures ToUpper(ToUpper(c)) == ToUpper(c)
    ensures ToUpper(c) == '?' <==> c == '?'
    ensures ToUpper(c) == '*' <==> c == '*'
  {
  }

  lemma {:induction false} ScanCaseBlind(v1: string, v2: string, p1: string, p2: string, pos: nat)
    requires UpperStr(v1) == UpperStr(v2) && UpperStr(p1) == UpperStr(p2) && pos <= |p1|
    ensures Scan(v1, p1, pos) == Scan(v2, p2, pos)
    decreases |p1| - pos, 1, 0
  {
    assert |v1| == |UpperStr(v1)| == |v2| && |p1| == |UpperStr(p1)| == |p2|;
    if pos < |p1| {
      assert ToUpper(p1[pos]) == ToUpper(p2[pos]);
      ToUpperIdempotent(p1[pos]);
      ToUpperIdempotent(p2[pos]);
      if pos < |v1| {
        assert ToUpper(v1[pos]) == ToUpper(v2[pos]);
      }
      if p1[pos] == '*' {
        UpperStrSuffix(p1, pos + 1);
        UpperStrSuffix(p2, pos + 1);
        StarCaseBlind(v1, v2, p1[pos + 1..], p2[pos + 1..], pos, |v1|);
      } else {
        ScanCaseBlind(v1, v2, p1, p2, pos + 1);
      }
    }
  }

  lemma {:induction false} StarCaseBlind(v1: string, v2: string, r1: string, r2: string, pos: nat, i: int)
    requires UpperStr(v1) == UpperStr(v2) && UpperStr(r1) == UpperStr(r2)
    requires -1 <= i <= |v1|
    ensures |v1| == |v2| && Star(v1, r1, pos, i) == Star(v2, r2, pos, i)
    decreases |r1| + 1, 0, i + 1
  {
    assert |v1| == |UpperStr(v1)| == |v2|;
    if i >= pos {
      UpperStrSuffix(v1, i);
      UpperStrSuffix(v2, i);
      ScanCaseBlind(v1[i..], v2[i..], r1, r2, 0);
      StarCaseBlind(v1, v2, r1, r2, pos, i - 1);
    }
  }

  lemma UpperStrIdempotent(s: string)
    ensures UpperStr(UpperStr(s)) == UpperStr(s)
  {
    forall i | 0 <= i < |s| ensures UpperStr(UpperStr(s))[i] == UpperStr(s)[i] {
      ToUpperIdempotent(s[i]);
    }
  }

  /** Glob compares case-insensitively: upper-casing the value or the pattern changes nothing. */
  lemma GlobCaseInsensitive(value: string, pattern: string)
    ensures GlobSpec(UpperStr(value), pattern) == GlobSpec(value, pattern)
    ensures GlobSpec(value, UpperStr(pattern)) == GlobSpec(value, pattern)
  {
    UpperStrIdempotent(value);
    UpperStrIdempotent(pattern);
    ScanCaseBlind(UpperStr(value), value, pattern, pattern, 0);
    ScanCaseBlind(value, value, UpperStr(pattern), pattern, 0);
  }
}
