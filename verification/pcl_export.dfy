/** The platform constants and the title-casing helper of PclExport. */
module PclExport {

  import opened Text

  /** The directory separators. */
  const DirSep: char := '\\'
  const AltDirSep: char := '/'
  const DirSeps: seq<char> := ['\\', '/']

  /** Every word title-cased, in order. */
  function TitleWords(ws: seq<string>): (r: seq<string>)
    ensures |r| == |ws|
  {
    if ws == [] then [] else [TitleWord(ws[0])] + TitleWords(ws[1..])
  }

  lemma {:induction false} TitleWordsAt(ws: seq<string>, k: nat)
    requires k < |ws|
    ensures TitleWords(ws)[k] == TitleWord(ws[k])
    decreases k
  {
    if k > 0 {
      TitleWordsAt(ws[1..], k - 1);
    }
  }

  /** `s[from..end]`, lower-cased. */
  function LowerSpan(s: string, from: nat, end: nat): (r: string)
    requires from <= end <= |s|
    ensures |r| == end - from
    decreases end
  {
    if end == from then [] else LowerSpan(s, from, end - 1) + [ToLower(s[end - 1])]
  }

  lemma {:induction false} LowerSpanAt(s: string, from: nat, end: nat, k: nat)
    requires from <= end <= |s| && k < end - from
    ensures LowerSpan(s, from, end)[k] == ToLower(s[from + k])
    decreases end
  {
    if k < end - 1 - from {
      LowerSpanAt(s, from, end - 1, k);
    }
  }

  /** The word `s[from..end]`, title-cased, read off `s` in place. */
  function TitleSpan(s: string, from: nat, end: nat): (r: string)
    requires from <= end <= |s|
    ensures |r| == end - from
  {
    if from == end then [] else [ToUpper(s[from])] + LowerSpan(s, from + 1, end)
  }

  /** Position `k` of a title-cased word: upper-cased at 0, lower-cased after. */
  lemma TitleSpanAt(s: string, from: nat, end: nat, k: nat)
    requires from <= end <= |s| && k < end - from
    ensures TitleSpan(s, from, end)[k] == if k == 0 then ToUpper(s[from]) else ToLower(s[from + k])
  {
    var l := LowerSpan(s, from + 1, end);
    assert TitleSpan(s, from, end) == [ToUpper(s[from])] + l;
    if k > 0 {
      LowerSpanAt(s, from + 1, end, k - 1);
      assert ([ToUpper(s[from])] + l)[k] == l[k - 1];
    }
  }

  /** One `_`-separated word as ToTitleCase rewrites it: empty words stay empty. */
  function TitleWord(w: string): (r: string)
    ensures |r| == |w|
  {
    TitleSpan(w, 0, |w|)
  }

  /** A non-empty word: its first character upper-cased, the rest lower-cased. */
  lemma TitleWordCases(w: string)
    requires w != []
    ensures UpperStr(w[..1]) + LowerStr(w[1..]) == TitleWord(w)
  {
    var r := UpperStr(w[..1]) + LowerStr(w[1..]);
    forall k | 0 <= k < |w| ensures r[k] == TitleWord(w)[k] {
      TitleSpanAt(w, 0, |w|, k);
      if k > 0 {
        assert r[k] == LowerStr(w[1..])[k - 1];
      }
    }
  }

  /** Title-casing a word in place is title-casing the word cut out. */
  lemma TitleSpanWord(s: string, from: nat, end: nat)
    requires from <= end <= |s|
    ensures TitleSpan(s, from, end) == TitleWord(s[from..end])
  {
    var w := s[from..end];
    forall k | 0 <= k < end - from ensures TitleSpan(s, from, end)[k] == TitleWord(w)[k] {
      TitleSpanAt(s, from, end, k);
      TitleSpanAt(w, 0, |w|, k);
      assert w[k] == s[from + k];
    }
  }

  /**
   * The title-cased text, read directly off the string from `from` on: the
   * word up to the next `_`, title-cased, followed by the title-cased rest.
   */
  function TitleCaseFrom(value: string, from: nat): string
    requires from <= |value|
    decreases |value| - from
  {
    var i := IndexOfCharFrom(value, '_', from);
    if i == -1 then TitleSpan(value, from, |value|)
    else TitleSpan(value, from, i) + TitleCaseFrom(value, i + 1)
  }

  /** ToTitleCase's result: the `_` are dropped and every other character kept, recased. */
  function TitleCase(value: string): (r: string)
    ensures '_' !in r
    ensures |r| == |value| - CountFrom(value, '_', 0)
  {
    TitleCaseNoUnderscore(value, 0);
    TitleCaseLength(value, 0);
    TitleCaseFrom(value, 0)
  }

  /**
   * PclExport.ToTitleCase: splits on `_`, rewrites each non-empty word in place
   * to its first character upper-cased and the rest lower-cased, and joins the
   * words without a separator. Empty words are skipped: String.Split yields the
   * shared String.Empty instance for them, which the reference comparison
   * recognises.
   */
  method ToTitleCase(value: string) returns (r: string)
    ensures r == TitleCase(value)
  {
    var parts := Split(value, '_');
    var words := new string[|parts|](i requires 0 <= i < |parts| => parts[i]);
    var i := 0;
    while i <= words.Length - 1
      invariant 0 <= i <= words.Length
      invariant forall k :: 0 <= k < i ==> words[k] == TitleWord(parts[k])
      invariant forall k :: i <= k < words.Length ==> words[k] == parts[k]
    {
      if words[i] != [] {
        var firstLetter := words[i][..1];
        var rest := words[i][1..];
        var result := UpperStr(firstLetter) + LowerStr(rest);
        TitleWordCases(words[i]);
        words[i] := result;
      }
      i := i + 1;
    }
    assert words[..] == TitleWords(parts) by {
      forall k | 0 <= k < words.Length
        ensures words[k] == TitleWords(parts)[k]
      {
        TitleWordsAt(parts, k);
      }
    }
    r := Join(words[..], "");
    JoinTitleWordsSplit(value, 0);
  }

  /** Splitting on `_`, title-casing each word and joining with "" is TitleCase. */
  lemma {:induction false} JoinTitleWordsSplit(value: string, from: nat)
    requires from <= |value|
    ensures Join(TitleWords(SplitFrom(value, '_', from)), "") == TitleCaseFrom(value, from)
    decreases |value| - from
  {
    var i := IndexOfCharFrom(value, '_', from);
    if i == -1 {
      var w := value[from..];
      assert SplitFrom(value, '_', from) == [w];
      TitleSpanWord(value, from, |value|);
      assert value[from..|value|] == w;
      assert TitleWords([w]) == [TitleWord(w)] by {
        assert [w][1..] == [];
      }
    } else {
      var w := value[from..i];
      var rest := SplitFrom(value, '_', i + 1);
      assert SplitFrom(value, '_', from) == [w] + rest;
      var t := TitleCaseFrom(value, i + 1);
      JoinTitleWordsSplit(value, i + 1);
      TitleSpanWord(value, from, i);
      JoinTitleWordsCons(w, rest, t);
      assert TitleCaseFrom(value, from) == TitleSpan(value, from, i) + t;
    }
  }

  lemma JoinTitleWordsCons(w: string, ws: seq<string>, t: string)
    requires |ws| >= 1 && Join(TitleWords(ws), "") == t
    ensures Join(TitleWords([w] + ws), "") == TitleWord(w) + t
  {
    TitleWordsCons(w, ws);
    JoinCons(TitleWord(w), TitleWords(ws));
  }

  lemma TitleWordsCons(w: string, ws: seq<string>)
    ensures TitleWords([w] + ws) == [TitleWord(w)] + TitleWords(ws)
  {
    assert ([w] + ws)[1..] == ws;
  }

  lemma JoinCons(p: string, ps: seq<string>)
    requires |ps| >= 1
    ensures Join([p] + ps, "") == p + Join(ps, "")
  {
    assert ([p] + ps)[1..] == ps;
    assert p + "" == p;
  }

  /** The title-cased text holds no `_`. */
  lemma {:induction false} TitleCaseNoUnderscore(value: string, from: nat)
    requires from <= |value|
    ensures '_' !in TitleCaseFrom(value, from)
    decreases |value| - from
  {
    var i := IndexOfCharFrom(value, '_', from);
    var end := if i == -1 then |value| else i;
    IndexOfCharFromFirst(value, '_', from);
    TitleSpanNoUnderscore(value, from, end);
    if i != -1 {
      TitleCaseNoUnderscore(value, i + 1);
      var w := TitleSpan(value, from, i);
      var t := TitleCaseFrom(value, i + 1);
      assert '_' !in w + t;
    }
  }

  /** The title-cased text is shorter than the input by exactly the number of `_`. */
  lemma {:induction false} TitleCaseLength(value: string, from: nat)
    requires from <= |value|
    ensures |TitleCaseFrom(value, from)| == |value| - from - CountFrom(value, '_', from)
    decreases |value| - from
  {
    var i := IndexOfCharFrom(value, '_', from);
    var end := if i == -1 then |value| else i;
    assert CountFrom(value, '_', from) == CountFrom(value, '_', end) by {
      IndexOfCharFromFirst(value, '_', from);
      CountFromSkip(value, '_', from, end);
    }
    if i != -1 {
      var t := TitleCaseFrom(value, i + 1);
      TitleCaseLength(value, i + 1);
      assert CountFrom(value, '_', i) == 1 + CountFrom(value, '_', i + 1);
      assert TitleCaseFrom(value, from) == TitleSpan(value, from, i) + t;
    }
  }

  lemma TitleSpanNoUnderscore(s: string, from: nat, end: nat)
    requires from <= end <= |s|
    requires forall j :: from <= j < end ==> s[j] != '_'
    ensures '_' !in TitleSpan(s, from, end)
  {
    var r := TitleSpan(s, from, end);
    forall k | 0 <= k < |r| ensures r[k] != '_' {
      TitleSpanAt(s, from, end, k);
      assert s[from + k] != '_';
    }
  }

  /** Each word is capitalised and the rest of it lower-cased. */
  lemma TitleCaseWordsExample()
    ensures TitleCase("hI_yo") == "HiYo"
  {
    assert IndexOfCharFrom("hI_yo", '_', 0) == 2;
    assert IndexOfCharFrom("hI_yo", '_', 3) == -1;
    assert TitleSpan("hI_yo", 0, 2) == "Hi" && TitleSpan("hI_yo", 3, 5) == "Yo";
  }

  /** Leading, trailing and doubled `_` contribute nothing. */
  lemma TitleCaseUnderscoresExample()
    ensures TitleCase("_a__b_") == "AB"
  {
    var v := "_a__b_";
    assert TitleCaseFrom(v, 6) == "" by {
      assert IndexOfCharFrom(v, '_', 6) == -1;
    }
    assert TitleCaseFrom(v, 4) == "B" by {
      assert IndexOfCharFrom(v, '_', 4) == 5;
      assert TitleSpan(v, 4, 5) == "B";
    }
    assert TitleCaseFrom(v, 3) == "B" by {
      assert IndexOfCharFrom(v, '_', 3) == 3;
    }
    assert TitleCaseFrom(v, 1) == "AB" by {
      assert IndexOfCharFrom(v, '_', 1) == 2;
      assert TitleSpan(v, 1, 2) == "A";
    }
    assert IndexOfCharFrom(v, '_', 0) == 0;
  }
}
