/**
 * Support.AssemblyTypeDefinition: the "TypeName, AssemblyName" parser. The
 * constructor splits the definition on ',' and keeps the trimmed first two
 * pieces; the properties are set once and never changed by the parser.
 */
module AssemblyTypeDefinitions {

  import opened Wrappers
  import opened Text

  /** A parsed type definition; `assemblyName` is null when the text has no ','. */
  datatype AssemblyTypeDefinition = AssemblyTypeDefinition(typeName: string, assemblyName: Option<string>)

  /** The constructor AssemblyTypeDefinition(typeDefinition). */
  function Create(typeDefinition: Option<string>): (r: Result<AssemblyTypeDefinition>)
    ensures r.Error? <==> typeDefinition.None? || |typeDefinition.value| == 0
    ensures r.Error? ==> r.failure == Argument
    ensures r.Ok? ==> (r.value.assemblyName.None? <==> ',' !in typeDefinition.value)
  {
    if typeDefinition.None? || |typeDefinition.value| == 0 then Error(Argument)
    else
      var parts := Split(typeDefinition.value, ',');
      SplitFirst(typeDefinition.value, ',');
      IndexOfFirst(typeDefinition.value, ',');
      Ok(AssemblyTypeDefinition(Trim(parts[0]), if |parts| > 1 then Some(Trim(parts[1])) else None))
  }

  // ---------------------------------------------------------------------------
  // The pieces of Split

  /** The first piece runs up to the first separator; a second piece exists exactly when there is one. */
  lemma SplitFirst(s: string, c: char)
    ensures var parts := Split(s, c);
      var i := IndexOf(s, c);
      && (|parts| > 1 <==> i != -1)
      && parts[0] == (if i == -1 then s else s[..i])
  {
    assert s[0..] == s;
  }

  /** After the first separator, the second piece runs up to the next separator or the end. */
  lemma SplitSecond(s: string, c: char)
    requires IndexOf(s, c) != -1
    ensures var parts := Split(s, c);
      var i := IndexOf(s, c);
      var j := IndexOfCharFrom(s, c, i + 1);
      |parts| > 1 && parts[1] == (if j == -1 then s[i + 1..] else s[i + 1..j])
  {
    var i := IndexOf(s, c);
    assert Split(s, c) == [s[..i]] + SplitFrom(s, c, i + 1);
  }

  // ---------------------------------------------------------------------------
  // What the constructor keeps

  /** A null or empty definition is rejected with an ArgumentException. */
  lemma CreateRejectsEmpty(typeDefinition: Option<string>)
    ensures Create(typeDefinition).Error? <==> typeDefinition.None? || typeDefinition == Some("")
    ensures Create(typeDefinition).Error? ==> Create(typeDefinition).failure == Argument
  {
  }

  /**
   * TypeName is the trimmed text before the first ',' (all of it when there
   * is none); AssemblyName is null exactly when there is no ',', and
   * otherwise the trimmed text between the first ',' and the next one.
   */
  lemma CreateParts(s: string)
    requires |s| > 0
    ensures var i := IndexOf(s, ',');
      var d := Create(Some(s)).value;
      && Create(Some(s)).Ok?
      && d.typeName == Trim(if i == -1 then s else s[..i])
      && (d.assemblyName.None? <==> ',' !in s)
      && (i != -1 ==>
            var j := IndexOfCharFrom(s, ',', i + 1);
            d.assemblyName == Some(Trim(if j == -1 then s[i + 1..] else s[i + 1..j])))
  {
    SplitFirst(s, ',');
    IndexOfFirst(s, ',');
    if IndexOf(s, ',') != -1 {
      SplitSecond(s, ',');
    }
  }

  /** Three pieces, the first two comma-free: the first two pieces of the split are those two. */
  lemma SplitCommaFreeThree(a: string, b: string, rest: string)
    requires ',' !in a && ',' !in b
    ensures var parts := Split(a + "," + b + "," + rest, ',');
      |parts| >= 2 && parts[0] == a && parts[1] == b
  {
    var t := a + "," + b + "," + rest;
    var k := |a| + 1 + |b|;
    CommaFreePrefix(t, a, 0);
    CommaFreePrefix(t, b, |a| + 1);
    SplitFromAt(t, ',', 0, |a|);
    SplitFromAt(t, ',', |a| + 1, k);
  }

  /** A comma-free piece `p` sitting at `from` in `t`, followed by ','. */
  lemma CommaFreePrefix(t: string, p: string, from: nat)
    requires from + |p| < |t| && t[from..from + |p|] == p && t[from + |p|] == ','
    requires ',' !in p
    ensures forall m :: from <= m < from + |p| ==> t[m] != ','
  {
    forall m | from <= m < from + |p| ensures t[m] != ',' {
      assert t[m] == p[m - from];
    }
  }

  /** Parts after the second are ignored: "T, A, Version=1" has AssemblyName "A". */
  lemma CreateIgnoresRest(a: string, b: string, rest: string)
    requires ',' !in a && ',' !in b
    ensures Create(Some(a + "," + b + "," + rest)) == Create(Some(a + "," + b))
  {
    SplitCommaFreeThree(a, b, rest);
    SplitTwo(a, b, ',');
  }

  // ---------------------------------------------------------------------------
  // Round trip with the "TypeName, AssemblyName" form

  /** No white space at either end. */
  predicate Trimmed(s: string)
  {
    |s| == 0 || (!IsWhiteSpace(s[0]) && !IsWhiteSpace(s[|s| - 1]))
  }

  lemma TrimTrimmed(s: string)
    requires Trimmed(s)
    ensures Trim(s) == s
    ensures Trim(" " + s) == s
  {
    assert (" " + s)[1..] == s;
  }

  /** The written form of a definition: "TypeName" or "TypeName, AssemblyName". */
  function Format(d: AssemblyTypeDefinition): string
  {
    if d.assemblyName.None? then d.typeName else d.typeName + ", " + d.assemblyName.value
  }

  /** The constructor on a text that splits into two pieces. */
  lemma CreateFromTwo(s: string, x: string, y: string)
    requires |s| > 0 && Split(s, ',') == [x, y]
    ensures Create(Some(s)) == Ok(AssemblyTypeDefinition(Trim(x), Some(Trim(y))))
  {
  }

  /** ", " is the separator followed by one space. */
  lemma JoinWithSpace(t: string, a: string)
    ensures t + ", " + a == t + "," + (" " + a)
  {
    assert ", " == "," + " ";
  }

  /** "TypeName, AssemblyName" with trimmed, comma-free names is parsed back into those names. */
  lemma CreateTypeAndAssembly(t: string, a: string)
    requires Trimmed(t) && ',' !in t
    requires Trimmed(a) && ',' !in a
    ensures Create(Some(t + ", " + a)) == Ok(AssemblyTypeDefinition(t, Some(a)))
  {
    TrimTrimmed(t);
    TrimTrimmed(a);
    var b := " " + a;
    assert ',' !in b;
    JoinWithSpace(t, a);
    SplitTwo(t, b, ',');
    CreateFromTwo(t + ", " + a, t, b);
  }

  /** The constructor on a text without ','. */
  lemma CreateFromOne(s: string)
    requires |s| > 0 && Split(s, ',') == [s]
    ensures Create(Some(s)) == Ok(AssemblyTypeDefinition(Trim(s), None))
  {
  }

  /** A definition with trimmed, comma-free names is parsed back from its written form. */
  lemma CreateFormat(d: AssemblyTypeDefinition)
    requires Trimmed(d.typeName) && ',' !in d.typeName
    requires d.assemblyName.Some? ==> Trimmed(d.assemblyName.value) && ',' !in d.assemblyName.value
    requires |Format(d)| > 0
    ensures Create(Some(Format(d))) == Ok(d)
  {
    var t := d.typeName;
    if d.assemblyName.Some? {
      var a := d.assemblyName.value;
      assert Format(d) == t + ", " + a;
      CreateTypeAndAssembly(t, a);
      assert d == AssemblyTypeDefinition(t, Some(a));
    } else {
      assert Format(d) == t;
      TrimTrimmed(t);
      SplitOne(t, ',');
      CreateFromOne(t);
    }
  }

  /** The example text, cut at its separators. */
  lemma VersionExamplePieces()
    ensures "T, A, Version=1" == "T" + "," + " A" + "," + " Version=1"
    ensures Format(AssemblyTypeDefinition("T", Some("A"))) == "T" + "," + " A"
    ensures ',' !in "T" && ',' !in " A"
    ensures Trimmed("T") && Trimmed("A") && ',' !in "A"
  {
  }

  /** "T, A, Version=1" gives TypeName "T" and AssemblyName "A". */
  lemma CreateVersionExample()
    ensures Create(Some("T, A, Version=1")) == Ok(AssemblyTypeDefinition("T", Some("A")))
  {
    VersionExamplePieces();
    CreateIgnoresRest("T", " A", " Version=1");
    CreateFormat(AssemblyTypeDefinition("T", Some("A")));
  }
}
