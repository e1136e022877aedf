/**
  Every relaxed syntax of `JsonSound` is read whole as what it means, so that the parser's language is exactly it.
 */
module JsonExact {
  import opened CStrings
  import opened JsonGrammar
  import opened JsonNumber
  import opened JsonRfc
  import opened JsonSound

  lemma {:induction false} SeparatorsSkipped(t: string, i: nat, j: nat, s: string)
    requires AreSeparators(s) && Matches(t, i, s) && j == i + |s|
    ensures SkipSeparators(t, i) == SkipSeparators(t, j)
    decreases |s|
  {
    if s != "" {
      MatchesAt(t, i, s, 0);
      assert s == [s[0]] + s[1..];
      MatchesSplit(t, i, [s[0]], s[1..]);
      SeparatorsSkipped(t, i + 1, j, s[1..]);
    }
  }

  lemma {:induction false} BlanksSkipped(t: string, i: nat, j: nat, s: string)
    requires AreBlanks(s) && Matches(t, i, s) && j == i + |s|
    ensures SkipBlanks(t, i) == SkipBlanks(t, j)
    decreases |s|
  {
    if s != "" {
      MatchesAt(t, i, s, 0);
      assert s == [s[0]] + s[1..];
      MatchesSplit(t, i, [s[0]], s[1..]);
      BlanksSkipped(t, i + 1, j, s[1..]);
    }
  }

  /** The first character printed for a value is none that a blank, comma or bracket could be taken for. */
  lemma LooseFirst(x: Loose)
    requires IsLoose(x)
    ensures var s := PrintLoose(x);
            && s != "" && s[0] != NUL && !IsBlank(s[0]) && s[0] != ',' && !IsBracket(s[0])
            && (s[0] == '{' <==> x.LContainer? && x.isObj) && (s[0] == '[' <==> x.LContainer? && !x.isObj)
  {
    if x.LNumber? {
      var n := x.numeral;
      assert PrintLoose(x)[0] == if n.neg then '-' else n.whole[0];
    }
  }

  /** Where a value is printed, nothing is skipped. */
  lemma LooseStarts(t: string, v: nat, x: Loose)
    requires IsLoose(x) && Matches(t, v, PrintLoose(x))
    ensures v < |t| && !IsBracket(t[v]) && SkipBlanks(t, v) == Some(v) && SkipSeparators(t, v) == Some(v)
    ensures t[v] == '{' <==> x.LContainer? && x.isObj
    ensures t[v] == '[' <==> x.LContainer? && !x.isObj
  {
    LooseFirst(x);
    MatchesAt(t, v, PrintLoose(x), 0);
  }

  lemma LooseScalarRead(t: string, i: nat, x: Loose, n: nat)
    requires IsLoose(x) && !x.LContainer? && Matches(t, i, PrintLoose(x)) && n == i + |PrintLoose(x)|
    requires IsPrimitive(x) ==> EndsPrimitive(At(t, n))
    ensures ScalarValue(t, i) == Parsed(MeaningLoose(x), n)
  {
    match x
    case LText(items) => TextScalarRead(t, i, items);
    case LWord(w) => WordScalarRead(t, i, w);
    case LNumber(m) => NumberScalarRead(t, i, m);
  }

  lemma LooseNameParts(t: string, i: nat, n: LName, a: nat, c: nat, v: nat)
    requires Matches(t, i, PrintLName(n))
    requires a == i + 1 + |PrintItems(n.items)| && c == a + |n.ws1| && v == i + |PrintLName(n)|
    ensures At(t, i) == '\"' && Matches(t, i + 1, PrintItems(n.items)) && Matches(t, a, n.ws1)
    ensures At(t, c) == ':' && Matches(t, c + 1, n.ws2) && v == c + 1 + |n.ws2|
  {
    assert PrintLName(n) == "\"" + (PrintItems(n.items) + (n.ws1 + (":" + n.ws2)));
    NameSplit(t, i, PrintItems(n.items), n.ws1, n.ws2, a, c);
  }

  lemma LooseNameRead(t: string, i: nat, n: LName, v: nat)
    requires AreItems(n.items) && AreBlanks(n.ws1) && AreBlanks(n.ws2)
    requires Matches(t, i, PrintLName(n)) && v == i + |PrintLName(n)| && SkipBlanks(t, v) == Some(v)
    ensures At(t, i) == '\"' && Name(t, i) == Parsed(Decode(n.items), v)
  {
    var a := i + 1 + |PrintItems(n.items)|;
    var c := a + |n.ws1|;
    LooseNameParts(t, i, n, a, c, v);
    TextRead(t, i + 1, n.items);
    BlanksSkipped(t, a, c, n.ws1);
    BlanksSkipped(t, c + 1, v, n.ws2);
    NameFromParts(t, i, Decode(n.items), a, c, v);
  }

  function PrintedName(f: LField): string {
    if f.name.None? then "" else PrintLName(f.name.value)
  }

  function NameMeant(f: LField): Option<string> {
    if f.name.None? then None else Some(Decode(f.name.value.items))
  }

  /** Up to its value, a field is separators and a name. */
  lemma LooseHead(t: string, i: nat, s: nat, v: nat, f: LField, named: bool)
    requires IsLooseField(f, named) && s == i + |f.separators| && v == s + |PrintedName(f)|
    requires Matches(t, i, f.separators) && Matches(t, s, PrintedName(f)) && Matches(t, v, PrintLoose(f.value))
    ensures s < |t| && SkipSeparators(t, i) == SkipSeparators(t, s) == Some(s) && t[s] != Close(named)
    ensures MemberName(t, s, named) == Parsed(NameMeant(f), v)
  {
    LooseStarts(t, v, f.value);
    SeparatorsSkipped(t, i, s, f.separators);
    if named {
      LooseNameRead(t, s, f.name.value, v);
    }
  }

  /** Members read over one of them. */
  lemma OverField(t: string, i: nat, s: nat, v: nat, n: nat, name: Option<string>, value: Value, named: bool)
    requires SkipSeparators(t, i) == Some(s) && t[s] != Close(named)
    requires MemberName(t, s, named) == Parsed(name, v) && ParseValue(t, v) == Parsed(value, n)
    requires Members(t, n, named).Parsed?
    ensures var rest := Members(t, n, named);
            Members(t, i, named) == Parsed([Member(name, value)] + rest.value, rest.next)
  {
  }

  lemma AtEnd(t: string, i: nat, j: nat, last: string, named: bool)
    requires AreSeparators(last) && Matches(t, i, last + [Close(named)]) && j == i + |last|
    ensures Members(t, i, named) == Parsed([], j + 1)
  {
    MatchesSplit(t, i, last, [Close(named)]);
    MatchesAt(t, j, [Close(named)], 0);
    SeparatorsSkipped(t, i, j, last);
  }

  /** What follows a field: separators, the closing bracket, or the next field. */
  lemma TailEnds(t: string, n: nat, f: LField, rest: seq<LField>, last: string, named: bool)
    requires AreLoose(rest, named) && Apart(f, rest) && AreSeparators(last) && IsPrimitive(f.value)
    requires Matches(t, n, PrintLooseFields(rest) + (last + [Close(named)]))
    ensures EndsPrimitive(At(t, n))
  {
    var s := PrintLooseFields(rest) + (last + [Close(named)]);
    MatchesAt(t, n, s, 0);
    if rest != [] {
      assert PrintLooseFields(rest) == PrintLooseField(rest[0]) + PrintLooseFields(rest[1..]);
      assert PrintLooseField(rest[0])[0] == rest[0].separators[0];
    } else if last != "" {
      assert s[0] == last[0];
    }
  }

  /** A relaxed value printed in a text, where a word or number is at an end, is read as what it means. */
  lemma {:induction false} LooseRead(t: string, i: nat, x: Loose, n: nat)
    requires IsLoose(x) && Matches(t, i, PrintLoose(x)) && n == i + |PrintLoose(x)|
    requires IsPrimitive(x) ==> EndsPrimitive(At(t, n))
    ensures i < |t| && ParseValue(t, i) == Parsed(MeaningLoose(x), n)
    decreases x, 0
  {
    LooseStarts(t, i, x);
    match x {
      case LContainer(isObj, fields, last) =>
        LooseInside(t, i, isObj, fields, last, n);
        FieldsRead(t, i + 1, fields, last, isObj, n);
        LooseContainer(t, i, isObj, MeaningLooseFields(fields), n);
      case _ => LooseScalarRead(t, i, x, n);
    }
  }

  lemma LooseInside(t: string, i: nat, isObj: bool, fields: seq<LField>, last: string, n: nat)
    requires Matches(t, i, PrintLoose(LContainer(isObj, fields, last)))
    requires n == i + |PrintLoose(LContainer(isObj, fields, last))|
    ensures Matches(t, i + 1, PrintLooseFields(fields) + (last + [Close(isObj)]))
    ensures n == i + 1 + |PrintLooseFields(fields)| + |last| + 1
  {
    MatchesSplit(t, i, [if isObj then '{' else '['], PrintLooseFields(fields) + (last + [Close(isObj)]));
  }

  lemma LooseContainer(t: string, i: nat, isObj: bool, members: seq<Member>, n: nat)
    requires i < |t| && t[i] == (if isObj then '{' else '[') && Members(t, i + 1, isObj) == Parsed(members, n)
    ensures ParseValue(t, i) == Parsed(Container(isObj, members), n)
  {
  }

  lemma {:induction false} FieldsRead(t: string, i: nat, fs: seq<LField>, last: string, named: bool, end: nat)
    requires AreLoose(fs, named) && AreSeparators(last)
    requires Matches(t, i, PrintLooseFields(fs) + (last + [Close(named)]))
    requires end == i + |PrintLooseFields(fs)| + |last| + 1
    ensures Members(t, i, named) == Parsed(MeaningLooseFields(fs), end)
    decreases fs, 2
  {
    if fs == [] {
      assert "" + (last + [Close(named)]) == last + [Close(named)];
      AtEnd(t, i, end - 1, last, named);
    } else {
      var f, rest := fs[0], fs[1..];
      var tail := PrintLooseFields(rest) + (last + [Close(named)]);
      var s, v, n := LooseParts(t, i, f, rest, tail, last, named);
      if IsPrimitive(f.value) {
        TailEnds(t, n, f, rest, last, named);
      }
      assert f in fs;
      LooseHead(t, i, s, v, f, named);
      LooseRead(t, v, f.value, n);
      FieldsRead(t, n, rest, last, named, end);
      OverField(t, i, s, v, n, NameMeant(f), MeaningLoose(f.value), named);
    }
  }

  lemma PrintedFirst(f: LField, rest: seq<LField>, closing: string, tail: string)
    requires tail == PrintLooseFields(rest) + closing
    ensures PrintLooseFields([f] + rest) + closing == PrintLooseField(f) + tail
  {
    assert ([f] + rest)[1..] == rest;
  }

  /** Where the name, the value and the rest of the fields begin. */
  lemma LooseParts(t: string, i: nat, f: LField, rest: seq<LField>, tail: string, last: string, named: bool)
    returns (s: nat, v: nat, n: nat)
    requires tail == PrintLooseFields(rest) + (last + [Close(named)])
    requires Matches(t, i, PrintLooseFields([f] + rest) + (last + [Close(named)]))
    ensures s == i + |f.separators| && v == s + |PrintedName(f)| && n == v + |PrintLoose(f.value)|
    ensures n == i + |PrintLooseField(f)|
    ensures Matches(t, i, f.separators) && Matches(t, s, PrintedName(f)) && Matches(t, v, PrintLoose(f.value))
    ensures Matches(t, n, tail)
  {
    s := i + |f.separators|;
    v := s + |PrintedName(f)|;
    n := v + |PrintLoose(f.value)|;
    PrintedFirst(f, rest, last + [Close(named)], tail);
    MatchesSplit(t, i, PrintLooseField(f), tail);
    MatchesSplit3(t, i, f.separators, PrintedName(f), PrintLoose(f.value));
  }

  /** The text begins with blanks and then x printed, up to n. */
  ghost predicate Begins(t: string, ws: string, x: Loose, n: nat) {
    && AreBlanks(ws) && IsLoose(x) && x.LContainer? && x.isObj
    && n <= |t| && t[..n] == ws + PrintLoose(x)
  }

  lemma DocumentReads(t: string, ws: string, x: Loose, n: nat)
    requires Begins(t, ws, x, n)
    ensures Document(t) == Parsed(MeaningLoose(x), n)
  {
    var v := |ws|;
    assert t[0..n] == t[..n];
    MatchesSlice(t, 0, ws + PrintLoose(x));
    MatchesSplit(t, 0, ws, PrintLoose(x));
    BlanksSkipped(t, 0, v, ws);
    LooseStarts(t, v, x);
    LooseRead(t, v, x, n);
  }

  /** A text is read exactly if it begins with blanks and an object of the relaxed syntax, and as what that means. */
  lemma DocumentExactly(t: string, value: Value, n: nat)
    ensures Document(t) == Parsed(value, n) <==>
            exists ws: string, x: Loose :: Begins(t, ws, x, n) && value == MeaningLoose(x)
  {
    if Document(t) == Parsed(value, n) {
      var ws, x := DocumentSound(t);
      assert Begins(t, ws, x, n);
    }
    if ws: string, x: Loose :| Begins(t, ws, x, n) && value == MeaningLoose(x) {
      DocumentReads(t, ws, x, n);
    }
  }
}
