/**
  What the parser accepts is never more than a relaxed concrete syntax. `JsonExact` shows that it is no less.

  `Loose` is the syntax of RFC 8259 with runs of blanks and commas for separators, wherever they stand in a container.
  Every text that is accepted is such a syntax printed, and what is read is its meaning.
 */
module JsonSound {
  import opened CStrings
  import opened JsonGrammar
  import opened JsonNumber
  import opened JsonRfc

  datatype Loose =
    | LText(items: seq<Item>)
    | LWord(word: string)
    | LNumber(numeral: Numeral)
    | LContainer(isObj: bool, fields: seq<LField>, last: string)

  /** Separators, in an object a name, and a value. */
  datatype LField = LField(separators: string, name: Option<LName>, value: Loose)

  datatype LName = LName(items: seq<Item>, ws1: string, ws2: string)

  predicate AreBlanks(s: string) {
    forall k | 0 <= k < |s| :: IsBlank(s[k])
  }

  predicate AreSeparators(s: string) {
    forall k | 0 <= k < |s| :: IsBlank(s[k]) || s[k] == ','
  }

  predicate AreItems(items: seq<Item>) {
    forall k | 0 <= k < |items| :: IsItem(items[k])
  }

  /** Well-formed, with no integer that fails the overflow test. */
  ghost predicate IsLoose(x: Loose)
    decreases x, 0
  {
    match x
    case LText(items) => AreItems(items)
    case LWord(w) => IsWord(w)
    case LNumber(n) => IsNumeral(n) && (IsInteger(n) ==> IntegerFits(PrintNumeral(n)))
    case LContainer(isObj, fields, last) => AreLoose(fields, isObj) && AreSeparators(last)
  }

  /** Well-formed fields. A word or a number is kept apart from the next field. */
  ghost predicate AreLoose(fs: seq<LField>, named: bool)
    decreases fs, 2
  {
    fs == [] || (IsLooseField(fs[0], named) && Apart(fs[0], fs[1..]) && AreLoose(fs[1..], named))
  }

  predicate IsPrimitive(x: Loose) {
    x.LWord? || x.LNumber?
  }

  predicate Apart(f: LField, rest: seq<LField>) {
    IsPrimitive(f.value) && rest != [] ==> rest[0].separators != ""
  }

  ghost predicate IsLooseField(f: LField, named: bool)
    decreases f, 1
  {
    && AreSeparators(f.separators) && f.name.Some? == named && IsLoose(f.value)
    && (named ==> AreItems(f.name.value.items) && AreBlanks(f.name.value.ws1) && AreBlanks(f.name.value.ws2))
  }

  function PrintLName(n: LName): string {
    "\"" + PrintItems(n.items) + n.ws1 + ":" + n.ws2
  }

  function PrintLoose(x: Loose): string
    decreases x, 0
  {
    match x
    case LText(items) => "\"" + PrintItems(items)
    case LWord(w) => w
    case LNumber(n) => PrintNumeral(n)
    case LContainer(isObj, fields, last) =>
      [if isObj then '{' else '['] + (PrintLooseFields(fields) + (last + [Close(isObj)]))
  }

  function PrintLooseFields(fs: seq<LField>): string
    decreases fs, 2
  {
    if fs == [] then "" else PrintLooseField(fs[0]) + PrintLooseFields(fs[1..])
  }

  function PrintLooseField(f: LField): string
    decreases f, 1
  {
    f.separators + ((if f.name.None? then "" else PrintLName(f.name.value)) + PrintLoose(f.value))
  }

  function MeaningLoose(x: Loose): Value
    decreases x, 0
  {
    match x
    case LText(items) => Scalar(TEXT, Decode(items))
    case LWord(w) => Scalar(if w == "null" then NUL_KIND else BOOLEAN, w)
    case LNumber(n) => Scalar(if IsInteger(n) then INTEGER else REAL, PrintNumeral(n))
    case LContainer(isObj, fields, _) => Container(isObj, MeaningLooseFields(fields))
  }

  function MeaningLooseFields(fs: seq<LField>): seq<Member>
    decreases fs, 2
  {
    if fs == [] then [] else [MeaningLooseField(fs[0])] + MeaningLooseFields(fs[1..])
  }

  function MeaningLooseField(f: LField): Member
    decreases f, 1
  {
    Member(if f.name.None? then None else Some(Decode(f.name.value.items)), MeaningLoose(f.value))
  }

  // ---- each reader accepts only what is printed ----

  lemma Glue(t: string, a: nat, b: nat, c: nat)
    requires a <= b <= c <= |t|
    ensures t[a..b] + t[b..c] == t[a..c]
  {
  }

  lemma {:induction false} BlanksSound(t: string, i: nat)
    requires SkipBlanks(t, i).Some?
    ensures AreBlanks(t[i..SkipBlanks(t, i).value])
    decreases |t| - i
  {
    if IsBlank(t[i]) {
      BlanksSound(t, i + 1);
      Glue(t, i, i + 1, SkipBlanks(t, i).value);
    }
  }

  lemma {:induction false} SeparatorsSound(t: string, i: nat)
    requires SkipSeparators(t, i).Some?
    ensures AreSeparators(t[i..SkipSeparators(t, i).value])
    decreases |t| - i
  {
    if IsBlank(t[i]) || t[i] == ',' {
      SeparatorsSound(t, i + 1);
      Glue(t, i, i + 1, SkipSeparators(t, i).value);
    }
  }

  lemma CharSound(t: string, i: nat) returns (x: Item)
    requires At(t, i) >= ' ' && t[i] != '\"' && StringChar(t, i).Parsed?
    ensures IsItem(x) && ItemChar(x) == StringChar(t, i).value && PrintItem(x) == t[i..StringChar(t, i).next]
  {
    var j := StringChar(t, i).next;
    if t[i] != '\\' {
      x := Plain(t[i]);
    } else if At(t, i + 1) == 'u' {
      x := Unicode(t[i + 2..i + 6]);
      HexDigits(x.hex);
      assert t[i..j] == "\\u" + t[i + 2..i + 6];
    } else {
      x := Escape(t[i + 1]);
      EscapeTable(t[i + 1]);
      assert t[i..j] == ['\\', t[i + 1]];
    }
  }

  lemma {:induction false} TailSound(t: string, i: nat) returns (items: seq<Item>)
    requires StringTail(t, i).Parsed?
    ensures AreItems(items) && Decode(items) == StringTail(t, i).value
    ensures PrintItems(items) == t[i..StringTail(t, i).next]
    decreases |t| - i
  {
    if t[i] == '\"' {
      items := [];
    } else {
      var x := CharSound(t, i);
      var j := StringChar(t, i).next;
      var rest := TailSound(t, j);
      items := [x] + rest;
      Glue(t, i, j, StringTail(t, j).next);
      assert items[1..] == rest;
    }
  }

  lemma NameSound(t: string, i: nat) returns (n: LName)
    requires Name(t, i).Parsed?
    ensures AreItems(n.items) && AreBlanks(n.ws1) && AreBlanks(n.ws2)
    ensures Decode(n.items) == Name(t, i).value && PrintLName(n) == t[i..Name(t, i).next]
  {
    var a := StringTail(t, i + 1).next;
    var c := SkipBlanks(t, a).value;
    var v := SkipBlanks(t, c + 1).value;
    var items := TailSound(t, i + 1);
    BlanksSound(t, a);
    BlanksSound(t, c + 1);
    n := LName(items, t[a..c], t[c + 1..v]);
    NamePrinted(t, i, a, c, v, n);
  }

  lemma NamePrinted(t: string, i: nat, a: nat, c: nat, v: nat, n: LName)
    requires i < a <= c < v <= |t| && t[i] == '\"' && t[c] == ':'
    requires PrintItems(n.items) == t[i + 1..a] && n.ws1 == t[a..c] && n.ws2 == t[c + 1..v]
    ensures PrintLName(n) == t[i..v]
  {
    assert t[i..i + 1] == "\"" && t[c..c + 1] == ":";
    Glue(t, i, i + 1, a);
    Glue(t, i, a, c);
    Glue(t, i, c, c + 1);
    Glue(t, i, c + 1, v);
  }

  lemma ScalarSound(t: string, i: nat) returns (x: Loose)
    requires ScalarValue(t, i).Parsed?
    ensures IsLoose(x) && MeaningLoose(x) == ScalarValue(t, i).value && PrintLoose(x) == t[i..ScalarValue(t, i).next]
    ensures IsPrimitive(x) ==> EndsPrimitive(At(t, ScalarValue(t, i).next))
  {
    var v := ScalarValue(t, i);
    match At(t, i) {
      case '\"' =>
        var items := TailSound(t, i + 1);
        x := LText(items);
        Glue(t, i, i + 1, v.next);
        assert t[i..i + 1] == "\"";
      case 't' => x := LWord("true");
      case 'f' => x := LWord("false");
      case 'n' => x := LWord("null");
      case _ =>
        var n := NumberSound(t, i);
        x := LNumber(n);
    }
  }

  lemma {:induction false} ValueSound(t: string, i: nat) returns (x: Loose)
    requires i < |t| && ParseValue(t, i).Parsed?
    ensures IsLoose(x) && MeaningLoose(x) == ParseValue(t, i).value && PrintLoose(x) == t[i..ParseValue(t, i).next]
    ensures t[i] == '{' ==> x.LContainer? && x.isObj
    ensures IsPrimitive(x) ==> EndsPrimitive(At(t, ParseValue(t, i).next))
    decreases |t| - i, 0
  {
    if t[i] == '{' || t[i] == '[' {
      var isObj := t[i] == '{';
      var fields, last := MembersSound(t, i + 1, isObj);
      x := LContainer(isObj, fields, last);
      Glue(t, i, i + 1, Members(t, i + 1, isObj).next);
      assert t[i..i + 1] == [if isObj then '{' else '['];
    } else {
      x := ScalarSound(t, i);
    }
  }

  lemma {:induction false} FieldSound(t: string, i: nat, named: bool) returns (f: LField)
    requires SkipSeparators(t, i).Some? && MemberName(t, SkipSeparators(t, i).value, named).Parsed?
    requires ParseValue(t, MemberName(t, SkipSeparators(t, i).value, named).next).Parsed?
    ensures IsLooseField(f, named)
    ensures var name := MemberName(t, SkipSeparators(t, i).value, named);
            var value := ParseValue(t, name.next);
            MeaningLooseField(f) == Member(name.value, value.value) && PrintLooseField(f) == t[i..value.next]
            && (IsPrimitive(f.value) ==> EndsPrimitive(At(t, value.next)))
    ensures f.separators == t[i..SkipSeparators(t, i).value]
    decreases |t| - i, 1
  {
    var s := SkipSeparators(t, i).value;
    var v := MemberName(t, s, named).next;
    var n := ParseValue(t, v).next;
    SeparatorsSound(t, i);
    var x := ValueSound(t, v);
    var name: Option<LName> := None;
    if named {
      var l := NameSound(t, s);
      name := Some(l);
    }
    f := LField(t[i..s], name, x);
    Glue(t, s, v, n);
    Glue(t, i, s, n);
  }

  lemma FieldsCons(f: LField, rest: seq<LField>, named: bool, tail: string)
    requires IsLooseField(f, named) && AreLoose(rest, named) && Apart(f, rest)
    ensures AreLoose([f] + rest, named)
    ensures MeaningLooseFields([f] + rest) == [MeaningLooseField(f)] + MeaningLooseFields(rest)
    ensures PrintLooseFields([f] + rest) + tail == PrintLooseField(f) + (PrintLooseFields(rest) + tail)
  {
    assert ([f] + rest)[1..] == rest;
  }

  /** A field does not begin with a bracket that closes. */
  lemma NotAtBracket(t: string, i: nat, isObj: bool)
    requires SkipSeparators(t, i).Some? && t[SkipSeparators(t, i).value] != Close(isObj)
    requires MemberName(t, SkipSeparators(t, i).value, isObj).Parsed?
    requires ParseValue(t, MemberName(t, SkipSeparators(t, i).value, isObj).next).Parsed?
    ensures EndsPrimitive(t[i]) ==> i < SkipSeparators(t, i).value
  {
  }

  lemma {:induction false} MembersSound(t: string, i: nat, isObj: bool) returns (fields: seq<LField>, last: string)
    requires Members(t, i, isObj).Parsed?
    ensures AreLoose(fields, isObj) && AreSeparators(last) && MeaningLooseFields(fields) == Members(t, i, isObj).value
    ensures PrintLooseFields(fields) + (last + [Close(isObj)]) == t[i..Members(t, i, isObj).next]
    ensures fields != [] && EndsPrimitive(t[i]) ==> fields[0].separators != ""
    decreases |t| - i, 2
  {
    var s := SkipSeparators(t, i).value;
    if t[s] == Close(isObj) {
      SeparatorsSound(t, i);
      fields, last := [], t[i..s];
      Glue(t, i, s, s + 1);
      assert t[s..s + 1] == [Close(isObj)];
    } else {
      var f := FieldSound(t, i, isObj);
      var n := ParseValue(t, MemberName(t, s, isObj).next).next;
      var rest;
      rest, last := MembersSound(t, n, isObj);
      fields := [f] + rest;
      NotAtBracket(t, i, isObj);
      FieldsCons(f, rest, isObj, last + [Close(isObj)]);
      Glue(t, i, n, Members(t, n, isObj).next);
    }
  }

  /**
    Every text accepted is blanks, then a relaxed object syntax printed, with that meaning. What follows is not
    read.
   */
  lemma DocumentSound(t: string) returns (ws: string, x: Loose)
    requires Document(t).Parsed?
    ensures AreBlanks(ws) && IsLoose(x) && x.LContainer? && x.isObj
    ensures ws + PrintLoose(x) == t[..Document(t).next] && MeaningLoose(x) == Document(t).value
  {
    var p := SkipBlanks(t, 0).value;
    BlanksSound(t, 0);
    ws := t[0..p];
    x := ValueSound(t, p);
    Glue(t, 0, p, Document(t).next);
  }
}
